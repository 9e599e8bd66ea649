/** View intervals of the segments, and the two directions between display rows and virtual
    addresses. */
module SegmentViews {
  import opened Wrappers
  import opened Geometry

  // ------------------------------------------------------------------ the segments of a tree

  function Ids(s: Seg): set<SegId>
    decreases s, |s.subs| + 1
  {
    IdsFrom(s, 0) + {s.id}
  }

  function IdsFrom(s: Seg, i: nat): set<SegId>
    requires i <= |s.subs|
    decreases s, |s.subs| - i
  {
    if i == |s.subs| then {} else Ids(s.subs[i]) + IdsFrom(s, i + 1)
  }

  /** No two segments of the tree share an identity. */
  ghost predicate Distinct(s: Seg)
    decreases s, |s.subs| + 1
  {
    s.id !in IdsFrom(s, 0) && DistinctFrom(s, 0)
  }

  ghost predicate DistinctFrom(s: Seg, i: nat)
    requires i <= |s.subs|
    decreases s, |s.subs| - i
  {
    i < |s.subs| ==> Distinct(s.subs[i]) && Ids(s.subs[i]) !! IdsFrom(s, i + 1) && DistinctFrom(s, i + 1)
  }

  ghost predicate Within(n: Seg, s: Seg)
    decreases s, |s.subs| + 1
  {
    n == s || WithinFrom(n, s, 0)
  }

  ghost predicate WithinFrom(n: Seg, s: Seg, i: nat)
    requires i <= |s.subs|
    decreases s, |s.subs| - i
  {
    i < |s.subs| && (Within(n, s.subs[i]) || WithinFrom(n, s, i + 1))
  }

  lemma {:induction false} IdsWithin(n: Seg, s: Seg)
    requires Within(n, s)
    ensures Ids(n) <= Ids(s)
    ensures WellFormed(s) ==> WellFormed(n)
    decreases s, |s.subs| + 1
  {
    hide WellFormed;
    if n != s { IdsWithinFrom(n, s, 0); }
  }

  lemma {:induction false} IdsWithinFrom(n: Seg, s: Seg, i: nat)
    requires i <= |s.subs| && WithinFrom(n, s, i)
    ensures Ids(n) <= IdsFrom(s, i)
    ensures WellFormed(s) ==> WellFormed(n)
    decreases s, |s.subs| - i
  {
    hide WellFormed;
    if WellFormed(s) { At(s, i); }
    if Within(n, s.subs[i]) {
      IdsWithin(n, s.subs[i]);
    } else {
      IdsWithinFrom(n, s, i + 1);
    }
  }

  ghost predicate OwnedBy(ss: seq<Section>, ids: set<SegId>) {
    forall k :: 0 <= k < |ss| ==> ss[k].seg in ids
  }

  ghost predicate OwnedByNone(ss: seq<Section>, ids: set<SegId>) {
    forall k :: 0 <= k < |ss| ==> ss[k].seg !in ids
  }

  lemma GapOwned(s: Seg, lo: int, hi: int, da: int, ra: int)
    ensures OwnedBy(Gap(s, lo, hi, da, ra), {s.id})
  {}

  lemma {:induction false} TableOwned(s: Seg, da: int, ra: int)
    requires WellFormed(s)
    ensures OwnedBy(Table(s, da, ra), Ids(s))
    decreases s, |s.subs| + 1
  {
    hide WellFormed, IdsFrom;
    if s.subs != [] { TableFromOwned(s, 0, da, ra); }
  }

  lemma {:induction false} TableFromOwned(s: Seg, i: nat, da: int, ra: int)
    requires WellFormed(s) && i <= |s.subs|
    ensures OwnedBy(TableFrom(s, i, da, ra), IdsFrom(s, i) + {s.id})
    decreases s, |s.subs| - i
  {
    hide WellFormed, Table, Rows, Ids;
    At(s, i);
    if i < |s.subs| {
      var sub, gap := s.subs[i], GapSize(s, i);
      TableOwned(sub, da + gap, ra + gap);
      TableFromOwned(s, i + 1, da + gap + Rows(sub), ra + gap + sub.trace);
    }
  }

  lemma {:induction false} ViewKeys(s: Seg, da: int)
    ensures Views(s, da).Keys == Ids(s)
    decreases s, |s.subs| + 1
  {
    ViewFromKeys(s, 0, da);
  }

  lemma {:induction false} ViewFromKeys(s: Seg, i: nat, da: int)
    requires i <= |s.subs|
    ensures ViewsFrom(s, i, da).Keys == IdsFrom(s, i)
    decreases s, |s.subs| - i
  {
    hide Rows, Views, Ids;
    if i < |s.subs| {
      ViewKeys(s.subs[i], da + GapSize(s, i));
      ViewFromKeys(s, i + 1, da + GapSize(s, i) + Rows(s.subs[i]));
    }
  }

  // ------------------------------------------------------------------ views are rows

  function RawOf(raw: map<SegId, int>, id: SegId): int {
    if id in raw then raw[id] else 0
  }

  /** Raw offsets that fit the tree: a subsegment's is its parent's, moved on by its place in
      the parent. */
  ghost predicate RawFits(s: Seg, raw: map<SegId, int>)
    decreases s, |s.subs| + 1
  {
    RawFitsFrom(s, 0, raw)
  }

  ghost predicate RawFitsFrom(s: Seg, i: nat, raw: map<SegId, int>)
    requires i <= |s.subs|
    decreases s, |s.subs| - i
  {
    i < |s.subs| ==>
      && RawOf(raw, s.subs[i].id) == RawOf(raw, s.id) + (s.subs[i].at - s.base)
      && RawFits(s.subs[i], raw) && RawFitsFrom(s, i + 1, raw)
  }

  /** The table of a segment inside the tree is a slice of the tree's table, at the rows of its
      view, and the rest of the tree's table belongs to others. */
  lemma {:induction false} Slice(s: Seg, da: int, ra: int, n: Seg)
      returns (pre: seq<Section>, post: seq<Section>, ra2: int)
    requires WellFormed(s) && Distinct(s) && Within(n, s)
    ensures WellFormed(n) && n.id in Views(s, da) && Views(s, da)[n.id].size == Rows(n)
    ensures Table(s, da, ra) == pre + Table(n, Views(s, da)[n.id].lo, ra2) + post
    ensures OwnedByNone(pre, Ids(n)) && OwnedByNone(post, Ids(n))
    ensures Tiles(pre, da, Views(s, da)[n.id].lo)
    ensures Tiles(post, Views(s, da)[n.id].lo + Rows(n), da + Rows(s))
    ensures forall raw {:trigger RawFits(s, raw)} :: RawFits(s, raw) && RawOf(raw, s.id) == ra ==>
              RawOf(raw, n.id) == ra2
    decreases s, |s.subs| + 1
  {
    hide RawOf, RawFitsFrom, WellFormed, Table, TableFrom, Rows, RowsFrom, ViewsFrom, Ids, IdsFrom;
    hide DistinctFrom, WithinFrom;
    if n == s {
      pre, post, ra2 := [], [], ra;
      assert Table(s, da, ra) == [] + Table(s, da, ra) + [];
    } else {
      pre, post, ra2 := SliceFrom(s, 0, da, ra, n);
      IdsWithinFrom(n, s, 0);
      OwnId(n);
      TableSplits(s, da, ra);
    }
  }

  lemma OwnId(n: Seg)
    ensures n.id in Ids(n)
  {}

  lemma TableSplits(s: Seg, da: int, ra: int)
    ensures s.subs != [] ==> Table(s, da, ra) == TableFrom(s, 0, da, ra) && Rows(s) == RowsFrom(s, 0)
  {}

  /** Whose view it is. */
  lemma ViewOf(s: Seg, i: nat, da: int, id: SegId)
    requires i < |s.subs|
    ensures var sub, gap := s.subs[i], GapSize(s, i);
            var da2 := da + gap + Rows(sub);
            && (id in IdsFrom(s, i + 1) ==>
                  && id in ViewsFrom(s, i, da) && id in ViewsFrom(s, i + 1, da2)
                  && ViewsFrom(s, i, da)[id] == ViewsFrom(s, i + 1, da2)[id])
            && (id in Ids(sub) && id !in IdsFrom(s, i + 1) ==>
                  && id in ViewsFrom(s, i, da) && id in Views(sub, da + gap)
                  && ViewsFrom(s, i, da)[id] == Views(sub, da + gap)[id])
  {
    hide Rows, Views, Ids, IdsFrom;
    var sub, gap := s.subs[i], GapSize(s, i);
    ViewKeys(sub, da + gap);
    ViewFromKeys(s, i + 1, da + gap + Rows(sub));
  }

  lemma {:induction false} SliceFrom(s: Seg, i: nat, da: int, ra: int, n: Seg)
      returns (pre: seq<Section>, post: seq<Section>, ra2: int)
    requires WellFormed(s) && i <= |s.subs| && s.id !in IdsFrom(s, i) && DistinctFrom(s, i) && WithinFrom(n, s, i)
    ensures WellFormed(n) && n.id in ViewsFrom(s, i, da) && ViewsFrom(s, i, da)[n.id].size == Rows(n)
    ensures TableFrom(s, i, da, ra) == pre + Table(n, ViewsFrom(s, i, da)[n.id].lo, ra2) + post
    ensures OwnedByNone(pre, Ids(n)) && OwnedByNone(post, Ids(n))
    ensures Tiles(pre, da, ViewsFrom(s, i, da)[n.id].lo)
    ensures Tiles(post, ViewsFrom(s, i, da)[n.id].lo + Rows(n), da + RowsFrom(s, i))
    ensures s.subs != []
    ensures forall raw {:trigger RawFitsFrom(s, i, raw)} ::
              RawFitsFrom(s, i, raw) && RawOf(raw, s.id) + (Start(s, i) - s.base) == ra ==> RawOf(raw, n.id) == ra2
    decreases s, |s.subs| - i
  {
    hide RawOf, RawFits, WellFormed, Table, TableFrom, Rows, RowsFrom, Ids, Distinct, Within, Views;
    hide ViewsFrom, Tiles, End, Gap, Start;
    At(s, i);
    TableStep(s, i, da, ra);
    var sub, gap := s.subs[i], GapSize(s, i);
    var da2, raTail := da + gap + Rows(sub), ra + gap + sub.trace;
    var own, inner := Gap(s, Start(s, i), sub.at, da, ra), Table(sub, da + gap, ra + gap);
    var rest := TableFrom(s, i + 1, da2, raTail);
    var hi := da + RowsFrom(s, i);
    ViewOf(s, i, da, n.id);
    GapOwned(s, Start(s, i), sub.at, da, ra);
    OwnId(n);
    PartsTile(s, i, da, ra);
    if Within(n, sub) {
      IdsWithin(n, sub);
      pre, post, ra2 := Slice(sub, da + gap, ra + gap, n);
      TableFromOwned(s, i + 1, da2, raTail);
      var v := Views(sub, da + gap)[n.id];
      TilesJoin(own, pre, da, da + gap, v.lo);
      TilesJoin(post, rest, v.lo + Rows(n), da2, hi);
      pre, post := own + pre, post + rest;
    } else {
      IdsWithinFrom(n, s, i + 1);
      pre, post, ra2 := SliceFrom(s, i + 1, da2, raTail, n);
      TableOwned(sub, da + gap, ra + gap);
      TilesJoin(own + inner, pre, da, da2, ViewsFrom(s, i + 1, da2)[n.id].lo);
      pre := own + inner + pre;
    }
  }

  /** Every segment's rows are exactly its recorded view interval: the sections on those rows,
      and no others, belong to it or to its subsegments, and they fill the interval. */
  lemma ViewsAreRows(s: Seg, da: int, ra: int, n: Seg)
    requires WellFormed(s) && Distinct(s) && Within(n, s)
    ensures n.id in Views(s, da)
    ensures var v, ss := Views(s, da)[n.id], Table(s, da, ra);
            && v.size == Rows(n)
            && da <= v.lo <= v.lo + v.size <= da + Rows(s)
            && (forall k :: 0 <= k < |ss| ==>
                  && (ss[k].seg in Ids(n) <==> v.lo <= ss[k].da < v.lo + v.size)
                  && (ss[k].seg in Ids(n) ==> ss[k].da + ss[k].size <= v.lo + v.size))
            && (forall row :: v.lo <= row < v.lo + v.size ==> CoveredBy(ss, row, Ids(n)))
  {
    hide WellFormed, Distinct, Within, Table, Rows, Views, Ids, Tiles;
    var pre, post, ra2 := Slice(s, da, ra, n);
    var v, ss := Views(s, da)[n.id], Table(s, da, ra);
    var mid := Table(n, v.lo, ra2);
    TableTiles(s, da, ra);
    TilesPositive(ss, da, da + Rows(s));
    TableTiles(n, v.lo, ra2);
    TableOwned(n, v.lo, ra2);
    TilesWithin(pre, da, v.lo);
    TilesWithin(mid, v.lo, v.lo + v.size);
    TilesWithin(post, v.lo + v.size, da + Rows(s));
    forall row | v.lo <= row < v.lo + v.size ensures CoveredBy(ss, row, Ids(n)) {
      var k := Covering(mid, v.lo, v.lo + v.size, row);
      assert ss[|pre| + k] == mid[k];
    }
  }

  ghost predicate CoveredBy(ss: seq<Section>, row: int, ids: set<SegId>) {
    exists k :: 0 <= k < |ss| && Covers(ss[k], row) && ss[k].seg in ids
  }

  /** Some section of a tiling covers the row. */
  lemma {:induction false} Covering(ss: seq<Section>, lo: int, hi: int, row: int) returns (k: nat)
    requires Tiles(ss, lo, hi) && lo <= row < hi
    ensures k < |ss| && Covers(ss[k], row)
  {
    TilesTail(ss, lo, hi);
    if row < lo + ss[0].size {
      k := 0;
    } else {
      k := Covering(ss[1..], lo + ss[0].size, hi, row);
      k := k + 1;
    }
  }

  lemma TilesPositive(ss: seq<Section>, lo: int, hi: int)
    requires Tiles(ss, lo, hi)
    ensures forall k :: 0 <= k < |ss| ==> ss[k].size > 0
  {}

  // ------------------------------------------------------------------ rows and virtual addresses

  /** The size as an unsigned address: -1 becomes the largest one. */
  function Reach(n: Seg): int {
    if n.size < 0 then ADDR_LIMIT + n.size else n.size
  }

  /** `GetVirtualAddr` in the section that covers the row: none if the offset exceeds the
      segment's size. */
  function VirtualAddr(n: Seg, x: Section, row: int): Option<int> {
    var off := row - x.da + x.off;
    if Reach(n) < off then None else Some(n.base + off)
  }

  /** `viewOffsAt`: the view's first row, the distance from the base, and the own oversize of
      the direct subsegments that start below the address. */
  function ViewOffsAt(n: Seg, lo: int, va: int): int {
    lo + (va - n.base) + OverBelow(n, 0, va)
  }

  function OverBelow(n: Seg, i: nat, va: int): nat
    requires i <= |n.subs|
    decreases |n.subs| - i
  {
    if i == |n.subs| || n.subs[i].at >= va then 0
    else Over0(n.subs[i]) + OverBelow(n, i + 1, va)
  }

  /** On a terminal segment the two directions are inverse on all rows of its view, except that
      rows beyond its size have no address. */
  lemma TerminalRowsAndAddresses(s: Seg, da: int, ra: int, n: Seg, k: nat, row: int)
    requires WellFormed(s) && Distinct(s) && Within(n, s) && n.subs == []
    requires k < |Table(s, da, ra)| && Covers(Table(s, da, ra)[k], row)
    ensures n.id in Views(s, da)
    ensures var v, x := Views(s, da)[n.id], Table(s, da, ra)[k];
            && (v.lo <= row < v.lo + v.size <==> x.seg == n.id)
            && (x.seg == n.id ==>
                  var va := n.base + (row - v.lo);
                  && ViewOffsAt(n, v.lo, va) == row
                  && VirtualAddr(n, x, row) == if row - v.lo <= Reach(n) then Some(va) else None)
  {
    hide WellFormed, Distinct, Within, Table, Rows, Views, Tiles;
    var pre, post, ra2 := Slice(s, da, ra, n);
    var ss, mid := Table(s, da, ra), Table(n, Views(s, da)[n.id].lo, ra2);
    var v := Views(s, da)[n.id];
    LeafOffsets(n, v.lo, ra2);
    TilesWithin(pre, da, v.lo);
    TilesWithin(mid, v.lo, v.lo + v.size);
    TilesWithin(post, v.lo + v.size, da + Rows(s));
    OwnId(n);
    if |pre| <= k < |pre| + |mid| { assert ss[k] == mid[k - |pre|]; }
  }

  lemma LeafOffsets(n: Seg, lo: int, ra: int)
    requires WellFormed(n) && n.subs == []
    ensures Tiles(Table(n, lo, ra), lo, lo + Rows(n))
    ensures forall x :: x in Table(n, lo, ra) ==> x.seg == n.id && x.off == x.da - lo
  {
    hide Tiles;
    TableTiles(n, lo, ra);
  }

  /** Rows by which the first `i` subsegments exceed their traces. */
  function Grown(s: Seg, i: nat): int
    requires i <= |s.subs|
  {
    if i == 0 then 0 else Grown(s, i - 1) + Rows(s.subs[i - 1]) - s.subs[i - 1].trace
  }

  /** The end of the `i`-th gap. */
  function GapEnd(s: Seg, i: nat): int
    requires i <= |s.subs|
  {
    if i == |s.subs| then s.base + s.trace else s.subs[i].at
  }

  /** The row that shows an address in the `i`-th gap. */
  function GapRow(s: Seg, i: nat, lo: int, va: int): int
    requires i <= |s.subs|
  {
    lo + (va - s.base) + Grown(s, i)
  }

  lemma {:induction false} GapIsSection(s: Seg, j: nat, i: nat, lo: int, ra: int) returns (k: nat)
    requires WellFormed(s) && j <= i <= |s.subs| && Start(s, i) < GapEnd(s, i)
    ensures var ss := TableFrom(s, j, lo + (Start(s, j) - s.base) + Grown(s, j), ra);
            && k < |ss|
            && ss[k].da == lo + (Start(s, i) - s.base) + Grown(s, i)
            && ss[k].size == GapEnd(s, i) - Start(s, i)
            && ss[k].off == Start(s, i) - s.base && ss[k].seg == s.id
    decreases i - j
  {
    hide WellFormed, Table, Rows, TableFrom;
    At(s, j);
    var da := lo + (Start(s, j) - s.base) + Grown(s, j);
    if j < |s.subs| {
      TableStep(s, j, da, ra);
    } else {
      LastGap(s, da, ra);
    }
    if j == i {
      k := 0;
    } else {
      var sub, gap := s.subs[j], GapSize(s, j);
      k := GapIsSection(s, j + 1, i, lo, ra + gap + sub.trace);
      var before := Gap(s, Start(s, j), sub.at, da, ra) + Table(sub, da + gap, ra + gap);
      k := |before| + k;
    }
  }

  /** The row of a raw offset in a gap. */
  lemma {:induction false} RowOfGap(s: Seg, j: nat, i: nat, lo: int, va: int)
    requires WellFormed(s) && j <= i <= |s.subs| && Start(s, i) <= va < GapEnd(s, i)
    ensures RowFrom(s, j, va - s.base, lo + (Start(s, j) - s.base) + Grown(s, j)) == GapRow(s, i, lo, va)
    decreases i - j
  {
    hide WellFormed, Rows;
    At(s, j);
    if j < i {
      StartKept(s, j + 1, i);
      RowOfGap(s, j + 1, i, lo, va);
    }
  }

  lemma StartKept(s: Seg, j: nat, i: nat)
    requires WellFormed(s) && j <= i <= |s.subs|
    ensures Start(s, j) <= Start(s, i)
  {
    StartRises(s, j, i);
  }

  lemma LastGap(s: Seg, da: int, ra: int)
    ensures TableFrom(s, |s.subs|, da, ra) == Gap(s, Start(s, |s.subs|), s.base + s.trace, da, ra)
  {}

  /** `viewOffsAt` counts all rows that the subsegment has beyond its trace: there is no open
      terminal segment in it, no nested oversize, and its own counts only if it starts below the
      address. */
  ghost predicate GrowthSeen(sub: Seg, va: int) {
    Definite(sub, sub.trace) && OverFrom(sub, 0) == 0 && (sub.at < va || Over0(sub) == 0)
  }

  /** What the direct subsegments' own oversize leaves out of the rows before the `i`-th gap. */
  lemma {:induction false} GrownIs(s: Seg, i: nat, va: int)
    requires WellFormed(s) && Bounded(s) && i <= |s.subs| && Start(s, i) <= va
    ensures OverUpTo(s, i, va) <= Grown(s, i)
    ensures OverUpTo(s, i, va) == Grown(s, i) <==> forall j :: 0 <= j < i ==> GrowthSeen(s.subs[j], va)
  {
    hide WellFormed, Rows, Definite, OverFrom;
    if i > 0 {
      var sub := s.subs[i - 1];
      At(s, i - 1);
      assert Bounded(sub);
      RowsClosedForm(sub, sub.trace);
      MissedIffOpen(sub, sub.trace);
      OverSplits(sub);
      GrownIs(s, i - 1, va);
    }
  }

  lemma OverSplits(s: Seg)
    ensures Over(s) == OverFrom(s, 0) + Over0(s)
  {}

  /** Own oversize of those among the first `i` subsegments that start below the address. */
  function OverUpTo(s: Seg, i: nat, va: int): nat
    requires i <= |s.subs|
  {
    if i == 0 then 0 else OverUpTo(s, i - 1, va) + if s.subs[i - 1].at < va then Over0(s.subs[i - 1]) else 0
  }

  lemma {:induction false} OverBelowIs(s: Seg, j: nat, i: nat, va: int)
    requires WellFormed(s) && j <= i <= |s.subs| && Start(s, i) <= va < GapEnd(s, i)
    ensures OverUpTo(s, j, va) + OverBelow(s, j, va) == OverUpTo(s, i, va)
    decreases i - j
  {
    hide WellFormed;
    if j < i {
      if s.subs[j].at >= va {
        NoneBelow(s, j, i, va);
      } else {
        OverBelowIs(s, j + 1, i, va);
      }
    }
  }

  lemma {:induction false} NoneBelow(s: Seg, j: nat, i: nat, va: int)
    requires WellFormed(s) && j < i <= |s.subs| && s.subs[j].at >= va
    ensures OverUpTo(s, j, va) == OverUpTo(s, i, va)
  {
    hide WellFormed;
    if j + 1 < i {
      At(s, j);
      StartRises(s, j + 1, i - 1);
      At(s, i - 1);
      NoneBelow(s, j, i - 1, va);
    }
  }

  /** An address between subsegments is shown on its row. */
  lemma GapIsShown(s: Seg, i: nat, lo: int, ra: int, va: int)
    requires WellFormed(s) && s.subs != [] && i <= |s.subs| && Start(s, i) <= va < GapEnd(s, i)
    ensures ShownAt(s, Table(s, lo, ra), GapRow(s, i, lo, va), va)
  {
    hide WellFormed, Table;
    var k := GapIsSection(s, 0, i, lo, ra);
    TableSplits(s, lo, ra);
  }

  /** On a segment with subsegments an address between them is shown on the row of the gap, and
      `viewOffsAt` finds that row exactly if it counts what every earlier subsegment has grown by:
      none holds an open terminal segment or nested oversize, or starts oversized at the address
      itself. */
  lemma GapRowsAndAddresses(s: Seg, i: nat, lo: int, ra: int, va: int)
    requires WellFormed(s) && Bounded(s) && s.subs != [] && i <= |s.subs|
    requires Start(s, i) <= va < GapEnd(s, i)
    ensures ShownAt(s, Table(s, lo, ra), GapRow(s, i, lo, va), va)
    ensures ViewOffsAt(s, lo, va) == GapRow(s, i, lo, va) <==> forall j :: 0 <= j < i ==> GrowthSeen(s.subs[j], va)
  {
    hide WellFormed, Bounded, GrowthSeen, Table, ShownAt;
    GapIsShown(s, i, lo, ra, va);
    OverBelowIs(s, 0, i, va);
    GrownIs(s, i, va);
  }

  /** The row lies in a section of the segment that maps it to the address, unless that exceeds
      the segment's size. */
  ghost predicate ShownAt(s: Seg, ss: seq<Section>, row: int, va: int) {
    exists k :: 0 <= k < |ss| && Covers(ss[k], row) && ss[k].seg == s.id
                && VirtualAddr(s, ss[k], row) == if va - s.base <= Reach(s) then Some(va) else None
  }

  /** Two ways to be missed: an open segment before the address, and a segment larger than its
      trace that is nested in the one before. */
  lemma GrowthHidden(open: bool)
    ensures var sub := if open then Seg(1, 0, 0, -1, 0, []) else Seg(1, 0, 0, 8, 8, [Seg(2, 0, 0, 6, 4, [])]);
            var s := Seg(0, 0, 0, 16, 16, [sub]);
            && WellFormed(s) && Bounded(s)
            && ShownAt(s, Table(s, 0, 0), GapRow(s, 1, 0, 12), 12) && ViewOffsAt(s, 0, 12) != GapRow(s, 1, 0, 12)
  {
    var inner := Seg(2, 0, 0, 6, 4, []);
    var sub := if open then Seg(1, 0, 0, -1, 0, []) else Seg(1, 0, 0, 8, 8, [inner]);
    var s := Seg(0, 0, 0, 16, 16, [sub]);
    assert WellFormed(inner) && Start(sub, 0) == 0 && (!open ==> Start(sub, 1) == 4 && sub.subs[0] == inner);
    assert WellFormed(sub) && Bounded(sub);
    WithSubAtStart(sub, s);
    assert !GrowthSeen(sub, 12) by {
      if open {
        assert !Definite(sub, 0);
      } else {
        assert OverFrom(sub, 1) == 0 && Over0(inner) == 2 && OverFrom(inner, 0) == 0;
        assert OverFrom(sub, 0) == 2;
      }
    }
    hide WellFormed, Bounded, GrowthSeen, Table, ViewOffsAt, ShownAt;
    GapRowsAndAddresses(s, 1, 0, 0, 12);
  }
}
