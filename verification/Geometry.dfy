/** The geometry of the address space: a tree of segments is laid out on display rows, and the
    section table that results maps rows to raw offsets and addresses. */
module Geometry {
  import opened Wrappers

  type SegId = nat

  /** A segment: `at` is its place in its parent's addresses, `trace` the part of the parent it
      shows, `size` its own size (-1 is open). */
  datatype Seg = Seg(id: SegId, base: int, at: int, size: int, trace: nat, subs: seq<Seg>)

  /** A run of rows: raw-backed if `ra` is known; `off` is its offset in the segment. */
  datatype Section = Section(da: int, size: int, ra: Option<int>, off: int, seg: SegId)

  datatype View = View(lo: int, size: int)

  const ROW_LIMIT: nat := 0x1_0000_0000_0000_0000
  const SIZE_LIMIT: nat := 0x8000_0000

  /** Where the `i`-th gap between the subsegments starts. */
  function Start(s: Seg, i: nat): int
    requires i <= |s.subs|
  {
    if i == 0 then s.base else s.subs[i - 1].at + s.subs[i - 1].trace
  }

  /** Subsegments in order, disjoint, and inside the parent's trace. */
  ghost predicate WellFormed(s: Seg) {
    && -1 <= s.size < SIZE_LIMIT && s.trace < SIZE_LIMIT
    && (forall i :: 0 <= i < |s.subs| ==> WellFormed(s.subs[i]))
    && (forall i {:trigger Start(s, i)} :: 0 <= i < |s.subs| ==> Start(s, i) <= s.subs[i].at)
    && Start(s, |s.subs|) <= s.base + s.trace
  }

  lemma {:induction false} StartRises(s: Seg, i: nat, j: nat)
    requires WellFormed(s) && i <= j <= |s.subs|
    ensures Start(s, i) <= Start(s, j)
  {
    if i < j { StartRises(s, i, j - 1); }
  }

  /** What is known at the `i`-th gap, and of the subsegment behind it. */
  lemma At(s: Seg, i: nat)
    requires WellFormed(s) && i <= |s.subs|
    ensures -1 <= s.size && s.base <= Start(s, i) <= s.base + s.trace
    ensures i < |s.subs| ==>
              var sub := s.subs[i];
              && WellFormed(sub) && Start(s, i) <= sub.at
              && Start(s, i + 1) == sub.at + sub.trace <= s.base + s.trace
  {
    StartRises(s, 0, i);
    StartRises(s, i, |s.subs|);
    if i < |s.subs| { StartRises(s, i + 1, |s.subs|); }
  }

  function Min(a: int, b: int): int { if a < b then a else b }

  function Max(a: int, b: int): int { if a < b then b else a }

  /** A size as an unsigned row count: -1 becomes the largest one. */
  function Shown(s: Seg): int {
    if s.size < 0 then ROW_LIMIT + s.size else s.size
  }

  // ------------------------------------------------------------------ the table

  function Gap(s: Seg, lo: int, hi: int, da: int, ra: int): seq<Section> {
    if lo < hi then [Section(da, hi - lo, Some(ra), lo - s.base, s.id)] else []
  }

  /** A segment without subsegments: first the rows its trace and its size share, then the rest
      of the longer one; the rest of the size has no raw bytes. */
  function Leaf(s: Seg, da: int, ra: int): seq<Section> {
    var lower, upper := Min(s.trace, Shown(s)), Max(s.trace, Shown(s));
    (if lower > 0 then [Section(da, lower, Some(ra), 0, s.id)] else [])
    + (if upper > lower
       then [Section(da + lower, upper - lower, if s.trace == upper then Some(ra + lower) else None, lower, s.id)]
       else [])
  }

  /** Rows a segment takes. */
  function Rows(s: Seg): int
    decreases s, |s.subs| + 1
  {
    if s.subs == [] then Max(s.trace, Shown(s)) else RowsFrom(s, 0)
  }

  /** Rows from the `i`-th gap on. */
  function RowsFrom(s: Seg, i: nat): int
    requires i <= |s.subs|
    decreases s, |s.subs| - i
  {
    if i == |s.subs| then s.base + s.trace - Start(s, i)
    else s.subs[i].at - Start(s, i) + Rows(s.subs[i]) + RowsFrom(s, i + 1)
  }

  function Table(s: Seg, da: int, ra: int): seq<Section>
    decreases s, |s.subs| + 1
  {
    if s.subs == [] then Leaf(s, da, ra) else TableFrom(s, 0, da, ra)
  }

  function TableFrom(s: Seg, i: nat, da: int, ra: int): seq<Section>
    requires i <= |s.subs|
    decreases s, |s.subs| - i
  {
    var lo := Start(s, i);
    if i == |s.subs| then Gap(s, lo, s.base + s.trace, da, ra)
    else
      var sub := s.subs[i];
      var gap := sub.at - lo;
      Gap(s, lo, sub.at, da, ra)
      + Table(sub, da + gap, ra + gap)
      + TableFrom(s, i + 1, da + gap + Rows(sub), ra + gap + sub.trace)
  }

  /** The view interval every segment of the tree is given. */
  function Views(s: Seg, da: int): (m: map<SegId, View>)
    decreases s, |s.subs| + 1
  {
    ViewsFrom(s, 0, da)[s.id := View(da, Rows(s))]
  }

  function ViewsFrom(s: Seg, i: nat, da: int): map<SegId, View>
    requires i <= |s.subs|
    decreases s, |s.subs| - i
  {
    if i == |s.subs| then map[]
    else
      var sub := s.subs[i];
      var gap := sub.at - Start(s, i);
      Views(sub, da + gap) + ViewsFrom(s, i + 1, da + gap + Rows(sub))
  }

  /** Rows of the gap before the `i`-th subsegment. */
  function GapSize(s: Seg, i: nat): int
    requires i < |s.subs|
  {
    s.subs[i].at - Start(s, i)
  }

  /** The table at the `i`-th gap: the gap, the subsegment's own table, and the rest. */
  lemma TableStep(s: Seg, i: nat, da: int, ra: int)
    requires WellFormed(s) && i < |s.subs|
    ensures var sub, gap := s.subs[i], GapSize(s, i);
            && WellFormed(sub) && s.base <= Start(s, i) <= sub.at
            && RowsFrom(s, i) == gap + Rows(sub) + RowsFrom(s, i + 1)
            && TableFrom(s, i, da, ra)
               == Gap(s, Start(s, i), sub.at, da, ra) + Table(sub, da + gap, ra + gap)
                  + TableFrom(s, i + 1, da + gap + Rows(sub), ra + gap + sub.trace)
  {
    hide WellFormed, Table, Rows, Gap, Start;
    At(s, i);
  }

  // ------------------------------------------------------------------ rows are tiled

  function End(ss: seq<Section>, lo: int): int {
    if ss == [] then lo else ss[|ss| - 1].da + ss[|ss| - 1].size
  }

  /** Sections of positive size, one after the other, from `lo` to `hi`. */
  ghost predicate Tiles(ss: seq<Section>, lo: int, hi: int) {
    && hi == End(ss, lo)
    && forall k :: 0 <= k < |ss| ==> ss[k].size > 0 && ss[k].da == End(ss[..k], lo)
  }

  lemma TilesJoin(a: seq<Section>, b: seq<Section>, lo: int, mid: int, hi: int)
    requires Tiles(a, lo, mid) && Tiles(b, mid, hi)
    ensures Tiles(a + b, lo, hi)
  {
    var c := a + b;
    forall k | 0 <= k < |c| ensures c[k].size > 0 && c[k].da == End(c[..k], lo) {
      if k < |a| {
        assert c[..k] == a[..k];
      } else {
        assert c[..k] == a + b[..k - |a|];
        assert c[k].da == End(b[..k - |a|], mid);
      }
    }
    if b == [] { assert c == a; }
  }

  lemma PieceTiles(x: Section, n: int)
    requires x.size == n >= 0
    ensures Tiles(if n > 0 then [x] else [], x.da, x.da + n)
  {}

  lemma LeafTiles(s: Seg, da: int, ra: int)
    requires WellFormed(s) && s.subs == []
    ensures Tiles(Leaf(s, da, ra), da, da + Rows(s))
  {
    hide Tiles, WellFormed, Shown;
    LeafShown(s);
    var lower, upper := Min(s.trace, Shown(s)), Max(s.trace, Shown(s));
    var x := Section(da, lower, Some(ra), 0, s.id);
    var y := Section(da + lower, upper - lower, if s.trace == upper then Some(ra + lower) else None, lower, s.id);
    PieceTiles(x, lower);
    PieceTiles(y, upper - lower);
    TilesJoin(if lower > 0 then [x] else [], if upper > lower then [y] else [], da, da + lower, da + upper);
  }

  lemma LeafShown(s: Seg)
    requires WellFormed(s)
    ensures 0 <= s.trace && 0 <= Shown(s)
  {}

  /** The sections tile the rows. */
  lemma {:induction false} TableTiles(s: Seg, da: int, ra: int)
    requires WellFormed(s)
    ensures Tiles(Table(s, da, ra), da, da + Rows(s))
    decreases s, |s.subs| + 1
  {
    hide WellFormed, Tiles, Leaf, TableFrom, RowsFrom;
    if s.subs == [] {
      LeafTiles(s, da, ra);
    } else {
      TableFromTiles(s, 0, da, ra);
    }
  }

  lemma {:induction false} TableFromTiles(s: Seg, i: nat, da: int, ra: int)
    requires WellFormed(s) && i <= |s.subs|
    ensures Tiles(TableFrom(s, i, da, ra), da, da + RowsFrom(s, i))
    decreases s, |s.subs| - i
  {
    hide WellFormed, Tiles, End, Gap, Table, Rows;
    At(s, i);
    if i < |s.subs| {
      hide TableFrom, RowsFrom;
      var sub, gap := s.subs[i], GapSize(s, i);
      TableTiles(sub, da + gap, ra + gap);
      TableFromTiles(s, i + 1, da + gap + Rows(sub), ra + gap + sub.trace);
      TableStep(s, i, da, ra);
      var own, inner := Gap(s, Start(s, i), sub.at, da, ra), Table(sub, da + gap, ra + gap);
      GapTiles(s, Start(s, i), sub.at, da, ra);
      TilesJoin(own, inner, da, da + gap, da + gap + Rows(sub));
      TilesJoin(own + inner, TableFrom(s, i + 1, da + gap + Rows(sub), ra + gap + sub.trace),
                da, da + gap + Rows(sub), da + RowsFrom(s, i));
    } else {
      GapTiles(s, Start(s, i), s.base + s.trace, da, ra);
    }
  }

  lemma GapTiles(s: Seg, lo: int, hi: int, da: int, ra: int)
    requires lo <= hi
    ensures Tiles(Gap(s, lo, hi, da, ra), da, da + (hi - lo))
  {}

  /** The pieces at a subsegment tile one after the other. */
  lemma PartsTile(s: Seg, i: nat, da: int, ra: int)
    requires WellFormed(s) && i < |s.subs|
    ensures WellFormed(s.subs[i]) && s.base <= Start(s, i) <= s.subs[i].at
    ensures var sub, gap := s.subs[i], GapSize(s, i);
            && Tiles(Gap(s, Start(s, i), sub.at, da, ra), da, da + gap)
            && Tiles(Table(sub, da + gap, ra + gap), da + gap, da + gap + Rows(sub))
            && Tiles(Gap(s, Start(s, i), sub.at, da, ra) + Table(sub, da + gap, ra + gap), da, da + gap + Rows(sub))
            && Tiles(TableFrom(s, i + 1, da + gap + Rows(sub), ra + gap + sub.trace),
                     da + gap + Rows(sub), da + RowsFrom(s, i))
  {
    hide WellFormed, Tiles, Table, TableFrom, Rows, RowsFrom, Gap, End;
    At(s, i);
    TableStep(s, i, da, ra);
    var sub, gap := s.subs[i], GapSize(s, i);
    TableTiles(sub, da + gap, ra + gap);
    TableFromTiles(s, i + 1, da + gap + Rows(sub), ra + gap + sub.trace);
    GapTiles(s, Start(s, i), sub.at, da, ra);
    TilesJoin(Gap(s, Start(s, i), sub.at, da, ra), Table(sub, da + gap, ra + gap), da, da + gap, da + gap + Rows(sub));
  }

  /** Later sections lie behind earlier ones. */
  lemma {:induction false} TilesOrdered(ss: seq<Section>, lo: int, hi: int, j: nat, k: nat)
    requires Tiles(ss, lo, hi) && j < k < |ss|
    ensures ss[j].da + ss[j].size <= ss[k].da
  {
    assert ss[k].da == End(ss[..k], lo) == ss[k - 1].da + ss[k - 1].size;
    if j < k - 1 { TilesOrdered(ss, lo, hi, j, k - 1); }
  }

  lemma TilesWithin(ss: seq<Section>, lo: int, hi: int)
    requires Tiles(ss, lo, hi)
    ensures lo <= hi
    ensures forall k :: 0 <= k < |ss| ==> lo <= ss[k].da && ss[k].da + ss[k].size <= hi
  {
    forall k | 0 <= k < |ss| ensures lo <= ss[k].da && ss[k].da + ss[k].size <= hi {
      assert ss[0].da == End(ss[..0], lo) == lo;
      if k > 0 { TilesOrdered(ss, lo, hi, 0, k); }
      if k < |ss| - 1 { TilesOrdered(ss, lo, hi, k, |ss| - 1); }
    }
    if ss != [] { assert lo <= ss[|ss| - 1].da; }
  }

  lemma TilesTail(ss: seq<Section>, lo: int, hi: int)
    requires Tiles(ss, lo, hi) && ss != []
    ensures ss[0].da == lo && Tiles(ss[1..], lo + ss[0].size, hi)
  {
    var t := ss[1..];
    assert ss[0].da == End(ss[..0], lo);
    forall k | 0 <= k < |t| ensures t[k].size > 0 && t[k].da == End(t[..k], lo + ss[0].size) {
      assert ss[k + 1].da == End(ss[..k + 1], lo);
    }
  }

  // ------------------------------------------------------------------ raw offsets of rows

  predicate Covers(x: Section, da: int) { x.da <= da < x.da + x.size }

  /** Raw offset of a row, by the section that covers it. */
  function RawAt(ss: seq<Section>, row: int): Option<int> {
    if ss == [] then None
    else if Covers(ss[0], row) then
      if ss[0].ra.Some? then Some(ss[0].ra.value + (row - ss[0].da)) else None
    else RawAt(ss[1..], row)
  }

  /** The raw-backed sections, in row order, tile the raw offsets from `lo` to `hi`. */
  ghost predicate RawTiles(ss: seq<Section>, lo: int, hi: int) {
    if ss == [] then lo == hi
    else if ss[0].ra.None? then RawTiles(ss[1..], lo, hi)
    else ss[0].ra.value == lo && RawTiles(ss[1..], lo + ss[0].size, hi)
  }

  lemma {:induction false} RawTilesJoin(a: seq<Section>, b: seq<Section>, lo: int, mid: int, hi: int)
    requires RawTiles(a, lo, mid) && RawTiles(b, mid, hi)
    ensures RawTiles(a + b, lo, hi)
  {
    if a == [] {
      assert a + b == b;
    } else {
      assert (a + b)[1..] == a[1..] + b;
      RawTilesJoin(a[1..], b, if a[0].ra.None? then lo else lo + a[0].size, mid, hi);
    }
  }

  lemma LeafRawTiles(s: Seg, da: int, ra: int)
    requires WellFormed(s) && s.subs == []
    ensures RawTiles(Leaf(s, da, ra), ra, ra + s.trace)
  {
    hide WellFormed;
    At(s, 0);
    var ss := Leaf(s, da, ra);
    var lower := Min(s.trace, Shown(s));
    var n := if lower > 0 then 1 else 0;
    RawTilesJoin(ss[..n], ss[n..], ra, ra + lower, ra + s.trace);
    assert ss[..n] + ss[n..] == ss;
  }

  lemma {:induction false} TableRawTiles(s: Seg, da: int, ra: int)
    requires WellFormed(s)
    ensures RawTiles(Table(s, da, ra), ra, ra + s.trace)
    decreases s, |s.subs| + 1
  {
    hide WellFormed, RawTiles, Leaf, TableFrom;
    if s.subs == [] {
      LeafRawTiles(s, da, ra);
    } else {
      At(s, 0);
      TableFromRawTiles(s, 0, da, ra);
    }
  }

  lemma {:induction false} TableFromRawTiles(s: Seg, i: nat, da: int, ra: int)
    requires WellFormed(s) && i <= |s.subs|
    ensures Start(s, i) <= s.base + s.trace
    ensures RawTiles(TableFrom(s, i, da, ra), ra, ra + (s.base + s.trace - Start(s, i)))
    decreases s, |s.subs| - i
  {
    hide WellFormed, RawTiles, Gap, Table, Rows;
    At(s, i);
    if i < |s.subs| {
      hide TableFrom, RowsFrom;
      var sub, gap := s.subs[i], GapSize(s, i);
      TableRawTiles(sub, da + gap, ra + gap);
      TableFromRawTiles(s, i + 1, da + gap + Rows(sub), ra + gap + sub.trace);
      TableStep(s, i, da, ra);
      var own, inner := Gap(s, Start(s, i), sub.at, da, ra), Table(sub, da + gap, ra + gap);
      GapRawTiles(s, Start(s, i), sub.at, da, ra);
      RawTilesJoin(own, inner, ra, ra + gap, ra + gap + sub.trace);
      RawTilesJoin(own + inner, TableFrom(s, i + 1, da + gap + Rows(sub), ra + gap + sub.trace),
                   ra, ra + gap + sub.trace, ra + (s.base + s.trace - Start(s, i)));
    } else {
      GapRawTiles(s, Start(s, i), s.base + s.trace, da, ra);
    }
  }

  lemma GapRawTiles(s: Seg, lo: int, hi: int, da: int, ra: int)
    requires lo <= hi
    ensures RawTiles(Gap(s, lo, hi, da, ra), ra, ra + (hi - lo))
  {}

  /** Raw offsets come from the tiled range, and rise with the rows. */
  lemma {:induction false} RawAtRises(ss: seq<Section>, lo: int, hi: int, ra: int, rb: int, row: int)
    requires Tiles(ss, lo, hi) && RawTiles(ss, ra, rb)
    ensures ra <= rb
    ensures RawAt(ss, row).Some? ==> lo <= row < hi && ra <= RawAt(ss, row).value < rb
    ensures forall row2: int :: row < row2 && RawAt(ss, row).Some? && RawAt(ss, row2).Some? ==>
              RawAt(ss, row).value < RawAt(ss, row2).value
  {
    if ss != [] {
      TilesTail(ss, lo, hi);
      TilesWithin(ss, lo, hi);
      var ra2 := if ss[0].ra.None? then ra else ra + ss[0].size;
      RawAtRises(ss[1..], lo + ss[0].size, hi, ra2, rb, row);
      forall row2: int | row < row2 && RawAt(ss, row).Some? && RawAt(ss, row2).Some?
        ensures RawAt(ss, row).value < RawAt(ss, row2).value
      {
        if Covers(ss[0], row) && !Covers(ss[0], row2) {
          RawAtRises(ss[1..], lo + ss[0].size, hi, ra2, rb, row2);
        }
      }
    }
  }

  /** Some row shows the raw offset. */
  ghost predicate Shows(ss: seq<Section>, x: int) {
    exists row: int :: RawAt(ss, row) == Some(x)
  }

  /** Every raw offset of the range is shown on some row. */
  lemma {:induction false} RawReached(ss: seq<Section>, lo: int, hi: int, ra: int, rb: int, x: int)
    requires Tiles(ss, lo, hi) && RawTiles(ss, ra, rb) && ra <= x < rb
    ensures Shows(ss, x)
  {
    if ss != [] {
      TilesTail(ss, lo, hi);
      if ss[0].ra.Some? && x < ra + ss[0].size {
        assert RawAt(ss, ss[0].da + (x - ra)) == Some(x);
      } else {
        var ra2 := if ss[0].ra.None? then ra else ra + ss[0].size;
        RawReached(ss[1..], lo + ss[0].size, hi, ra2, rb, x);
        var row: int :| RawAt(ss[1..], row) == Some(x);
        RawAtRises(ss[1..], lo + ss[0].size, hi, ra2, rb, row);
        assert RawAt(ss, row) == Some(x);
      }
    }
  }

  /** The table of a segment maps the raw-backed rows one to one, in order, onto the raw offsets
      of its trace. */
  lemma RowsToRawBijection(s: Seg, da: int, ra: int)
    requires WellFormed(s)
    ensures var ss := Table(s, da, ra);
            && (forall row: int :: RawAt(ss, row).Some? ==>
                  da <= row < da + Rows(s) && ra <= RawAt(ss, row).value < ra + s.trace)
            && (forall r1: int, r2: int :: r1 < r2 && RawAt(ss, r1).Some? && RawAt(ss, r2).Some? ==>
                  RawAt(ss, r1).value < RawAt(ss, r2).value)
            && (forall x: int :: ra <= x < ra + s.trace ==> Shows(ss, x))
  {
    hide WellFormed, Table, Rows, RawAt, Tiles, RawTiles, Shows;
    var ss := Table(s, da, ra);
    TableTiles(s, da, ra);
    TableRawTiles(s, da, ra);
    forall row: int
      ensures RawAt(ss, row).Some? ==> da <= row < da + Rows(s) && ra <= RawAt(ss, row).value < ra + s.trace {
      RawAtRises(ss, da, da + Rows(s), ra, ra + s.trace, row);
    }
    forall r1: int, r2: int | r1 < r2 && RawAt(ss, r1).Some? && RawAt(ss, r2).Some?
      ensures RawAt(ss, r1).value < RawAt(ss, r2).value
    {
      RawAtRises(ss, da, da + Rows(s), ra, ra + s.trace, r1);
    }
    forall x: int | ra <= x < ra + s.trace ensures Shows(ss, x) {
      RawReached(ss, da, da + Rows(s), ra, ra + s.trace, x);
    }
  }

  // ------------------------------------------------------------------ closed form

  /** Rows by which the size exceeds the trace; an open size counts as none. */
  function Over0(s: Seg): nat {
    if s.size > s.trace then s.size - s.trace else 0
  }

  /** The same, over the whole subtree. */
  function Over(s: Seg): nat
    decreases s, |s.subs| + 1
  {
    OverFrom(s, 0) + Over0(s)
  }

  function OverFrom(s: Seg, i: nat): nat
    requires i <= |s.subs|
    decreases s, |s.subs| - i
  {
    if i == |s.subs| then 0 else Over(s.subs[i]) + OverFrom(s, i + 1)
  }

  /** Rows of a terminal segment of open size that the closed form does not count, less the
      rows of an oversized segment with subsegments, which it counts without need. */
  function Missed0(s: Seg): int
  {
    if s.subs == [] then (if s.size < 0 then Shown(s) - s.trace else 0) else 0 - Over0(s)
  }

  /** The missed rows of the segments that end at or before the raw offset `addr`. */
  function Missed(s: Seg, addr: int): int
    decreases s, |s.subs| + 1
  {
    MissedFrom(s, 0, addr) + if addr >= s.trace then Missed0(s) else 0
  }

  function MissedFrom(s: Seg, i: nat, addr: int): int
    requires i <= |s.subs|
    decreases s, |s.subs| - i
  {
    if i == |s.subs| || s.subs[i].at - s.base > addr then 0
    else Missed(s.subs[i], addr - (s.subs[i].at - s.base)) + MissedFrom(s, i + 1, addr)
  }

  /** Rows are the trace, the closed form's oversize, and what that misses. */
  lemma {:induction false} RowsClosedForm(s: Seg, addr: int)
    requires WellFormed(s) && addr >= s.trace
    ensures Rows(s) == s.trace + Over(s) + Missed(s, addr)
    decreases s, |s.subs| + 1
  {
    if s.subs != [] { RowsFromClosedForm(s, 0, addr); }
  }

  lemma {:induction false} RowsFromClosedForm(s: Seg, i: nat, addr: int)
    requires WellFormed(s) && i <= |s.subs| && addr >= s.trace
    ensures RowsFrom(s, i) == s.base + s.trace - Start(s, i) + OverFrom(s, i) + MissedFrom(s, i, addr)
    decreases s, |s.subs| - i
  {
    if i < |s.subs| {
      At(s, i);
      RowsClosedForm(s.subs[i], addr - (s.subs[i].at - s.base));
      RowsFromClosedForm(s, i + 1, addr);
    }
  }

  /** No segment with subsegments is larger than its trace. */
  ghost predicate Bounded(s: Seg) {
    (s.subs != [] ==> s.size <= s.trace) && forall i :: 0 <= i < |s.subs| ==> Bounded(s.subs[i])
  }

  /** Every terminal segment that ends at or before `addr` has a definite size. */
  ghost predicate Definite(s: Seg, addr: int)
  {
    && (s.subs == [] && addr >= s.trace ==> s.size >= 0)
    && (forall i :: 0 <= i < |s.subs| ==>
          (s.subs[i].at - s.base <= addr ==> Definite(s.subs[i], addr - (s.subs[i].at - s.base))))
  }

  lemma {:induction false} MissedIffOpen(s: Seg, addr: int)
    requires WellFormed(s) && Bounded(s)
    ensures Missed(s, addr) >= 0
    ensures Missed(s, addr) == 0 <==> Definite(s, addr)
    decreases s, |s.subs| + 1
  {
    MissedFromIffOpen(s, 0, addr);
  }

  lemma {:induction false} MissedFromIffOpen(s: Seg, i: nat, addr: int)
    requires WellFormed(s) && Bounded(s) && i <= |s.subs|
    ensures MissedFrom(s, i, addr) >= 0
    ensures MissedFrom(s, i, addr) == 0 <==>
              forall j :: i <= j < |s.subs| ==>
                (s.subs[j].at - s.base <= addr ==> Definite(s.subs[j], addr - (s.subs[j].at - s.base)))
    decreases s, |s.subs| - i
  {
    if i < |s.subs| {
      At(s, i);
      if s.subs[i].at - s.base > addr {
        forall j | i <= j < |s.subs| ensures s.subs[j].at - s.base > addr {
          if i < j { StartRises(s, i + 1, j); }
        }
      } else {
        MissedIffOpen(s.subs[i], addr - (s.subs[i].at - s.base));
        MissedFromIffOpen(s, i + 1, addr);
      }
    }
  }

  /** The view size is trace plus recursive oversize exactly if no terminal segment is open. */
  lemma ViewSizeIff(s: Seg)
    requires WellFormed(s) && Bounded(s)
    ensures Rows(s) == s.trace + Over(s) <==> Definite(s, s.trace)
  {
    RowsClosedForm(s, s.trace);
    MissedIffOpen(s, s.trace);
  }

  // ------------------------------------------------------------------ from raw offset to row

  /** `R2D2`: a walk over the tree that accumulates the row; it names the segment it stops in,
      or, in a gap, the one behind. */
  function Locate(s: Seg, addr: int, da: int): (Option<SegId>, int)
    decreases s, |s.subs| + 1
  {
    LocateFrom(s, 0, addr, da)
  }

  function LocateFrom(s: Seg, i: nat, addr: int, da: int): (Option<SegId>, int)
    requires i <= |s.subs|
    decreases s, |s.subs| - i
  {
    if i == |s.subs| then
      if addr < s.trace then (Some(s.id), da + addr) else (None, da + Over0(s))
    else
      var segOffs := s.subs[i].at - s.base;
      if segOffs > addr then (Some(s.subs[i].id), da + addr)
      else
        var r := Locate(s.subs[i], addr - segOffs, da + segOffs);
        if r.0.Some? then r else LocateFrom(s, i + 1, addr, r.1 - segOffs)
  }

  /** The row that shows a raw offset. */
  function RowOf(s: Seg, addr: int, da: int): int
    decreases s, |s.subs| + 1
  {
    if s.subs == [] then da + addr else RowFrom(s, 0, addr, da)
  }

  function RowFrom(s: Seg, i: nat, addr: int, da: int): int
    requires i <= |s.subs|
    decreases s, |s.subs| - i
  {
    var past := s.base + addr - Start(s, i);
    if i == |s.subs| then da + past
    else
      var sub := s.subs[i];
      var gap := sub.at - Start(s, i);
      if past < gap then da + past
      else if past - gap < sub.trace then RowOf(sub, past - gap, da + gap)
      else RowFrom(s, i + 1, addr, da + gap + Rows(sub))
  }

  lemma {:induction false} RawAtJoin(a: seq<Section>, b: seq<Section>, lo: int, mid: int, hi: int, row: int)
    requires Tiles(a, lo, mid) && Tiles(b, mid, hi)
    ensures a == [] ==> lo == mid
    ensures row < mid ==> RawAt(a + b, row) == RawAt(a, row)
    ensures row >= mid ==> RawAt(a + b, row) == RawAt(b, row)
  {
    TilesWithin(b, mid, hi);
    if a == [] {
      assert a + b == b;
      if row < mid { RawAtNone(b, row); }
    } else {
      TilesTail(a, lo, mid);
      TilesWithin(a, lo, mid);
      assert (a + b)[1..] == a[1..] + b;
      RawAtJoin(a[1..], b, lo + a[0].size, mid, hi, row);
    }
  }

  lemma {:induction false} RawAtNone(ss: seq<Section>, row: int)
    requires forall k :: 0 <= k < |ss| ==> !Covers(ss[k], row)
    ensures RawAt(ss, row) == None
  {
    if ss != [] { RawAtNone(ss[1..], row); }
  }

  /** Where the table looks a row up. */
  lemma RawAtParts(s: Seg, i: nat, da: int, ra: int, row: int)
    requires WellFormed(s) && i < |s.subs|
    ensures var sub, gap := s.subs[i], GapSize(s, i);
            var mid := da + gap + Rows(sub);
            && 0 <= gap && 0 <= Rows(sub) && 0 <= RowsFrom(s, i + 1)
            && RowsFrom(s, i) == gap + Rows(sub) + RowsFrom(s, i + 1)
            && (da <= row < da + gap ==> RawAt(TableFrom(s, i, da, ra), row) == Some(ra + (row - da)))
            && (da + gap <= row < mid ==>
                  RawAt(TableFrom(s, i, da, ra), row) == RawAt(Table(sub, da + gap, ra + gap), row))
            && (row >= mid ==>
                  RawAt(TableFrom(s, i, da, ra), row) == RawAt(TableFrom(s, i + 1, mid, ra + gap + sub.trace), row))
  {
    hide WellFormed, RawAt, Table, TableFrom, Rows, RowsFrom, Tiles, Gap, End;
    At(s, i);
    var sub, gap := s.subs[i], GapSize(s, i);
    var mid, hi := da + gap + Rows(sub), da + RowsFrom(s, i);
    TableStep(s, i, da, ra);
    PartsTile(s, i, da, ra);
    var own, inner := Gap(s, Start(s, i), sub.at, da, ra), Table(sub, da + gap, ra + gap);
    var rest := TableFrom(s, i + 1, mid, ra + gap + sub.trace);
    TilesWithin(inner, da + gap, mid);
    TilesWithin(rest, mid, hi);
    RawAtJoin(own, inner, da, da + gap, mid, row);
    RawAtJoin(own + inner, rest, da, mid, hi, row);
    if da <= row < da + gap { GapShowsRaw(s, Start(s, i), sub.at, da, ra, row - da); }
  }

  lemma LeafShowsRaw(s: Seg, addr: int, da: int, ra: int)
    requires WellFormed(s) && s.subs == [] && 0 <= addr < s.trace
    ensures RawAt(Leaf(s, da, ra), da + addr) == Some(ra + addr)
  {
    hide WellFormed;
    At(s, 0);
    var ss := Leaf(s, da, ra);
    if |ss| == 2 {
      assert ss[1..] == [ss[1]];
      assert RawAt([ss[1]], da + addr) == if Covers(ss[1], da + addr) then RawAt(ss[1..], da + addr) else None;
    }
  }

  /** The table shows the raw offset on that row. */
  lemma {:induction false} RowShowsRaw(s: Seg, addr: int, da: int, ra: int)
    requires WellFormed(s) && 0 <= addr < s.trace
    ensures da <= RowOf(s, addr, da) < da + Rows(s)
    ensures RawAt(Table(s, da, ra), RowOf(s, addr, da)) == Some(ra + addr)
    decreases s, |s.subs| + 1
  {
    At(s, 0);
    hide WellFormed, Leaf, RawAt, TableFrom, RowsFrom, RowFrom;
    if s.subs == [] {
      LeafShowsRaw(s, addr, da, ra);
    } else {
      RowFromShowsRaw(s, 0, addr, da, ra);
    }
  }

  lemma {:induction false} RowFromShowsRaw(s: Seg, i: nat, addr: int, da: int, ra: int)
    requires WellFormed(s) && i <= |s.subs| && Start(s, i) <= s.base + addr < s.base + s.trace
    ensures da <= RowFrom(s, i, addr, da) < da + RowsFrom(s, i)
    ensures RawAt(TableFrom(s, i, da, ra), RowFrom(s, i, addr, da)) == Some(ra + (s.base + addr - Start(s, i)))
    decreases s, |s.subs| - i
  {
    hide WellFormed, RawAt, Gap, Table, Rows;
    At(s, i);
    if i == |s.subs| {
      GapShowsRaw(s, Start(s, i), s.base + s.trace, da, ra, s.base + addr - Start(s, i));
    } else {
      hide TableFrom, RowsFrom, RowOf;
      var past := s.base + addr - Start(s, i);
      var sub, gap := s.subs[i], GapSize(s, i);
      RawAtParts(s, i, da, ra, RowFrom(s, i, addr, da));
      if past < gap {
      } else if past - gap < sub.trace {
        RowShowsRaw(sub, past - gap, da + gap, ra + gap);
      } else {
        RowFromShowsRaw(s, i + 1, addr, da + gap + Rows(sub), ra + gap + sub.trace);
      }
    }
  }

  lemma GapShowsRaw(s: Seg, lo: int, hi: int, da: int, ra: int, past: int)
    requires 0 <= past < hi - lo
    ensures RawAt(Gap(s, lo, hi, da, ra), da + past) == Some(ra + past)
  {}

  /** The walk finds a segment exactly if the offset lies in the trace; its row is then the true
      row less the missed rows, and otherwise it has added the oversize. `seen` are the rows
      missed before. */
  lemma {:induction false} LocateIsRow(s: Seg, addr: int, da: int, seen: int)
    requires WellFormed(s) && 0 <= addr
    ensures var r := Locate(s, addr, da - seen);
            && (r.0.Some? <==> addr < s.trace)
            && (addr < s.trace ==> r.1 == RowOf(s, addr, da) - seen - Missed(s, addr))
            && (addr >= s.trace ==> r.1 == da - seen + Over(s))
    decreases s, |s.subs| + 1
  {
    hide WellFormed, LocateFrom, MissedFrom, OverFrom, Rows;
    LocateFromIsRow(s, 0, addr, da, seen);
  }

  lemma {:induction false} LocateFromIsRow(s: Seg, i: nat, addr: int, da: int, seen: int)
    requires WellFormed(s) && i <= |s.subs| && Start(s, i) <= s.base + addr
    ensures var r := LocateFrom(s, i, addr, da - (Start(s, i) - s.base) - seen);
            && (r.0.Some? <==> addr < s.trace)
            && (addr < s.trace ==> r.1 == RowFrom(s, i, addr, da) - seen - MissedFrom(s, i, addr))
            && (addr >= s.trace ==> r.1 == da - (Start(s, i) - s.base) - seen + OverFrom(s, i) + Over0(s))
    decreases s, |s.subs| - i
  {
    hide WellFormed;
    At(s, i);
    if i < |s.subs| {
      hide Locate, Rows, RowOf, Missed, Over;
      var sub, gap := s.subs[i], GapSize(s, i);
      var past := addr - (sub.at - s.base);
      if 0 <= past {
        LocateIsRow(sub, past, da + gap, seen);
        if past >= sub.trace {
          RowsClosedForm(sub, past);
          LocateFromIsRow(s, i + 1, addr, da + gap + Rows(sub), seen + Missed(sub, past));
        } else {
          NothingMissed(s, i + 1, addr);
        }
      }
    }
  }

  /** Segments behind the offset are not passed. */
  lemma NothingMissed(s: Seg, i: nat, addr: int)
    requires WellFormed(s) && i <= |s.subs| && s.base + addr < Start(s, i)
    ensures MissedFrom(s, i, addr) == 0
  {
    At(s, i);
  }

  /** For every raw offset of a segment the walk's row is the one the table maps back to that
      offset, exactly if no terminal segment that ends before it is open. */
  lemma LocateExactIff(s: Seg, addr: int, da: int, ra: int)
    requires WellFormed(s) && Bounded(s) && 0 <= addr < s.trace
    ensures var r := Locate(s, addr, da);
            && r.0.Some?
            && r.1 <= RowOf(s, addr, da)
            && (RawAt(Table(s, da, ra), r.1) == Some(ra + addr) <==> Definite(s, addr))
  {
    hide WellFormed, Bounded, Locate, RowOf, Missed, Definite, RawAt, Table, Rows, Over;
    LocateIsRow(s, addr, da, 0);
    MissedIffOpen(s, addr);
    RowShowsRaw(s, addr, da, ra);
    RowsToRawBijection(s, da, ra);
  }

  /** A module of 16 bytes with a subsegment at its start. */
  lemma WithSubAtStart(sub: Seg, s: Seg)
    requires WellFormed(sub) && Bounded(sub) && sub.at == 0 && sub.trace <= 16
    requires s == Seg(0, 0, 0, 16, 16, [sub])
    ensures WellFormed(s) && Bounded(s) && Start(s, 0) == 0 && Start(s, 1) == sub.trace
    ensures forall addr :: 0 <= addr && Definite(s, addr) ==> Definite(sub, addr)
  {
    assert s.subs[0] == sub && Start(s, 0) == 0 && Start(s, 1) == sub.trace;
  }

  lemma OpenLeaf(addr: nat)
    ensures var sub := Seg(1, 0, 0, -1, 0, []); WellFormed(sub) && Bounded(sub) && !Definite(sub, addr)
  {
    assert Start(Seg(1, 0, 0, -1, 0, []), 0) == 0;
  }

  /** An open segment, which leaves no trace, at the start of the module: from behind it on the
      closed form and the walk fall short of the rows the table gives it. */
  lemma OpenSegmentMisplaces()
    ensures var s := Seg(0, 0, 0, 16, 16, [Seg(1, 0, 0, -1, 0, [])]);
            && WellFormed(s) && Bounded(s)
            && Rows(s) != s.trace + Over(s)
            && Locate(s, 8, 0).0.Some? && RawAt(Table(s, 0, 0), Locate(s, 8, 0).1) != Some(8)
  {
    hide WellFormed, Bounded, Definite, RawAt, Table, Rows, Over, Locate, RowOf;
    var sub := Seg(1, 0, 0, -1, 0, []);
    var s := Seg(0, 0, 0, 16, 16, [sub]);
    OpenLeaf(8);
    OpenLeaf(16);
    WithSubAtStart(sub, s);
    ViewSizeIff(s);
    LocateExactIff(s, 8, 0, 0);
  }
}
