/** The three coordinates together: for segments created by any run, the section table and the
    walk over the traces agree. */
module Coordinates {
  import opened Wrappers
  import G = Geometry
  import V = SegmentViews
  import S = Segments

  // ------------------------------------------------------------------ the tree of a segment table

  /** The tree of the segments below `x`; `sizes` are the sizes the range sets give them. */
  function Tree(g: S.Segs, sizes: seq<int>, x: nat): G.Seg
    requires x < |g|
    decreases |g| - x, 1, 0
  {
    G.Seg(x, g[x].base, S.AtOf(g, x), if x < |sizes| then sizes[x] else -1,
          if g[x].raw.size < 0 then 0 else g[x].raw.size,
          Trees(g, sizes, x, g[x].subs))
  }

  function Trees(g: S.Segs, sizes: seq<int>, x: nat, subs: seq<nat>): (ts: seq<G.Seg>)
    requires x < |g|
    ensures |ts| <= |subs|
    decreases |g| - x, 0, |subs|
  {
    if subs == [] then []
    else
      var rest := Trees(g, sizes, x, subs[..|subs| - 1]);
      var y := subs[|subs| - 1];
      if x < y < |g| then rest + [Tree(g, sizes, y)] else rest
  }

  lemma {:induction false} TreesAre(g: S.Segs, sizes: seq<int>, x: nat, subs: seq<nat>)
    requires x < |g| && forall i :: 0 <= i < |subs| ==> x < subs[i] < |g|
    ensures |Trees(g, sizes, x, subs)| == |subs|
    ensures forall i :: 0 <= i < |subs| ==> Trees(g, sizes, x, subs)[i] == Tree(g, sizes, subs[i])
  {
    if subs != [] {
      TreesAre(g, sizes, x, subs[..|subs| - 1]);
    }
  }

  /** Traces of neighbouring subsegments do not overlap: the super-segment's fields harbour one
      trace after the other. */
  ghost predicate TracesApart(g: S.Segs) {
    forall x, i :: 0 <= x < |g| && 0 <= i < |g[x].subs| - 1 ==> Apart(g, g[x].subs[i], g[x].subs[i + 1])
  }

  predicate Apart(g: S.Segs, a: nat, b: nat) {
    a < |g| && S.AtOf(g, a) + g[a].raw.size <= S.AtOf(g, b)
  }

  ghost predicate SizesOk(g: S.Segs, sizes: seq<int>) {
    |sizes| == |g| && forall x :: 0 <= x < |g| ==> -1 <= sizes[x] < G.SIZE_LIMIT
  }

  /** What holds of the segments a run has created. */
  ghost predicate Ready(g: S.Segs, sizes: seq<int>, fileSize: nat) {
    S.Inv(g, fileSize) && TracesApart(g) && SizesOk(g, sizes) && fileSize < G.SIZE_LIMIT
  }

  lemma Sub(g: S.Segs, fileSize: nat, x: nat, i: nat)
    requires S.Inv(g, fileSize) && x < |g| && i < |g[x].subs|
    ensures x < g[x].subs[i] < |g|
    ensures var y := g[x].subs[i];
            && S.HangsIn(g, y, x) && S.LinkOk(g, y)
            && g[x].base <= S.AtOf(g, y) && S.AtOf(g, y) + g[y].raw.size <= g[x].base + g[x].raw.size
            && g[y].raw.offs == g[x].raw.offs + (S.AtOf(g, y) - g[x].base)
  {
    assert S.SubsOk(g, x);
    var y := g[x].subs[i];
    assert y in g[x].subs && S.HangsIn(g, y, x);
    assert y > 0;
    assert S.LinkOk(g, y);
  }

  lemma TreeSubs(g: S.Segs, sizes: seq<int>, fileSize: nat, x: nat)
    requires S.Inv(g, fileSize) && x < |g|
    ensures var t := Tree(g, sizes, x);
            && |t.subs| == |g[x].subs|
            && forall i :: 0 <= i < |t.subs| ==> x < g[x].subs[i] < |g| && t.subs[i] == Tree(g, sizes, g[x].subs[i])
  {
    forall i | 0 <= i < |g[x].subs| ensures x < g[x].subs[i] < |g| {
      Sub(g, fileSize, x, i);
    }
    TreesAre(g, sizes, x, g[x].subs);
  }

  /** The tree of created segments is well formed. */
  lemma {:induction false} TreeWellFormed(g: S.Segs, sizes: seq<int>, fileSize: nat, x: nat)
    requires Ready(g, sizes, fileSize) && x < |g|
    ensures G.WellFormed(Tree(g, sizes, x))
    decreases |g| - x
  {
    hide S.Inv, Tree, TracesApart;
    var t := Tree(g, sizes, x);
    S.RawNested(g, fileSize, x);
    TreeSubs(g, sizes, fileSize, x);
    TreeHead(g, sizes, x);
    forall i | 0 <= i < |t.subs| ensures G.WellFormed(t.subs[i]) {
      TreeWellFormed(g, sizes, fileSize, g[x].subs[i]);
    }
    forall i | 0 <= i <= |t.subs|
      ensures i < |t.subs| ==> G.Start(t, i) <= t.subs[i].at
      ensures i == |t.subs| ==> G.Start(t, i) <= t.base + t.trace
    {
      if i < |t.subs| {
        Sub(g, fileSize, x, i);
        TreeHead(g, sizes, g[x].subs[i]);
      }
      if i > 0 {
        Sub(g, fileSize, x, i - 1);
        TreeHead(g, sizes, g[x].subs[i - 1]);
        if i < |t.subs| { NextApart(g, x, i - 1); }
      }
    }
  }

  lemma TreeHead(g: S.Segs, sizes: seq<int>, x: nat)
    requires x < |g|
    ensures var t := Tree(g, sizes, x);
            && t.id == x && t.base == g[x].base && t.at == S.AtOf(g, x)
            && (g[x].raw.size >= 0 ==> t.trace == g[x].raw.size) && (x < |sizes| ==> t.size == sizes[x])
  {}

  lemma NextApart(g: S.Segs, x: nat, i: nat)
    requires TracesApart(g) && x < |g| && i + 1 < |g[x].subs|
    ensures Apart(g, g[x].subs[i], g[x].subs[i + 1])
  {}

  // ------------------------------------------------------------------ no segment occurs twice

  /** The super-segments above a segment, and the segment itself. */
  function Above(g: S.Segs, x: nat): set<nat>
    requires x < |g|
    decreases x
  {
    {x} + if g[x].link.Some? && g[x].link.value.super < x then Above(g, g[x].link.value.super) else {}
  }

  lemma {:induction false} AboveIsSmaller(g: S.Segs, x: nat, y: nat)
    requires x < |g| && y in Above(g, x)
    ensures y <= x
    decreases x
  {
    if y != x { AboveIsSmaller(g, g[x].link.value.super, y); }
  }

  /** Of two segments above a third one is above the other. */
  lemma {:induction false} AboveIsChain(g: S.Segs, x: nat, a: nat, b: nat)
    requires x < |g| && a in Above(g, x) && b in Above(g, x) && a < b
    ensures b < |g| && a in Above(g, b)
    decreases x
  {
    AboveIsSmaller(g, x, b);
    if b != x {
      AboveIsChain(g, g[x].link.value.super, a, b);
    }
  }

  /** Segments that hang in the same super-segment have nothing below them in common. */
  lemma SiblingsApart(g: S.Segs, x: nat, a: nat, b: nat, y: nat)
    requires y < |g| && S.HangsIn(g, a, x) && S.HangsIn(g, b, x) && x < a && x < b
    requires a in Above(g, y) && b in Above(g, y)
    ensures a == b
  {
    var lo, hi := if a < b then a else b, if a < b then b else a;
    if lo < hi {
      AboveIsChain(g, y, lo, hi);
      AboveIsSmaller(g, x, lo);
    }
  }

  lemma {:induction false} IdsAreBelow(g: S.Segs, sizes: seq<int>, fileSize: nat, x: nat, y: nat)
    requires S.Inv(g, fileSize) && x < |g| && y in V.Ids(Tree(g, sizes, x))
    ensures y < |g| && x in Above(g, y)
    decreases |g| - x, |g[x].subs| + 1
  {
    hide S.Inv, Tree;
    TreeHead(g, sizes, x);
    if y != x {
      IdsFromAreBelow(g, sizes, fileSize, x, 0, y);
    }
  }

  lemma {:induction false} IdsFromAreBelow(g: S.Segs, sizes: seq<int>, fileSize: nat, x: nat, i: nat, y: nat)
    requires S.Inv(g, fileSize) && x < |g| && i <= |Tree(g, sizes, x).subs| && y in V.IdsFrom(Tree(g, sizes, x), i)
    ensures |Tree(g, sizes, x).subs| == |g[x].subs|
    ensures y < |g| && x in Above(g, y) && y != x
    ensures exists j :: i <= j < |g[x].subs| && g[x].subs[j] in Above(g, y)
    decreases |g| - x, |g[x].subs| - i
  {
    hide S.Inv, Tree, V.Ids;
    TreeSubs(g, sizes, fileSize, x);
    Sub(g, fileSize, x, i);
    var sub := g[x].subs[i];
    if y in V.Ids(Tree(g, sizes, sub)) {
      IdsAreBelow(g, sizes, fileSize, sub, y);
      AboveSuper(g, y, sub, x);
      AboveIsSmaller(g, y, sub);
      assert g[x].subs[i] in Above(g, y);
    } else {
      IdsFromAreBelow(g, sizes, fileSize, x, i + 1, y);
    }
  }

  lemma {:induction false} AboveSuper(g: S.Segs, y: nat, s: nat, x: nat)
    requires y < |g| && s in Above(g, y) && S.HangsIn(g, s, x) && x < s
    ensures x in Above(g, y)
    decreases y
  {
    if s != y { AboveSuper(g, g[y].link.value.super, s, x); }
  }

  lemma {:induction false} TreeDistinct(g: S.Segs, sizes: seq<int>, fileSize: nat, x: nat)
    requires S.Inv(g, fileSize) && x < |g|
    ensures V.Distinct(Tree(g, sizes, x))
    decreases |g| - x, |g[x].subs| + 1
  {
    hide S.Inv, Tree, V.IdsFrom, V.DistinctFrom;
    TreeHead(g, sizes, x);
    if x in V.IdsFrom(Tree(g, sizes, x), 0) {
      IdsFromAreBelow(g, sizes, fileSize, x, 0, x);
    }
    TreeDistinctFrom(g, sizes, fileSize, x, 0);
  }

  lemma {:induction false} TreeDistinctFrom(g: S.Segs, sizes: seq<int>, fileSize: nat, x: nat, i: nat)
    requires S.Inv(g, fileSize) && x < |g| && i <= |Tree(g, sizes, x).subs|
    ensures V.DistinctFrom(Tree(g, sizes, x), i)
    decreases |g| - x, |g[x].subs| - i
  {
    hide S.Inv, Tree, V.Ids, V.IdsFrom, V.Distinct;
    TreeSubs(g, sizes, fileSize, x);
    var t := Tree(g, sizes, x);
    if i < |t.subs| {
      Sub(g, fileSize, x, i);
      TreeDistinct(g, sizes, fileSize, g[x].subs[i]);
      TreeDistinctFrom(g, sizes, fileSize, x, i + 1);
      forall y | y in V.Ids(t.subs[i]) ensures y !in V.IdsFrom(t, i + 1) {
        NotLater(g, sizes, fileSize, x, i, y);
      }
    }
  }

  lemma NotLater(g: S.Segs, sizes: seq<int>, fileSize: nat, x: nat, i: nat, y: nat)
    requires S.Inv(g, fileSize) && x < |g| && i < |g[x].subs| && |Tree(g, sizes, x).subs| == |g[x].subs|
    requires g[x].subs[i] < |g| && y in V.Ids(Tree(g, sizes, g[x].subs[i]))
    ensures y !in V.IdsFrom(Tree(g, sizes, x), i + 1)
  {
    hide Tree, V.Ids, V.IdsFrom, Above;
    IdsAreBelow(g, sizes, fileSize, g[x].subs[i], y);
    forall j | i < j < |g[x].subs| ensures g[x].subs[j] !in Above(g, y) {
      Sub(g, fileSize, x, i);
      Sub(g, fileSize, x, j);
      SubsDiffer(g, fileSize, x, i, j);
      if g[x].subs[j] in Above(g, y) { SiblingsApart(g, x, g[x].subs[i], g[x].subs[j], y); }
    }
    if y in V.IdsFrom(Tree(g, sizes, x), i + 1) {
      IdsFromAreBelow(g, sizes, fileSize, x, i + 1, y);
    }
  }

  lemma SubsDiffer(g: S.Segs, fileSize: nat, x: nat, i: nat, j: nat)
    requires S.Inv(g, fileSize) && x < |g| && i < j < |g[x].subs|
    ensures g[x].subs[i] != g[x].subs[j]
  {
    assert S.SubsOk(g, x);
  }

  // ------------------------------------------------------------------ raw offsets fit

  function RawMap(g: S.Segs): map<nat, int> {
    map x | 0 <= x < |g| :: g[x].raw.offs
  }

  lemma {:induction false} CachedRawFits(g: S.Segs, sizes: seq<int>, fileSize: nat, x: nat)
    requires S.Inv(g, fileSize) && x < |g|
    ensures V.RawFits(Tree(g, sizes, x), RawMap(g))
    decreases |g| - x, |g[x].subs| + 1
  {
    hide S.Inv, Tree, V.RawFitsFrom, RawMap;
    CachedRawFitsFrom(g, sizes, fileSize, x, 0);
  }

  lemma {:induction false} CachedRawFitsFrom(g: S.Segs, sizes: seq<int>, fileSize: nat, x: nat, i: nat)
    requires S.Inv(g, fileSize) && x < |g| && i <= |Tree(g, sizes, x).subs|
    ensures V.RawFitsFrom(Tree(g, sizes, x), i, RawMap(g))
    decreases |g| - x, |g[x].subs| - i
  {
    hide S.Inv, Tree, V.RawFits;
    TreeSubs(g, sizes, fileSize, x);
    TreeHead(g, sizes, x);
    if i < |Tree(g, sizes, x).subs| {
      Sub(g, fileSize, x, i);
      TreeHead(g, sizes, g[x].subs[i]);
      CachedRawFits(g, sizes, fileSize, g[x].subs[i]);
      CachedRawFitsFrom(g, sizes, fileSize, x, i + 1);
    }
  }

  // ------------------------------------------------------------------ the coordinates agree

  lemma LeafInside(t: G.Seg, da: int, ra: int, n: G.Seg, o: int, raw: map<nat, int>)
    requires G.WellFormed(t) && V.Distinct(t) && V.Within(n, t) && n.subs == [] && 0 <= o < n.trace
    requires V.RawFits(t, raw) && V.RawOf(raw, t.id) == ra
    ensures n.id in G.Views(t, da)
    ensures G.RawAt(G.Table(t, da, ra), G.Views(t, da)[n.id].lo + o) == Some(V.RawOf(raw, n.id) + o)
    ensures G.Views(t, da)[n.id].lo + o < G.Views(t, da)[n.id].lo + G.Views(t, da)[n.id].size
  {
    hide G.WellFormed, V.Distinct, V.Within, V.RawFits, V.RawOf, G.Views, G.Table, G.RawAt, G.Tiles, G.Rows, G.RowOf;
    var pre, post, ra2 := V.Slice(t, da, ra, n);
    var lo := G.Views(t, da)[n.id].lo;
    var mid := G.Table(n, lo, ra2);
    G.TableTiles(n, lo, ra2);
    RowOfLeaf(n, o, lo);
    G.RowShowsRaw(n, o, lo, ra2);
    G.RawAtJoin(pre, mid, da, lo, lo + G.Rows(n), lo + o);
    G.TilesJoin(pre, mid, da, lo, lo + G.Rows(n));
    G.RawAtJoin(pre + mid, post, da, lo + G.Rows(n), da + G.Rows(t), lo + o);
  }

  lemma RowOfLeaf(n: G.Seg, o: int, lo: int)
    requires n.subs == []
    ensures G.RowOf(n, o, lo) == lo + o
  {}

  /** For every address in the trace of a terminal segment: the row `viewOffsAt` gives lies in a
      section of that segment that maps it back to the address (unless the segment is smaller
      than that), and that gives it the same raw offset as the walk over the traces. */
  lemma CoordinatesAgree(g: S.Segs, sizes: seq<int>, fileSize: nat, y: nat, va: int)
    requires Ready(g, sizes, fileSize) && y < |g| && g[y].subs == []
    requires V.Within(Tree(g, sizes, y), Tree(g, sizes, 0))
    requires 0 <= va - g[y].base < g[y].raw.size
    ensures var t, n := Tree(g, sizes, 0), Tree(g, sizes, y);
            var ss := G.Table(t, 0, 0);
            && y in G.Views(t, 0)
            && var row := V.ViewOffsAt(n, G.Views(t, 0)[y].lo, va);
               && G.RawAt(ss, row) == S.Walk(g, y, va) == Some(g[y].raw.offs + (va - g[y].base))
               && V.ShownAt(n, ss, row, va)
  {
    hide S.Inv, TracesApart, SizesOk, Tree, V.Within, G.Views, G.Table, G.RawAt, G.WellFormed, V.Distinct;
    hide V.RawFits, V.RawOf;
    hide V.Ids, G.Tiles, S.Walk, G.Rows;
    var t, n := Tree(g, sizes, 0), Tree(g, sizes, y);
    Root(g, fileSize);
    TreeWellFormed(g, sizes, fileSize, 0);
    TreeDistinct(g, sizes, fileSize, 0);
    CachedRawFits(g, sizes, fileSize, 0);
    TreeHead(g, sizes, 0);
    TreeHead(g, sizes, y);
    TreeSubs(g, sizes, fileSize, y);
    Cached(g, 0);
    Cached(g, y);
    var o := va - g[y].base;
    LeafInside(t, 0, 0, n, o, RawMap(g));
    S.RawNested(g, fileSize, y);
    S.WalkIsCached(g, fileSize, y, va);
    var row := G.Views(t, 0)[y].lo + o;
    V.ViewsAreRows(t, 0, 0, n);
    assert V.CoveredBy(G.Table(t, 0, 0), row, V.Ids(n));
    var k :| 0 <= k < |G.Table(t, 0, 0)| && G.Covers(G.Table(t, 0, 0)[k], row);
    V.TerminalRowsAndAddresses(t, 0, 0, n, k, row);
  }

  /** A part of a segment's own table shows the same in the table of the tree. */
  lemma ShownInside(n: G.Seg, pre: seq<G.Section>, mid: seq<G.Section>, post: seq<G.Section>, row: int, va: int)
    requires V.ShownAt(n, mid, row, va)
    ensures V.ShownAt(n, pre + mid + post, row, va)
  {
    var k :| 0 <= k < |mid| && G.Covers(mid[k], row) && mid[k].seg == n.id
             && V.VirtualAddr(n, mid[k], row) == if va - n.base <= V.Reach(n) then Some(va) else None;
    assert (pre + mid + post)[|pre| + k] == mid[k];
  }

  lemma GapInside(t: G.Seg, da: int, ra: int, n: G.Seg, i: nat, va: int, raw: map<nat, int>)
    requires G.WellFormed(t) && V.Distinct(t) && V.Within(n, t) && n.subs != [] && i <= |n.subs|
    requires G.Start(n, i) <= va < V.GapEnd(n, i)
    requires V.RawFits(t, raw) && V.RawOf(raw, t.id) == ra
    ensures n.id in G.Views(t, da)
    ensures var row := V.GapRow(n, i, G.Views(t, da)[n.id].lo, va);
            && G.RawAt(G.Table(t, da, ra), row) == Some(V.RawOf(raw, n.id) + (va - n.base))
            && V.ShownAt(n, G.Table(t, da, ra), row, va)
            && (G.Bounded(n) ==>
                  (V.ViewOffsAt(n, G.Views(t, da)[n.id].lo, va) == row
                   <==> forall j :: 0 <= j < i ==> V.GrowthSeen(n.subs[j], va)))
  {
    hide G.WellFormed, V.Distinct, V.Within, V.RawFits, V.RawOf, G.Views, G.Table, G.RawAt, G.Tiles, G.Rows;
    hide V.ShownAt, V.ViewOffsAt, V.GrowthSeen, G.Bounded;
    var pre, post, ra2 := V.Slice(t, da, ra, n);
    var lo, o := G.Views(t, da)[n.id].lo, va - n.base;
    var mid, row := G.Table(n, lo, ra2), V.GapRow(n, i, lo, va);
    G.At(n, i);
    G.TableTiles(n, lo, ra2);
    V.RowOfGap(n, 0, i, lo, va);
    G.RowShowsRaw(n, o, lo, ra2);
    G.RawAtJoin(pre, mid, da, lo, lo + G.Rows(n), row);
    G.TilesJoin(pre, mid, da, lo, lo + G.Rows(n));
    G.RawAtJoin(pre + mid, post, da, lo + G.Rows(n), da + G.Rows(t), row);
    V.GapIsShown(n, i, lo, ra2, va);
    ShownInside(n, pre, mid, post, row, va);
    if G.Bounded(n) { V.GapRowsAndAddresses(n, i, lo, ra2, va); }
  }

  /** For every address of a segment that lies between its subsegments: its row gives it the same
      raw offset as the walk over the traces, and shows it; and `viewOffsAt` finds the row if and
      only if it counts what every earlier subsegment has grown by. */
  lemma GapCoordinates(g: S.Segs, sizes: seq<int>, fileSize: nat, y: nat, i: nat, va: int)
    requires Ready(g, sizes, fileSize) && y < |g| && g[y].subs != []
    requires V.Within(Tree(g, sizes, y), Tree(g, sizes, 0))
    requires var n := Tree(g, sizes, y); i <= |n.subs| && G.Start(n, i) <= va < V.GapEnd(n, i)
    ensures var t, n := Tree(g, sizes, 0), Tree(g, sizes, y);
            var ss := G.Table(t, 0, 0);
            && y in G.Views(t, 0)
            && var row := V.GapRow(n, i, G.Views(t, 0)[y].lo, va);
               && G.RawAt(ss, row) == S.Walk(g, y, va) == Some(g[y].raw.offs + (va - g[y].base))
               && V.ShownAt(n, ss, row, va)
               && (G.Bounded(n) ==>
                     (V.ViewOffsAt(n, G.Views(t, 0)[y].lo, va) == row
                      <==> forall j :: 0 <= j < i ==> V.GrowthSeen(n.subs[j], va)))
  {
    hide S.Inv, TracesApart, SizesOk, Tree, V.Within, G.Views, G.Table, G.RawAt, G.WellFormed, V.Distinct;
    hide V.RawFits, V.RawOf, V.ShownAt, V.ViewOffsAt, V.GrowthSeen, G.Bounded, G.Start, V.GapEnd, V.GapRow;
    hide S.Walk, G.Rows;
    var t, n := Tree(g, sizes, 0), Tree(g, sizes, y);
    Root(g, fileSize);
    TreeWellFormed(g, sizes, fileSize, 0);
    TreeDistinct(g, sizes, fileSize, 0);
    CachedRawFits(g, sizes, fileSize, 0);
    TreeHead(g, sizes, 0);
    TreeHead(g, sizes, y);
    TreeSubs(g, sizes, fileSize, y);
    Cached(g, 0);
    Cached(g, y);
    TreeWellFormed(g, sizes, fileSize, y);
    GapInTrace(n, i, va);
    GapInside(t, 0, 0, n, i, va, RawMap(g));
    S.RawNested(g, fileSize, y);
    S.WalkIsCached(g, fileSize, y, va);
  }

  lemma GapInTrace(n: G.Seg, i: nat, va: int)
    requires G.WellFormed(n) && i <= |n.subs| && G.Start(n, i) <= va < V.GapEnd(n, i)
    ensures 0 <= va - n.base < n.trace
  {
    G.At(n, i);
  }

  lemma Root(g: S.Segs, fileSize: nat)
    requires S.Inv(g, fileSize)
    ensures g != [] && g[0].raw.offs == 0
  {}

  lemma Cached(g: S.Segs, x: nat)
    requires x < |g|
    ensures V.RawOf(RawMap(g), x) == g[x].raw.offs
  {}

  /** Every created segment occurs in the tree. */
  lemma {:induction false} EverySegmentOccurs(g: S.Segs, sizes: seq<int>, fileSize: nat, x: nat)
    requires S.Inv(g, fileSize) && x < |g|
    ensures g != [] && V.Within(Tree(g, sizes, x), Tree(g, sizes, 0))
    decreases x
  {
    hide S.Inv, Tree;
    Root(g, fileSize);
    if x > 0 {
      var s := Hangs(g, fileSize, x);
      EverySegmentOccurs(g, sizes, fileSize, s);
      var i :| 0 <= i < |g[s].subs| && g[s].subs[i] == x;
      TreeSubs(g, sizes, fileSize, s);
      Occurs(Tree(g, sizes, x), Tree(g, sizes, s), 0, i);
      WithinTrans(Tree(g, sizes, x), Tree(g, sizes, s), Tree(g, sizes, 0));
    }
  }

  lemma Hangs(g: S.Segs, fileSize: nat, x: nat) returns (s: nat)
    requires S.Inv(g, fileSize) && 0 < x < |g|
    ensures s < x && x in g[s].subs
  {
    assert S.LinkOk(g, x);
    s := g[x].link.value.super;
    assert S.SubsOk(g, s);
    assert S.HangsIn(g, x, s);
  }

  lemma {:induction false} Occurs(n: G.Seg, s: G.Seg, j: nat, i: nat)
    requires j <= i < |s.subs| && s.subs[i] == n
    ensures V.WithinFrom(n, s, j)
    decreases i - j
  {
    if j < i { Occurs(n, s, j + 1, i); }
  }

  lemma {:induction false} WithinTrans(n: G.Seg, m: G.Seg, s: G.Seg)
    requires V.Within(m, s) && V.WithinFrom(n, m, 0)
    ensures V.Within(n, s)
    decreases s, |s.subs| + 1
  {
    if m != s { WithinFromTrans(n, m, s, 0); }
  }

  lemma {:induction false} WithinFromTrans(n: G.Seg, m: G.Seg, s: G.Seg, i: nat)
    requires i <= |s.subs| && V.WithinFrom(m, s, i) && V.WithinFrom(n, m, 0)
    ensures V.WithinFrom(n, s, i)
    decreases s, |s.subs| - i
  {
    if V.Within(m, s.subs[i]) {
      WithinTrans(n, m, s.subs[i]);
    } else {
      WithinFromTrans(n, m, s, i + 1);
    }
  }

  /** After every run of creations and placements whose traces were harboured apart, the three
      coordinates agree on every terminal segment. */
  lemma RunsAgreeOnCoordinates(run: seq<S.Segs>, ops: seq<S.Op>, fileSize: nat, sizes: seq<int>, y: nat, va: int)
    requires S.IsRun(run, ops) && run[0] == S.NewModule(fileSize) && fileSize < G.SIZE_LIMIT
    requires TracesApart(run[|ops|]) && SizesOk(run[|ops|], sizes)
    requires y < |run[|ops|]| && run[|ops|][y].subs == [] && 0 <= va - run[|ops|][y].base < run[|ops|][y].raw.size
    ensures var g := run[|ops|];
            var t, n := Tree(g, sizes, 0), Tree(g, sizes, y);
            && y in G.Views(t, 0)
            && var row := V.ViewOffsAt(n, G.Views(t, 0)[y].lo, va);
               && G.RawAt(G.Table(t, 0, 0), row) == S.Walk(g, y, va) == Some(g[y].raw.offs + (va - g[y].base))
               && V.ShownAt(n, G.Table(t, 0, 0), row, va)
  {
    hide S.Inv, TracesApart, SizesOk, Tree, V.Within, G.Views, G.Table, G.RawAt, S.Walk, V.ShownAt, V.ViewOffsAt;
    S.RunKeepsInv(run, ops, fileSize, |ops|);
    EverySegmentOccurs(run[|ops|], sizes, fileSize, y);
    CoordinatesAgree(run[|ops|], sizes, fileSize, y, va);
  }

  /** The same for the addresses between subsegments. */
  lemma RunsAgreeBetween(run: seq<S.Segs>, ops: seq<S.Op>, fileSize: nat, sizes: seq<int>, y: nat, i: nat, va: int)
    requires S.IsRun(run, ops) && run[0] == S.NewModule(fileSize) && fileSize < G.SIZE_LIMIT
    requires TracesApart(run[|ops|]) && SizesOk(run[|ops|], sizes)
    requires y < |run[|ops|]| && run[|ops|][y].subs != []
    requires var n := Tree(run[|ops|], sizes, y); i <= |n.subs| && G.Start(n, i) <= va < V.GapEnd(n, i)
    ensures var g := run[|ops|];
            var t, n := Tree(g, sizes, 0), Tree(g, sizes, y);
            && y in G.Views(t, 0)
            && var row := V.GapRow(n, i, G.Views(t, 0)[y].lo, va);
               && G.RawAt(G.Table(t, 0, 0), row) == S.Walk(g, y, va) == Some(g[y].raw.offs + (va - g[y].base))
               && V.ShownAt(n, G.Table(t, 0, 0), row, va)
  {
    hide S.Inv, TracesApart, SizesOk, Tree, V.Within, G.Views, G.Table, G.RawAt, S.Walk, V.ShownAt, V.ViewOffsAt;
    hide G.Bounded, V.GapRow, G.Start, V.GapEnd, V.GrowthSeen;
    S.RunKeepsInv(run, ops, fileSize, |ops|);
    EverySegmentOccurs(run[|ops|], sizes, fileSize, y);
    GapCoordinates(run[|ops|], sizes, fileSize, y, i, va);
  }
}
