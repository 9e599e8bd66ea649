/** The module object: the geometry pass with its running accumulators, the look-up in the
    section table, and the walk from raw offsets to rows, each proved against its
    specification. */
module ModuleObject {
  import opened Wrappers
  import opened Geometry
  import opened SegmentViews

  /** Index of the section that covers the row. */
  ghost predicate FoundAt(ss: seq<Section>, da: int, r: Option<nat>) {
    match r
    case Some(n) => n < |ss| && Covers(ss[n], da)
    case None => forall k :: 0 <= k < |ss| ==> !Covers(ss[k], da)
  }

  class Module {
    var sections: seq<Section>
    var views: map<SegId, View>

    constructor ()
      ensures sections == [] && views == map[]
    {
      sections, views := [], map[];
    }

    /** Lays the segment out from the given row and raw offset: appends its sections, records
        the views of its segments, and tells the first row behind it. */
    method UpdateSegGeometry(s: Seg, daBase: int, raBase: int, offBase: int) returns (da: int)
      requires WellFormed(s) && offBase == 0
      modifies this
      ensures sections == old(sections) + Table(s, daBase, raBase)
      ensures views == old(views) + Views(s, daBase)
      ensures da == daBase + Rows(s)
      decreases s
    {
      hide WellFormed, Rows, RowsFrom, Table, TableFrom, Views, ViewsFrom, Gap, Leaf, Start;
      At(s, 0);
      StartIsBase(s);
      var traceSize := s.trace;
      var baseSize := if s.subs == [] then Shown(s) else 0;
      var lowerSize, upperSize := Min(traceSize, baseSize), Max(traceSize, baseSize);
      var daCur, raCur, vaCur, offCur := daBase, raBase, s.base, offBase;
      var i := 0;
      assert views == old(views) + map[];
      while i < |s.subs|
        invariant 0 <= i <= |s.subs|
        invariant vaCur == Start(s, i) && offCur == vaCur - s.base
        invariant s.subs != [] ==> lowerSize == offCur
        invariant s.subs == [] ==>
                    && lowerSize == Min(traceSize, baseSize) && daCur == daBase && raCur == raBase
                    && sections == old(sections)
        invariant sections + TableFrom(s, i, daCur, raCur) == old(sections) + TableFrom(s, 0, daBase, raBase)
        invariant views + ViewsFrom(s, i, daCur) == old(views) + ViewsFrom(s, 0, daBase)
        invariant daCur + RowsFrom(s, i) == daBase + RowsFrom(s, 0)
      {
        At(s, i);
        PassStep(sections, views, s, i, daCur, raCur);
        var sub := s.subs[i];
        var subOff := sub.at - vaCur;
        AppendGap(sections, s, vaCur, sub.at, daCur, raCur);
        if subOff > 0 {
          sections := sections + [Section(daCur, subOff, Some(raCur), offCur, s.id)];
        }
        lowerSize := lowerSize + subOff;
        daCur, raCur, offCur := daCur + subOff, raCur + subOff, offCur + subOff;
        daCur := UpdateSegGeometry(sub, daCur, raCur, 0);
        lowerSize := lowerSize + sub.trace;
        raCur, offCur := raCur + sub.trace, offCur + sub.trace;
        vaCur := sub.at + sub.trace;
        i := i + 1;
      }
      At(s, i);
      Finish(s, daCur, raCur, daBase, raBase);
      LeafAppended(sections, s, daBase, raBase);
      if s.subs != [] {
        LastGapAppended(sections, s, vaCur, daCur, raCur);
        var l := traceSize - lowerSize;
        if l > 0 {
          sections := sections + [Section(daCur, l, Some(raCur), offCur, s.id)];
          daCur, raCur, offCur, lowerSize := daCur + l, raCur + l, offCur + l, lowerSize + l;
        }
      } else if lowerSize > 0 {
        sections := sections + [Section(daCur, lowerSize, Some(raCur), offCur, s.id)];
        daCur, raCur, offCur := daCur + lowerSize, raCur + lowerSize, offCur + lowerSize;
      }
      var diffSize := upperSize - lowerSize;
      if diffSize > 0 {
        var raDelta := if traceSize == upperSize then diffSize else 0;
        sections := sections + [Section(daCur, diffSize, if raDelta > 0 then Some(raCur) else None, offCur, s.id)];
        daCur := daCur + diffSize;
      }
      ViewsAre(old(views), views, s, daBase);
      views := views[s.id := View(daBase, daCur - daBase)];
      return daCur;
    }

    /** The pass over the whole module. */
    method UpdateViewGeometry(root: Seg, rawOffs: int)
      requires WellFormed(root)
      modifies this
      ensures sections == Table(root, 0, rawOffs)
      ensures views == old(views) + Views(root, 0)
    {
      sections := [];
      var da := UpdateSegGeometry(root, 0, rawOffs, 0);
    }

    /** The section that covers a row: the last one that starts at or before it, if it reaches
        that far. */
    method Find(da: int, ghost lo: int, ghost hi: int) returns (r: Option<nat>)
      requires Tiles(sections, lo, hi)
      ensures FoundAt(sections, da, r)
    {
      hide Tiles;
      TilesPositive(sections, lo, hi);
      var i, j := 0, |sections|;
      while i < j
        invariant 0 <= i <= j <= |sections|
        invariant forall k :: 0 <= k < i ==> sections[k].da <= da
        invariant forall k :: j <= k < |sections| ==> da < sections[k].da
      {
        var m := (i + j) / 2;
        forall k | 0 <= k < m ensures sections[k].da <= sections[m].da {
          TilesOrdered(sections, lo, hi, k, m);
        }
        forall k | m < k < |sections| ensures sections[m].da <= sections[k].da {
          TilesOrdered(sections, lo, hi, m, k);
        }
        if da < sections[m].da {
          j := m;
        } else {
          i := m + 1;
        }
      }
      if i > 0 {
        var b := sections[i - 1];
        forall k | 0 <= k < i - 1 ensures !Covers(sections[k], da) {
          TilesOrdered(sections, lo, hi, k, i - 1);
        }
        if da - b.da < b.size {
          return Some(i - 1);
        }
      }
      return None;
    }

    /** The walk from a raw offset to a row. */
    static method R2D2(s: Seg, addr: int, da0: int) returns (seg: Option<SegId>, da: int)
      ensures (seg, da) == Locate(s, addr, da0)
      decreases s
    {
      da := da0;
      var i := 0;
      while i < |s.subs|
        invariant 0 <= i <= |s.subs|
        invariant LocateFrom(s, i, addr, da) == Locate(s, addr, da0)
      {
        var sub := s.subs[i];
        var segOffs := sub.at - s.base;
        if segOffs > addr {
          return Some(sub.id), da + addr;
        }
        da := da + segOffs;
        seg, da := R2D2(sub, addr - segOffs, da);
        if seg.Some? {
          return;
        }
        da := da - segOffs;
        i := i + 1;
      }
      if addr < s.trace {
        return Some(s.id), da + addr;
      }
      return None, da + Over0(s);
    }

    /** After the pass, a raw offset of the module is found on a row whose section maps it back,
        exactly if no terminal segment that ends before it is open. */
    method FindRaw(root: Seg, rawOffs: int, addr: int) returns (row: int, n: Option<nat>)
      requires WellFormed(root) && Bounded(root) && 0 <= addr < root.trace
      requires sections == Table(root, 0, rawOffs)
      ensures FoundAt(sections, row, n)
      ensures Definite(root, addr) ==>
                && n.Some? && sections[n.value].ra.Some?
                && sections[n.value].ra.value + (row - sections[n.value].da) == rawOffs + addr
    {
      hide WellFormed, Bounded, Definite, Table, Rows, Locate, RowOf;
      var seg;
      seg, row := R2D2(root, addr, 0);
      TableTiles(root, 0, rawOffs);
      n := Find(row, 0, Rows(root));
      LocateExactIff(root, addr, 0, rawOffs);
      RawAtFound(sections, 0, Rows(root), row, n);
    }
  }

  // ------------------------------------------------------------------ steps of the pass

  /** One round: the gap, then the subsegment's own pass. */
  lemma PassStep(ss: seq<Section>, vs: map<SegId, View>, s: Seg, i: nat, da: int, ra: int)
    requires WellFormed(s) && i < |s.subs|
    ensures var sub, gap := s.subs[i], s.subs[i].at - Start(s, i);
            var da2 := da + gap + Rows(sub);
            && RowsFrom(s, i) == gap + Rows(sub) + RowsFrom(s, i + 1)
            && vs + ViewsFrom(s, i, da) == (vs + Views(sub, da + gap)) + ViewsFrom(s, i + 1, da2)
            && ss + TableFrom(s, i, da, ra)
               == ((ss + Gap(s, Start(s, i), sub.at, da, ra)) + Table(sub, da + gap, ra + gap))
                  + TableFrom(s, i + 1, da2, ra + gap + sub.trace)
  {
    hide WellFormed, Rows, Table, Views, Gap;
    TableStep(s, i, da, ra);
  }

  lemma AppendGap(ss: seq<Section>, s: Seg, lo: int, hi: int, da: int, ra: int)
    ensures ss + Gap(s, lo, hi, da, ra)
            == if hi - lo > 0 then ss + [Section(da, hi - lo, Some(ra), lo - s.base, s.id)] else ss
  {}

  lemma LastGapAppended(ss: seq<Section>, s: Seg, lo: int, da: int, ra: int)
    ensures ss + Gap(s, lo, s.base + s.trace, da, ra)
            == if s.base + s.trace - lo > 0
               then ss + [Section(da, s.base + s.trace - lo, Some(ra), lo - s.base, s.id)] else ss
  {}

  lemma StartIsBase(s: Seg)
    ensures Start(s, 0) == s.base
  {}

  lemma LeafAppended(ss: seq<Section>, s: Seg, da: int, ra: int)
    ensures var lower, upper := Min(s.trace, Shown(s)), Max(s.trace, Shown(s));
            var ss1 := if lower > 0 then ss + [Section(da, lower, Some(ra), 0, s.id)] else ss;
            ss + Leaf(s, da, ra) ==
              if upper - lower > 0
              then ss1 + [Section(da + lower, upper - lower, if s.trace == upper then Some(ra + lower) else None,
                                  lower, s.id)]
              else ss1
  {}

  lemma Finish(s: Seg, daCur: int, raCur: int, daBase: int, raBase: int)
    ensures RowsFrom(s, |s.subs|) == s.base + s.trace - Start(s, |s.subs|)
    ensures ViewsFrom(s, |s.subs|, daCur) == map[]
    ensures TableFrom(s, |s.subs|, daCur, raCur) == Gap(s, Start(s, |s.subs|), s.base + s.trace, daCur, raCur)
    ensures s.subs != [] ==> Table(s, daBase, raBase) == TableFrom(s, 0, daBase, raBase) && Rows(s) == RowsFrom(s, 0)
    ensures s.subs == [] ==> Table(s, daBase, raBase) == Leaf(s, daBase, raBase) && Rows(s) == Max(s.trace, Shown(s))
  {}

  lemma ViewsAre(was: map<SegId, View>, vs: map<SegId, View>, s: Seg, da: int)
    requires vs + map[] == was + ViewsFrom(s, 0, da)
    ensures vs[s.id := View(da, Rows(s))] == was + Views(s, da)
  {
    hide ViewsFrom, Rows;
    assert vs == vs + map[];
  }

  /** The look-up and the raw offset of a row. */
  lemma {:induction false} RawAtFound(ss: seq<Section>, lo: int, hi: int, row: int, r: Option<nat>)
    requires Tiles(ss, lo, hi) && FoundAt(ss, row, r)
    ensures RawAt(ss, row) == if r.Some? && ss[r.value].ra.Some?
                              then Some(ss[r.value].ra.value + (row - ss[r.value].da)) else None
  {
    hide Tiles;
    if ss != [] {
      TilesTail(ss, lo, hi);
      if r.None? {
        assert !Covers(ss[0], row);
        forall k | 0 <= k < |ss[1..]| ensures !Covers(ss[1..][k], row) {
          assert !Covers(ss[k + 1], row);
        }
        RawAtFound(ss[1..], lo + ss[0].size, hi, row, None);
      } else if r.value > 0 {
        TilesOrdered(ss, lo, hi, 0, r.value);
        RawAtFound(ss[1..], lo + ss[0].size, hi, row, Some(r.value - 1));
      }
    }
  }
}
