/** The database object: the operations that change containers step by step, each proved
    against its specification. */
module DatabaseObject {
  import opened Wrappers
  import opened FieldMaps
  import opened TypeDb
  import opened Containment
  import opened Relocation
  import opened Resize
  import opened Sweep

  class Database {
    var types: Db

    constructor (db: Db)
      ensures types == db
    {
      types := db;
    }

    // ------------------------------------------------------------------ containment

    /** Strips arrays one after the other. */
    method SkipArrays(p: TypeId) returns (r: TypeId)
      requires Closed(types) && Acyclic(types) && p in types
      ensures r == SkipArray(types, p)
    {
      r := p;
      while types[Direct(types, r)].kind.Array?
        invariant r in types && SkipArray(types, r) == SkipArray(types, p)
        decreases Rank(types, r)
      {
        RankElem(types, r);
        r := types[Direct(types, r)].kind.elem;
      }
    }

    /** The walk's step: into the structure behind the current field, or past it and out of
        every structure that is finished. */
    method NextField(st: seq<HierFrame>, ghost o: TypeId) returns (r: seq<HierFrame>)
      requires Closed(types) && Acyclic(types) && StackOk(types, st) && st != []
      requires var top := st[|st| - 1];
               var f := FieldsOf(types, top.t)[top.i];
               f.typ.Some? ==> SkipArray(types, f.typ.value) != o
      ensures StackOk(types, r)
      ensures Pending(types, st, o) <==> r != [] && Pending(types, r, o)
      ensures Work(types, r) < Work(types, st)
    {
      hide NestedFrom, Hit, NestedCount, Pending, Work, Acyclic, Closed;
      var top := st[|st| - 1];
      var f := FieldsOf(types, top.t)[top.i];
      if f.typ.Some? {
        var u := SkipArrays(f.typ.value);
        if FieldsOf(types, u) != [] {
          PushStep(types, st, u, o);
          return st + [HierFrame(u, 0)];
        }
      }
      BumpStep(types, st, o);
      r := Bump(types, st);
      while r != [] && r[|r| - 1].i == |FieldsOf(types, r[|r| - 1].t)|
        invariant TopOk(types, r)
        invariant Pending(types, st, o) <==> r != [] && Pending(types, r, o)
        invariant Work(types, r) < Work(types, st)
        decreases |r|
      {
        PopStep(types, r, o);
        r := r[..|r| - 1];
        if r != [] {
          r := Bump(types, r);
        }
      }
    }

    /** The walk over all nested fields of `t` finds `o` if and only if `o` is included in `t`. */
    method CheckTypeInclusion(o: TypeId, t: TypeId) returns (found: bool)
      requires Closed(types) && Acyclic(types) && t in types
      ensures found <==> Includes(types, o, t)
    {
      hide NestedFrom, Hit, NestedCount, Pending, Work, Acyclic, Closed;
      if o == t {
        return true;
      }
      StartStep(types, t, o);
      var st: seq<HierFrame> := [];
      if FieldsOf(types, t) != [] {
        st := [HierFrame(t, 0)];
      }
      while st != []
        invariant StackOk(types, st)
        invariant NestedFrom(types, t, 0, o) <==> st != [] && Pending(types, st, o)
        decreases Work(types, st)
      {
        var top := st[|st| - 1];
        var f := FieldsOf(types, top.t)[top.i];
        if f.typ.Some? {
          var u := SkipArrays(f.typ.value);
          if u == o {
            HitStep(types, st, o);
            return true;
          }
        }
        st := NextField(st, o);
      }
      return false;
    }

    /** Giving a field a type: refused when the type, looked at through arrays, is a structure
        that includes the owner. */
    method SetType(o: TypeId, i: nat, p: Option<TypeId>) returns (r: Option<TypeId>)
      requires Closed(types) && Acyclic(types) && o in types && i < |types[o].fields|
      requires p.Some? ==> p.value in types
      requires types[o].fields[i].typ.None? || types[o].fields[i].typ == p
      modifies this
      ensures r == p || r == None
      ensures old(types)[o].fields[i].typ == p ==> r == p && types == old(types)
      ensures old(types)[o].fields[i].typ.None? && p.Some? ==>
                && (r == p <==> TypeAccepted(old(types), o, p.value))
                && types == if r == p then WithType(old(types), o, i, p) else old(types)
    {
      if p == types[o].fields[i].typ {
        return p;
      }
      var u := SkipArrays(p.value);
      if HasStruc(types, u) && !types[o].kind.FuncDef? {
        var recursive := CheckTypeInclusion(o, u);
        if recursive {
          return None;
        }
      }
      types := WithType(types, o, i, p);
      return p;
    }

    method ClearType(o: TypeId, i: nat)
      requires Closed(types) && Acyclic(types) && o in types && i < |types[o].fields|
      modifies this
      ensures types == WithType(old(types), o, i, None)
      ensures Closed(types) && Acyclic(types)
    {
      ClearTypeKeepsAcyclic(types, o, i);
      types := WithType(types, o, i, None);
    }

    // ------------------------------------------------------------------ relocation

    method CheckRelocEligability(f: Field, d: TypeId) returns (ok: bool)
      requires Closed(types) && Acyclic(types) && d in types
      requires f.typ.Some? ==> f.typ.value in types
      ensures ok <==> Eligible(types, f, d)
    {
      hide Includes;
      if f.exported {
        return false;
      }
      if f.typ.None? {
        return true;
      }
      var t := f.typ.value;
      if types[t].kind.Import? || t == d || types[t].kind.Seg? || types[t].kind.Proc? {
        return false;
      }
      if types[t].kind.Code? {
        return types[d].kind.Proc? || types[d].kind.Seg?;
      }
      var u := SkipArrays(t);
      if types[Direct(types, u)].kind.Simple? {
        return true;
      }
      var included := CheckTypeInclusion(d, u);
      return !included;
    }

    /** Takes the end marker off `d` and tells its offset. */
    method TakeEosField(d: TypeId) returns (eos: Option<Field>, size: int)
      requires d in types
      modifies this
      ensures types == WithFields(old(types), d, Members(old(types), d))
      ensures eos.Some? <==> !old(types)[d].kind.Seg? && HasMarker(old(types)[d].fields)
      ensures eos.Some? ==>
                eos.value == old(types)[d].fields[|old(types)[d].fields| - 1]
                && size == eos.value.key - old(types)[d].base
    {
      var m := types[d].fields;
      size := 0;
      if types[d].kind.Seg? || !HasMarker(m) {
        assert types == WithFields(types, d, m);
        return None, 0;
      }
      eos := Some(m[|m| - 1]);
      size := m[|m| - 1].key - types[d].base;
      types := WithFields(types, d, m[..|m| - 1]);
    }

    /** Inserts a field at an address, unless something other than the end marker has it: then
        nothing changes. Otherwise the field is there, and so is all the rest but the marker whose
        address it took. */
    method InsertFieldAt(d: TypeId, f: Field, key: int) returns (ok: bool)
      requires d in types && Sorted(types[d].fields)
      modifies this
      ensures ok <==> key !in Keys(old(types)[d].fields) || OnlyMarkerAt(old(types)[d].fields, key)
      ensures ok ==> var m := old(types)[d].fields;
                && types.Keys == old(types).Keys && Sorted(types[d].fields)
                && multiset(types[d].fields)
                   == multiset(if key in Keys(m) then Strip(m) else m) + multiset{f.(key := key)}
      ensures !ok ==> types == old(types)
      ensures types == WithFields(old(types), d, InsertUnique(old(types)[d].fields, f.(key := key)).0)
    {
      hide Sorted, Keys, LowerBound, OnlyMarkerAt, Strip, InsertUnique;
      var m, g := types[d].fields, f.(key := key);
      InsertRefusedIff(m, g);
      InsertUniqueSorted(m, g);
      if InsertUnique(m, g).1 { InsertUniqueMeans(m, g); }
      var i := LowerBound(m, key);
      InsertUniqueAt(m, g, i);
      if i < |m| && m[i].key == key {
        if !IsMarkerAt(m, i) {
          WithOwnFields(types, d);
          return false;
        }
        m := m[..i];
        assert m[..i] + [g] + m[i..] == m + [g];
      }
      types := WithFields(types, d, m[..i] + [g] + m[i..]);
      return true;
    }

    /** The move: fields `lo` up to `hi` of `s` go to `d` one by one, until the first that may
        not, or the end marker. */
    method RelocateFields(s: TypeId, lo: nat, hi: nat, d: TypeId, base: int, base2: int) returns (count: nat)
      requires CanRelocate(types, s, lo, hi, d)
      modifies this
      ensures types == Relocated(old(types), s, lo, hi, d, base, base2)
      ensures count == GoneCount(old(types), s, lo, hi, d)
      ensures Valid(types)
    {
      hide Closed, Acyclic, AllSorted, Sorted, Keys, Eligible, EligibleRun, InsertUnique, Moved, AfterMove;
      hide Unmasked, GoneCount, Relocated, WithOldEos, WithFields, HasMarker, IsEos, Members, Strip, OnlyMarkerAt, Size;
      ghost var db0, delta := types, base2 - base;
      var eos, oldSize := TakeEosField(d);
      MovedNothing(db0, s, lo, d, delta);
      count := 0;
      var stop := false;
      while count < hi - lo && !stop
        invariant count <= hi - lo
        invariant !stop ==>
                  count <= EligibleRun(db0, s, lo, hi, d) && types == Moved(db0, s, lo, count, count, d, delta)
        invariant stop ==> count == GoneCount(db0, s, lo, hi, d) && types == AfterMove(db0, s, lo, hi, d, delta)
        decreases hi - lo - count, !stop
      {
        MovedNext(db0, s, lo, hi, d, delta, count);
        MovedTake(db0, s, lo, d, delta, count);
        MovedInsert(db0, s, lo, d, delta, count);
        var f := types[s].fields[lo];
        var isEos := IsEos(types, s, lo);
        if !isEos {
          var ok := CheckRelocEligability(f, d);
          stop := !ok;
        }
        if stop {
          RunEnds(db0, s, lo, hi, d, count);
          AfterMoveIs(db0, s, lo, hi, d, delta);
        } else {
          types := WithFields(types, s, types[s].fields[..lo] + types[s].fields[lo + 1..]);
          if isEos {
            stop := true;
            RunEnds(db0, s, lo, hi, d, count);
            AfterMoveIs(db0, s, lo, hi, d, delta);
          } else {
            SortedIn(Moved(db0, s, lo, count, count, d, delta), d);
            var inserted := InsertFieldAt(d, f, base2 + (f.key - base));
          }
          count := count + 1;
        }
      }
      if !stop {
        RunEnds(db0, s, lo, hi, d, count);
        AfterMoveIs(db0, s, lo, hi, d, delta);
      }
      RelocatedKeepsValid(db0, s, lo, hi, d, base, base2);
      RelocatedFrom(db0, s, lo, hi, d, base, base2);
      WithOldEosIs(db0, types, d, Size(types, d), base2);
      SortedIn(types, d);
      ghost var db1 := types;
      assert Relocated(db0, s, lo, hi, d, base, base2) == WithOldEos(db0, db1, d, Size(db1, d), base2);
      if eos.Some? {
        var newSize := Size(types, d);
        if 0 < newSize < oldSize {
          var inserted := InsertFieldAt(d, eos.value, base2 + oldSize);
        }
      }
    }

    // ------------------------------------------------------------------ sizes

    /** Fixes the size of a structure: moves its end marker, or adds one. */
    method SetStrucSize(t: TypeId, size: nat, force: bool) returns (ok: bool)
      requires Valid(types) && IsContainer(types, t)
      modifies this
      ensures ok == SetsSize(old(types), t, size, force)
      ensures types == SizeSet(old(types), t, size, force)
      ensures Valid(types)
    {
      hide Closed, Acyclic, AllSorted, InsertUnique, FieldSize;
      SizeSetValid(types, t, size, force);
      var m, base := types[t].fields, types[t].base;
      var n := |m|;
      var hasEos := !types[t].kind.Seg? && HasMarker(m);
      if m != [] {
        if hasEos {
          n := n - 1;
        }
        if n > 0 && size <= m[n - 1].key - base {
          return false;
        }
        if hasEos {
          if size == m[n].key - base {
            return false;
          }
          types := WithFields(types, t, InsertUnique(m[..n], m[n].(key := base + size)).0);
          return true;
        }
        if !force && n > 0 {
          var fsz := FieldSize(types, t, n - 1);
          if fsz == 0 {
            fsz := 1;
          }
          if fsz > 0 && m[n - 1].key + fsz == size {
            return false;
          }
        }
      }
      if !(base + size > 0) {
        return false;
      }
      types := WithFields(types, t, InsertUnique(m, Eos(base + size)).0);
      return true;
    }

    /** Changes the size of a structure that may sit in an outer container. */
    method ResizeStruc(self: TypeId, newSize: nat, outer: Option<Place>, force: bool) returns (ok: bool)
      requires CanResize(types, self, newSize, outer)
      modifies this
      ensures types == Resized(old(types), self, newSize, outer, force)
      ensures ok == ResizeReports(old(types), self, newSize, outer, force)
      ensures Valid(types)
    {
      hide Closed, Acyclic, AllSorted, Relocated, SizeSet, SetsSize;
      ok := false;
      ghost var db0 := types;
      if outer.Some? {
        var place := outer.value;
        var cur := Size(types, self);
        var m, base := types[self].fields, types[self].base;
        if cur == -1 && m != [] {
          cur := m[|m| - 1].key - base + 1;
        } else if cur < 0 {
          cur := cur + ADDR_LIMIT;
        }
        if newSize == cur && !force {
          return false;
        }
        ExchangedKeeps(types, self, newSize, place);
        if newSize > cur && newSize > 0 {
          var lo, hi := OuterLo(types, place), OuterHi(types, newSize, place);
          var count := RelocateFields(place.cont, lo, hi, self, place.addr, base);
          ok := count > 0;
        } else if newSize < cur {
          var count := RelocateFields(self, InnerLo(types, self, newSize), |m|, place.cont, base, place.addr);
          ok := count > 0;
        }
      }
      var fixed := SetStrucSize(self, newSize, force);
      ok := ok || fixed;
    }

    // ------------------------------------------------------------------ sweeping

    /** The first field from `i` on that a procedure may not absorb, or that lies beyond `end`. */
    method FindUpperLabel(seg: TypeId, i: nat, end: int) returns (r: nat)
      requires Closed(types) && Acyclic(types) && seg in types && i <= |types[seg].fields|
      ensures r == UpperLabel(types, seg, i, end)
    {
      r := i;
      var m := types[seg].fields;
      while r < |m|
        invariant i <= r <= |m|
        invariant UpperLabel(types, seg, r, end) == UpperLabel(types, seg, i, end)
      {
        if IsEos(types, seg, r) || m[r].key >= end || !CanBeAbsorbed(types, m[r]) {
          break;
        }
        r := r + 1;
      }
    }

    /** Absorbs the labels behind the procedure's field into the procedure; `end` is where the
        sweep of its code stopped. */
    method SweepProc(seg: TypeId, at: nat, end: int, p: TypeId)
      requires seg in types && at < |types[seg].fields| && CanSweep(types, seg, at + 1, p)
      modifies this
      ensures types == Swept(old(types), seg, at + 1, end, p)
      ensures Valid(types)
    {
      SweepRun(types, seg, at + 1, end, p);
      var up := FindUpperLabel(seg, at + 1, end);
      var count := RelocateFields(seg, at + 1, up, p, types[p].base, types[p].base);
    }
  }
}
