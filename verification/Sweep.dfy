/** Absorbing the labels that follow a procedure (`FindUpperLabel`, `SweepProc`), and what
    happens to the end marker of a target structure. */
module Sweep {
  import opened Wrappers
  import opened FieldMaps
  import opened TypeDb
  import opened Containment
  import opened Relocation
  import opened Resize
  import opened RoundTrip
  import opened Sizes

  /** May a procedure swallow the label? (`CanBeAbsorbedByFunc`) */
  predicate CanBeAbsorbed(db: Db, f: Field)
    requires Closed(db) && Acyclic(db)
  {
    && (f.typ.Some? ==>
          var t := f.typ.value;
          && t in db
          && (db[Direct(db, t)].kind.Simple? || db[t].kind.Code?)
          && !db[t].kind.Import?)
    && !f.exported
    && !f.userData
  }

  /** The first field from `i` on that is beyond `end` or may not be absorbed. */
  function UpperLabel(db: Db, seg: TypeId, i: nat, end: int): (r: nat)
    requires Closed(db) && Acyclic(db) && seg in db && i <= |db[seg].fields|
    ensures i <= r <= |db[seg].fields|
    ensures forall j :: i <= j < r ==>
              !IsEos(db, seg, j) && db[seg].fields[j].key < end && CanBeAbsorbed(db, db[seg].fields[j])
    ensures r < |db[seg].fields| ==>
              IsEos(db, seg, r) || end <= db[seg].fields[r].key || !CanBeAbsorbed(db, db[seg].fields[r])
    decreases |db[seg].fields| - i
  {
    var m := db[seg].fields;
    if i == |m| || IsEos(db, seg, i) || m[i].key >= end || !CanBeAbsorbed(db, m[i]) then i
    else UpperLabel(db, seg, i + 1, end)
  }

  /** What a procedure may absorb always passes the relocation test. */
  lemma AbsorbableIsEligible(db: Db, f: Field, p: TypeId)
    requires Closed(db) && Acyclic(db) && p in db && db[p].kind.Proc?
    requires CanBeAbsorbed(db, f)
    ensures Eligible(db, f, p)
  {
  }

  /** What may be absorbed is simple or code: nothing is inside that could hide the procedure. */
  lemma AbsorbableIsUnmasked(db: Db, f: Field, p: TypeId)
    requires Closed(db) && Acyclic(db) && p in db && db[p].kind.Proc? && CanBeAbsorbed(db, f)
    ensures Unmasked(db, f, p)
  {
    if f.typ.Some? { NothingHidden(db, f.typ.value, p); }
  }

  lemma NothingHidden(db: Db, u: TypeId, p: TypeId)
    requires Closed(db) && Acyclic(db) && u in db && p in db && db[p].kind.Proc?
    requires db[Direct(db, u)].kind.Simple? || db[u].kind.Code?
    ensures forall w :: Hides(db, w, p) ==> !Includes(db, w, SkipArray(db, u))
  {
    assert SkipArray(db, u) == u;
    assert InfoOk(db, u) && !Hides(db, Direct(db, u), p);
    assert !Hides(db, u, p);
    forall w | Hides(db, w, p) ensures !Includes(db, w, u) {
      NothingInside(db, u, w);
    }
  }

  ghost predicate CanSweep(db: Db, seg: TypeId, i: nat, p: TypeId) {
    && Valid(db) && IsContainer(db, seg) && IsContainer(db, p) && seg != p && i <= |db[seg].fields|
    && db[seg].kind.Seg? && db[p].kind.Proc?
  }

  lemma SweepRun(db: Db, seg: TypeId, i: nat, end: int, p: TypeId)
    requires CanSweep(db, seg, i, p)
    ensures var up := UpperLabel(db, seg, i, end);
            && CanRelocate(db, seg, i, up, p)
            && EligibleRun(db, seg, i, up, p) == up - i == GoneCount(db, seg, i, up, p)
  {
    hide Eligible, Unmasked;
    var up := UpperLabel(db, seg, i, end);
    forall j | i <= j < up
      ensures !IsEos(db, seg, j) && Eligible(db, db[seg].fields[j], p) && Unmasked(db, db[seg].fields[j], p)
    {
      AbsorbableIsEligible(db, db[seg].fields[j], p);
      AbsorbableIsUnmasked(db, db[seg].fields[j], p);
    }
    EligibleRunFull(db, seg, i, up, p, up - i);
  }

  /** The database after `SweepProc`: `i` is the position of the first label behind the
      procedure's field, `end` the address where the swept code ends. */
  ghost function Swept(db: Db, seg: TypeId, i: nat, end: int, p: TypeId): Db
    requires CanSweep(db, seg, i, p)
  {
    SweepRun(db, seg, i, end, p);
    Relocated(db, seg, i, UpperLabel(db, seg, i, end), p, db[p].base, db[p].base)
  }

  lemma {:induction false} ShiftByZero(fs: seq<Field>)
    ensures ShiftAll(fs, 0) == fs
  {
    forall i | 0 <= i < |fs| ensures ShiftAll(fs, 0)[i] == fs[i] {}
  }

  /** The relocation never stops early: the segment loses exactly the maximal run of absorbable
      labels below `end`, and, when their addresses are free in the procedure, the procedure
      gains exactly these, at unchanged addresses. */
  lemma SweepAbsorbsWholeRun(db: Db, seg: TypeId, i: nat, end: int, p: TypeId)
    requires CanSweep(db, seg, i, p)
    ensures var up := UpperLabel(db, seg, i, end);
            var m := db[seg].fields;
            var db' := Swept(db, seg, i, end, p);
            && Apart(db, db', seg, p)
            && db'[seg].fields == m[..i] + m[up..]
            && (Free(Members(db, p), m[i..up]) ==>
                  forall f: Field | f.Real() ::
                    Count(db'[p].fields, f) == Count(db[p].fields, f) + Count(m[i..up], f))
  {
    hide Closed, Acyclic, AllSorted, Eligible, EligibleRun, InsertAll, InsertUnique, Free, Count;
    var up := UpperLabel(db, seg, i, end);
    SweepRun(db, seg, i, end, p);
    SweptArrivals(db, seg, i, up, p);
    TargetConserved(db, seg, i, up, p, db[p].base, db[p].base);
    SourceLeft(db, seg, i, up, p);
  }

  lemma SourceLeft(db: Db, seg: TypeId, i: nat, up: nat, p: TypeId)
    requires CanRelocate(db, seg, i, up, p)
    requires EligibleRun(db, seg, i, up, p) == up - i == GoneCount(db, seg, i, up, p)
    ensures var db' := Relocated(db, seg, i, up, p, db[p].base, db[p].base);
            Apart(db, db', seg, p) && db'[seg].fields == db[seg].fields[..i] + db[seg].fields[up..]
  {
    hide Closed, Acyclic, AllSorted, EligibleRun, InsertAll, InsertUnique, Relocated, WithOldEos, Count;
    var db1 := RelocatedIs(db, seg, i, up, p, db[p].base, db[p].base, up - i, up - i);
    OldEosKeepsReal(db, db1, p, Size(db1, p), db[p].base);
    assert i + (up - i) == up;
  }

  /** The absorbed labels arrive as they are. */
  lemma SweptArrivals(db: Db, seg: TypeId, i: nat, up: nat, p: TypeId)
    requires CanRelocate(db, seg, i, up, p) && EligibleRun(db, seg, i, up, p) == up - i
    ensures Arrivals(db, seg, i, up, p, 0) == db[seg].fields[i..up]
  {
    ShiftByZero(db[seg].fields[i..up]);
  }

  // ------------------------------------------------------------------ the target's marker

  lemma InsertedBelowTop(m: seq<Field>, f: Field) returns (i: nat)
    requires Sorted(m) && m != [] && f.key < m[|m| - 1].key
    ensures InsertUnique(m, f).0 == m || InsertedAt(m, InsertUnique(m, f).0, i, f)
  {
    i := LowerBound(m, f.key);
  }

  lemma InsertedAtTop(m: seq<Field>, f: Field)
    requires Sorted(m) && m != [] && f.key == m[|m| - 1].key
    ensures || InsertUnique(m, f).0 == m
            || (InsertUnique(m, f).0 == m[..|m| - 1] + [f] && forall i :: 0 <= i < |m| - 1 ==> m[i].key < f.key)
  {
    var i := LowerBound(m, f.key);
    if i == |m| - 1 { assert m[i := f] == m[..i] + [f]; }
  }

  lemma MarkedSize(db: Db, d: TypeId, front: seq<Field>, eos: Field)
    requires Closed(db) && Acyclic(db) && IsContainer(db, d) && !db[d].kind.Seg?
    requires db[d].fields == front + [eos] && !eos.Real() && forall f :: f in front ==> f.key < eos.key
    ensures Size(db, d) == eos.key - db[d].base
  {
    assert front != [] ==> front[0] in front;
  }

  /** Whatever the address of a marker that is inserted in a structure of known size: it fixes the
      size, or the size stays, or none is left. */
  lemma MarkerFixesOrNot(db: Db, db': Db, d: TypeId, eos: Field)
    requires Valid(db) && IsContainer(db, d) && !db[d].kind.Seg? && Size(db, d) > 0 && !eos.Real()
    requires db' == WithFields(db, d, InsertUnique(db[d].fields, eos).0) && Closed(db') && Acyclic(db')
    ensures Size(db', d) == eos.key - db[d].base || Size(db', d) == Size(db, d) || Size(db', d) <= 0
    ensures db[d].fields[|db[d].fields| - 1].key < eos.key ==> Size(db', d) == eos.key - db[d].base
  {
    hide Closed, Acyclic, AllSorted, InsertUnique, GroupSize, MaxSize;
    var m := db[d].fields;
    SortedIn(db, d);
    if m[|m| - 1].key < eos.key {
      AppendEos(m, eos);
      MarkedSize(db', d, m, eos);
    } else if m[|m| - 1].key == eos.key {
      InsertedAtTop(m, eos);
      if db'[d].fields == m {
        assert db' == db;
      } else {
        MarkedSize(db', d, m[..|m| - 1], eos);
      }
    } else {
      var i := InsertedBelowTop(m, eos);
      if db'[d].fields == m {
        assert db' == db;
      } else {
        SizeInserted(db, db', d, i, eos);
      }
    }
  }

  lemma TopBelowSize(db: Db, d: TypeId)
    requires Valid(db) && IsContainer(db, d) && !db[d].kind.Seg? && Size(db, d) > 0
    ensures db[d].fields != [] && db[d].fields[|db[d].fields| - 1].key <= db[d].base + Size(db, d)
  {
  }

  /** The same for the old end marker, put back relative to `base2` or not. */
  lemma OldMarkerRestores(db: Db, db1: Db, db': Db, d: TypeId, base2: int)
    requires d in db && HasMarker(db[d].fields) && !db[d].kind.Seg?
    requires Valid(db1) && IsContainer(db1, d) && !db1[d].kind.Seg? && db1[d].base == db[d].base
    requires db' == WithOldEos(db, db1, d, Size(db1, d), base2) && Closed(db') && Acyclic(db') && d in db'
    ensures var size, oldSize := Size(db1, d), db[d].fields[|db[d].fields| - 1].key - db[d].base;
            Size(db', d) == oldSize <==> size == oldSize || (0 < size < oldSize && base2 == db[d].base)
  {
    hide Closed, Acyclic, AllSorted, InsertUnique, Size;
    var eos := db[d].fields[|db[d].fields| - 1];
    var oldSize := eos.key - db[d].base;
    if 0 < Size(db1, d) < oldSize {
      TopBelowSize(db1, d);
      MarkerFixesOrNot(db1, db', d, eos.(key := base2 + oldSize));
    }
  }

  /** The old end marker of a structure comes back when the relocation leaves it smaller than
      its old fixed size, but neither empty nor open; its offset is then counted from `base2`. So
      the structure has its old size afterwards if and only if the moved fields give it, or the
      marker comes back and `base2` is the base of the structure. Shrinking a structure inside a
      plain structure, at a nonzero offset, passes another `base2`. */
  lemma OldEosRestoredIff(db: Db, s: TypeId, lo: nat, hi: nat, d: TypeId, base: int, base2: int)
    requires CanRelocate(db, s, lo, hi, d) && !db[d].kind.Seg? && HasMarker(db[d].fields)
    ensures Valid(Relocated(db, s, lo, hi, d, base, base2)) && d in Relocated(db, s, lo, hi, d, base, base2)
    ensures var size := Size(AfterMove(db, s, lo, hi, d, base2 - base), d);
            var oldSize := db[d].fields[|db[d].fields| - 1].key - db[d].base;
            Size(Relocated(db, s, lo, hi, d, base, base2), d) == oldSize
            <==> size == oldSize || (0 < size < oldSize && base2 == db[d].base)
  {
    hide Closed, Acyclic, AllSorted, AfterMove, Relocated, EligibleRun, WithOldEos, Size;
    RelocatedKeepsValid(db, s, lo, hi, d, base, base2);
    RelocatedFrom(db, s, lo, hi, d, base, base2);
    var db1 := AfterMove(db, s, lo, hi, d, base2 - base);
    OldMarkerRestores(db, db1, Relocated(db, s, lo, hi, d, base, base2), d, base2);
  }

  lemma ExportedStays(db: Db, s: TypeId, lo: nat, hi: nat, d: TypeId)
    requires Valid(db) && IsContainer(db, s) && IsContainer(db, d) && s != d
    requires lo < hi <= |db[s].fields| && db[s].fields[lo].exported
    ensures !Eligible(db, db[s].fields[lo], d)
    ensures EligibleRun(db, s, lo, hi, d) == 0 && CanRelocate(db, s, lo, hi, d)
  {
    hide Closed, Acyclic, AllSorted;
  }

  lemma NothingMoves(db: Db, s: TypeId, lo: nat, hi: nat, d: TypeId, delta: int)
    requires CanRelocate(db, s, lo, hi, d) && lo < hi && db[s].fields[lo].exported && !IsEos(db, s, lo)
    ensures AfterMove(db, s, lo, hi, d, delta) == WithFields(db, d, Members(db, d))
  {
    hide Closed, Acyclic, AllSorted, Moved, Unmasked;
    AfterMoveIs(db, s, lo, hi, d, delta);
    MovedNothing(db, s, lo, d, delta);
  }

  /** A structure with nothing but a marker, into which nothing may move, loses its size. */
  lemma EmptiedLosesSize(db: Db, s: TypeId, lo: nat, hi: nat, d: TypeId, base: int, base2: int)
    requires CanRelocate(db, s, lo, hi, d) && !db[d].kind.Seg? && Members(db, d) == []
    requires lo < hi && db[s].fields[lo].exported && !IsEos(db, s, lo)
    ensures var db' := Relocated(db, s, lo, hi, d, base, base2); Valid(db') && d in db' && Size(db', d) == 0
  {
    hide Unmasked, Closed, Acyclic, AllSorted, AfterMove, Relocated, Size, WithOldEos, InsertUnique, Members;
    RelocatedKeepsValid(db, s, lo, hi, d, base, base2);
    RelocatedFrom(db, s, lo, hi, d, base, base2);
    NothingMoves(db, s, lo, hi, d, base2 - base);
    EmptiedIsSmall(db, AfterMove(db, s, lo, hi, d, base2 - base), Relocated(db, s, lo, hi, d, base, base2), d, base2);
  }

  lemma EmptiedIsSmall(db: Db, db1: Db, db2: Db, d: TypeId, base2: int)
    requires IsContainer(db, d) && !db[d].kind.Seg? && db1 == WithFields(db, d, [])
    requires Closed(db1) && Acyclic(db1) && Closed(db2) && Acyclic(db2)
    requires db2 == WithOldEos(db, db1, d, Size(db1, d), base2)
    ensures Size(db2, d) == 0
  {
    hide Closed, Acyclic, Size, InsertUnique;
    EmptySize(db1, d);
  }

  /** A segment with an exported label, and a structure of fixed size with nothing in it. */
  function Hollow(): Db {
    map[0 := TypeInfo(Seg(-1, 0, 0), 0, [Field(0, 4, None, true, true, false)]),
        1 := TypeInfo(Struc, 0, [Field(1, 10, None, false, false, false)])]
  }

  lemma HollowRanked()
    ensures Closed(Hollow()) && Acyclic(Hollow())
  {
    hide Acyclic;
    forall t | t in Hollow() ensures InfoOk(Hollow(), t) {}
    AcyclicByRank(Hollow(), map[0 := 0, 1 := 0]);
  }

  lemma HollowValid()
    ensures Valid(Hollow()) && Size(Hollow(), 1) == 10
  {
    hide Size, Closed, Acyclic;
    HollowRanked();
    MarkedSize(Hollow(), 1, [], Hollow()[1].fields[0]);
  }

  /** That happens at its own base, too. */
  lemma EmptiedAtBase() returns (db: Db)
    ensures CanRelocate(db, 0, 0, 1, 1) && HasMarker(db[1].fields) && db[1].base == 0 && Size(db, 1) == 10
    ensures var db' := Relocated(db, 0, 0, 1, 1, 0, 0); Valid(db') && 1 in db' && Size(db', 1) == 0
  {
    hide Size, Eligible, Unmasked, Closed, Acyclic, AllSorted, Relocated, CanRelocate;
    db := Hollow();
    HollowValid();
    ExportedStays(db, 0, 0, 1, 1);
    assert Members(db, 1) == [] && !IsEos(db, 0, 0);
    EmptiedLosesSize(db, 0, 0, 1, 1, 0, 0);
  }
}
