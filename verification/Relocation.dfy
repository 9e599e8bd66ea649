/** Moving a run of fields from one container to another (`RelocateFields`): which fields
    go, where they end up, and what the move cannot break. */
module Relocation {
  import opened Wrappers
  import opened FieldMaps
  import opened TypeDb
  import opened Containment

  ghost predicate AllSorted(db: Db) {
    forall t {:trigger Sorted(db[t].fields)} :: t in db ==> Sorted(db[t].fields)
  }

  ghost predicate Valid(db: Db) {
    Closed(db) && Acyclic(db) && AllSorted(db)
  }

  predicate IsContainer(db: Db, t: TypeId) {
    t in db && db[t].kind.StrucLike()
  }

  /** The end-of-structure marker: the last field of a non-segment, without type and name. */
  predicate IsEos(db: Db, t: TypeId, i: nat)
    requires t in db && i < |db[t].fields|
  {
    !db[t].kind.Seg? && IsMarkerAt(db[t].fields, i)
  }

  /** The fields of a container without its end marker. */
  function Members(db: Db, t: TypeId): seq<Field>
    requires t in db
  {
    if db[t].kind.Seg? then db[t].fields else Strip(db[t].fields)
  }

  /** May the field move into `d`? (`CheckRelocEligability`) */
  ghost predicate Eligible(db: Db, f: Field, d: TypeId)
    requires Closed(db) && Acyclic(db) && d in db
  {
    && !f.exported
    && (f.typ.Some? ==>
          var t := f.typ.value;
          && t in db
          && !db[t].kind.Import?
          && t != d
          && !db[t].kind.Seg? && !db[t].kind.Proc?
          && (db[t].kind.Code? ==> db[d].kind.Proc? || db[d].kind.Seg?)
          && (!db[t].kind.Code? ==>
                var u := SkipArray(db, t);
                db[Direct(db, u)].kind.Simple? || !Includes(db, d, u)))
  }

  /** Length of the longest run of movable fields of `s` from `lo` on, below `hi`. */
  ghost function EligibleRun(db: Db, s: TypeId, lo: nat, hi: nat, d: TypeId): (n: nat)
    requires Closed(db) && Acyclic(db) && s in db && d in db && lo <= hi <= |db[s].fields|
    ensures lo + n <= hi
    ensures forall i :: lo <= i < lo + n ==> !IsEos(db, s, i) && Eligible(db, db[s].fields[i], d)
    ensures lo + n < hi ==> IsEos(db, s, lo + n) || !Eligible(db, db[s].fields[lo + n], d)
    decreases hi - lo
  {
    if lo < hi && !IsEos(db, s, lo) && Eligible(db, db[s].fields[lo], d)
    then 1 + EligibleRun(db, s, lo + 1, hi, d)
    else 0
  }

  /** The containers after `n` fields have moved by `delta` and `gone` fields have left. */
  function Moved(db: Db, s: TypeId, lo: nat, n: nat, gone: nat, d: TypeId, delta: int): Db
    requires s in db && d in db && s != d
    requires n <= gone && lo + gone <= |db[s].fields|
  {
    var src := db[s].fields;
    db[s := db[s].(fields := src[..lo] + src[lo + gone..])]
      [d := db[d].(fields := InsertAll(Members(db, d), ShiftAll(src[lo..lo + n], delta)))]
  }

  lemma {:induction false} InsertAllMembers(m: seq<Field>, fs: seq<Field>)
    ensures forall f :: f in InsertAll(m, fs) ==> f in m || f in fs
  {
    if fs != [] {
      var front, last := fs[..|fs| - 1], fs[|fs| - 1];
      InsertAllMembers(m, front);
      var m1 := InsertAll(m, front);
      var i := LowerBound(m1, last.key);
      assert m1 == m1[..i] + m1[i..];
      if i < |m1| { assert m1[i := last] == m1[..i] + [last] + m1[i + 1..]; }
    }
  }

  /** Nothing that hides `d` is included in the type of the field. */
  ghost predicate Unmasked(db: Db, f: Field, d: TypeId)
    requires Closed(db) && Acyclic(db)
  {
    f.typ.Some? && f.typ.value in db ==>
      forall w :: Hides(db, w, d) ==> !Includes(db, w, SkipArray(db, f.typ.value))
  }

  lemma NothingInside(db: Db, u: TypeId, o: TypeId)
    requires Closed(db) && Acyclic(db) && u in db
    requires db[Direct(db, u)].kind.Simple? || db[Direct(db, u)].kind.Code?
    ensures Includes(db, o, u) <==> o == u
  {
    assert FieldsOf(db, u) == [];
  }

  /** What may move into `d` contains `d` exactly if it includes something that hides `d`: the
      test compares types by identity. */
  lemma EligibleReachesIff(db: Db, f: Field, d: TypeId)
    requires Closed(db) && Acyclic(db) && IsContainer(db, d)
    requires f.typ.Some? && f.typ.value in db && Eligible(db, f, d)
    ensures Reaches(db, f.typ.value, d) <==> !Unmasked(db, f, d)
  {
    var t := f.typ.value;
    var u := SkipArray(db, t);
    if db[t].kind.Code? || db[Direct(db, u)].kind.Simple? {
      NothingInside(db, u, d);
    }
    hide Includes, Hides, Reaches;
    assert !Includes(db, d, u);
    if !Unmasked(db, f, d) {
      var w :| Hides(db, w, d) && Includes(db, w, u);
      ShownReaches(db, d, t, w);
    }
    InclusionIsContainment(db, d, t);
    if Reaches(db, t, d) {
      var w :| (w == d || Hides(db, w, d)) && Includes(db, w, u);
    }
  }

  /** A typed field may move into a container, and does not hide it, exactly
      if it is not exported, is neither an import, a segment nor a procedure, is code only for a
      segment or a procedure, and does not contain the container. */
  lemma EligibleIff(db: Db, f: Field, d: TypeId)
    requires Closed(db) && Acyclic(db) && IsContainer(db, d)
    requires f.typ.Some? && f.typ.value in db
    ensures Eligible(db, f, d) && Unmasked(db, f, d) <==>
              var kind := db[f.typ.value].kind;
              && !f.exported && !kind.Import? && !kind.Seg? && !kind.Proc?
              && (kind.Code? ==> db[d].kind.Proc? || db[d].kind.Seg?)
              && !Reaches(db, f.typ.value, d)
  {
    hide Includes, Acyclic;
    var t := f.typ.value;
    if Eligible(db, f, d) {
      EligibleReachesIff(db, f, d);
    }
    if !Reaches(db, t, d) {
      ReachesSelf(db, d);
      InclusionIsContainment(db, d, t);
      assert forall w :: w == d && Includes(db, w, SkipArray(db, t)) ==> w == d || Hides(db, w, d);
      assert !Includes(db, d, SkipArray(db, t));
    }
  }

  /** Same types of the same nature; only the fields may differ. */
  ghost predicate SameShape(db: Db, db': Db) {
    && db'.Keys == db.Keys
    && forall t :: t in db ==> db'[t].kind == db[t].kind && db'[t].base == db[t].base
  }

  lemma {:induction false} PathSame(db: Db, db': Db, p: seq<TypeId>, s: TypeId, d: TypeId)
    requires IsPath(db', p) && SameShape(db, db')
    requires forall x :: x in db && x != s && x != d ==> db'[x] == db[x]
    requires !Reaches(db, p[0], s) && !Reaches(db, p[0], d)
    ensures Reaches(db, p[0], p[|p| - 1])
    decreases |p|
  {
    ReachesSelf(db, p[0]);
    if |p| > 1 {
      var q := p[1..];
      assert Edge(db', p[0], p[1]);
      assert Edge(db, p[0], p[1]);
      forall i | 0 <= i < |q| - 1 ensures Edge(db', q[i], q[i + 1]) {
        assert Edge(db', p[i + 1], p[i + 2]);
      }
      forall x | Reaches(db, p[1], x) ensures Reaches(db, p[0], x) { ReachesStep(db, p[0], p[1], x); }
      PathSame(db, db', q, s, d);
    }
  }

  /** A type that contains neither of the two changed containers contains what it did before. */
  lemma ReachesSame(db: Db, db': Db, t: TypeId, u: TypeId, s: TypeId, d: TypeId)
    requires SameShape(db, db')
    requires forall x :: x in db && x != s && x != d ==> db'[x] == db[x]
    requires !Reaches(db, t, s) && !Reaches(db, t, d) && Reaches(db', t, u)
    ensures Reaches(db, t, u)
  {
    var p :| PathFromTo(db', p, t, u);
    PathSame(db, db', p, s, d);
  }

  lemma MovedMembers(db: Db, s: TypeId, lo: nat, n: nat, gone: nat, d: TypeId, delta: int, f: Field)
    requires s in db && d in db && s != d
    requires n <= gone && lo + gone <= |db[s].fields|
    requires f in Moved(db, s, lo, n, gone, d, delta)[d].fields
    ensures f in db[d].fields || exists i :: lo <= i < lo + n && f == db[s].fields[i].Shift(delta)
  {
    var src := db[s].fields;
    var fs := ShiftAll(src[lo..lo + n], delta);
    InsertAllMembers(Members(db, d), fs);
    if f in fs {
      var i :| 0 <= i < n && fs[i] == f;
      assert f == src[lo + i].Shift(delta);
    }
  }

  lemma MovedClosed(db: Db, s: TypeId, lo: nat, n: nat, gone: nat, d: TypeId, delta: int)
    requires Closed(db) && IsContainer(db, s) && IsContainer(db, d) && s != d
    requires n <= gone && lo + gone <= |db[s].fields|
    ensures Closed(Moved(db, s, lo, n, gone, d, delta))
  {
    var db' := Moved(db, s, lo, n, gone, d, delta);
    assert InfoOk(db, s) && InfoOk(db, d);
    forall f | f in db'[d].fields && f.typ.Some? ensures f.typ.value in db {
      MovedMembers(db, s, lo, n, gone, d, delta, f);
      if f !in db[d].fields {
        var i :| lo <= i < lo + n && f == db[s].fields[i].Shift(delta);
        assert db[s].fields[i] in db[s].fields;
      }
    }
    assert forall f :: f in db'[s].fields ==> f in db[s].fields;
    forall t | t in db' ensures InfoOk(db', t) {
      assert InfoOk(db, t);
    }
  }

  lemma MovedEdges(db: Db, s: TypeId, lo: nat, n: nat, gone: nat, d: TypeId, delta: int, t: TypeId, u: TypeId)
    requires Closed(db) && Acyclic(db) && IsContainer(db, s) && IsContainer(db, d) && s != d
    requires n <= gone && lo + gone <= |db[s].fields|
    requires forall i :: lo <= i < lo + n ==> Eligible(db, db[s].fields[i], d) && Unmasked(db, db[s].fields[i], d)
    requires Edge(Moved(db, s, lo, n, gone, d, delta), t, u)
    ensures Edge(db, t, u) || (t == d && u in db && !Reaches(db, u, d))
  {
    var db' := Moved(db, s, lo, n, gone, d, delta);
    if HasFieldOf(db', t, u) {
      var f :| f in db'[t].fields && f.typ == Some(u);
      if t == d && f !in db[d].fields {
        MovedMembers(db, s, lo, n, gone, d, delta, f);
        var i :| lo <= i < lo + n && f == db[s].fields[i].Shift(delta);
        EligibleReachesIff(db, db[s].fields[i], d);
      } else {
        assert HasFieldOf(db, t, u);
      }
    }
  }

  /** A move of eligible fields in which nothing that hides the target is included keeps the database
      valid: no recursion appears. */
  lemma MovedKeeps(db: Db, s: TypeId, lo: nat, n: nat, gone: nat, d: TypeId, delta: int)
    requires Valid(db) && IsContainer(db, s) && IsContainer(db, d) && s != d
    requires n <= gone && lo + gone <= |db[s].fields|
    requires forall i :: lo <= i < lo + n ==> Eligible(db, db[s].fields[i], d) && Unmasked(db, db[s].fields[i], d)
    ensures Valid(Moved(db, s, lo, n, gone, d, delta))
    ensures SameShape(db, Moved(db, s, lo, n, gone, d, delta))
  {
    var db' := Moved(db, s, lo, n, gone, d, delta);
    MovedClosed(db, s, lo, n, gone, d, delta);
    forall t: TypeId, u: TypeId | Edge(db', t, u)
      ensures Edge(db, t, u) || (t == d && u in db && !Reaches(db, u, d))
    {
      MovedEdges(db, s, lo, n, gone, d, delta, t, u);
    }
    AddedEdgesStayAcyclic(db, db', d);
    MovedSorted(db, s, lo, n, gone, d, delta);
  }

  lemma ArrivalsPresent(db: Db, s: TypeId, lo: nat, n: nat, gone: nat, d: TypeId, delta: int, f: Field)
    requires AllSorted(db) && s in db && d in db && s != d && n <= gone && lo + gone <= |db[s].fields|
    requires Free(Members(db, d), ShiftAll(db[s].fields[lo..lo + n], delta))
    ensures f in Members(db, d) || f in ShiftAll(db[s].fields[lo..lo + n], delta)
            ==> f in Moved(db, s, lo, n, gone, d, delta)[d].fields
  {
    hide InsertAll, ShiftAll, AllSorted;
    var m, fs := Members(db, d), ShiftAll(db[s].fields[lo..lo + n], delta);
    MembersSorted(db, d);
    FreeConserves(m, fs);
    assert f in multiset(m) + multiset(fs) ==> f in multiset(InsertAll(m, fs));
  }

  lemma {:induction false} PathAvoids(db: Db, db': Db, p: seq<TypeId>, s: TypeId)
    requires IsPath(db, p) && db'.Keys == db.Keys && !Reaches(db, p[0], s)
    requires forall x, u :: x != s && Edge(db, x, u) ==> Edge(db', x, u)
    ensures IsPath(db', p)
    decreases |p|
  {
    if |p| > 1 {
      var q := p[1..];
      ReachesSelf(db, p[0]);
      assert Edge(db, p[0], p[1]);
      forall i | 0 <= i < |q| - 1 ensures Edge(db, q[i], q[i + 1]) {
        assert Edge(db, p[i + 1], p[i + 2]);
      }
      if Reaches(db, p[1], s) { ReachesStep(db, p[0], p[1], s); }
      PathAvoids(db, db', q, s);
      forall i | 0 <= i < |p| - 1 ensures Edge(db', p[i], p[i + 1]) {
        if i > 0 { assert Edge(db', q[i - 1], q[i]); }
      }
    }
  }

  lemma EdgesPersist(db: Db, s: TypeId, lo: nat, n: nat, gone: nat, d: TypeId, delta: int, x: TypeId, u: TypeId)
    requires AllSorted(db) && s in db && d in db && s != d && n <= gone && lo + gone <= |db[s].fields|
    requires Free(Members(db, d), ShiftAll(db[s].fields[lo..lo + n], delta))
    requires x != s && Edge(db, x, u)
    ensures Edge(Moved(db, s, lo, n, gone, d, delta), x, u)
  {
    hide AllSorted, Free, InsertAll, ShiftAll;
    if HasFieldOf(db, x, u) {
      var f :| f in db[x].fields && f.typ == Some(u);
      if x == d {
        TypedIsMember(db, d, f);
        ArrivalsPresent(db, s, lo, n, gone, d, delta, f);
      }
      assert HasFieldOf(Moved(db, s, lo, n, gone, d, delta), x, u);
    }
  }

  lemma TypedIsMember(db: Db, d: TypeId, f: Field)
    requires d in db && f in db[d].fields && f.typ.Some?
    ensures f in Members(db, d)
  {
    var m := db[d].fields;
    if HasMarker(m) { assert m == m[..|m| - 1] + [m[|m| - 1]]; }
  }

  /** A move of eligible fields to free addresses keeps containment acyclic if and only if nothing
      that hides the target is included in what moves. */
  lemma MovedAcyclicIff(db: Db, s: TypeId, lo: nat, n: nat, gone: nat, d: TypeId, delta: int)
    requires Valid(db) && IsContainer(db, s) && IsContainer(db, d) && s != d
    requires n <= gone && lo + gone <= |db[s].fields|
    requires forall i :: lo <= i < lo + n ==> Eligible(db, db[s].fields[i], d)
    requires Free(Members(db, d), ShiftAll(db[s].fields[lo..lo + n], delta))
    ensures Acyclic(Moved(db, s, lo, n, gone, d, delta))
            <==> forall i :: lo <= i < lo + n ==> Unmasked(db, db[s].fields[i], d)
  {
    hide AllSorted, Free, InsertAll, Includes, Eligible, Moved;
    if forall i :: lo <= i < lo + n ==> Unmasked(db, db[s].fields[i], d) {
      MovedKeeps(db, s, lo, n, gone, d, delta);
    } else {
      var i :| lo <= i < lo + n && !Unmasked(db, db[s].fields[i], d);
      MaskedRecursion(db, s, lo, n, gone, d, delta, i);
    }
  }

  lemma MaskedRecursion(db: Db, s: TypeId, lo: nat, n: nat, gone: nat, d: TypeId, delta: int, i: nat)
    requires Valid(db) && IsContainer(db, s) && IsContainer(db, d) && s != d
    requires n <= gone && lo + gone <= |db[s].fields| && lo <= i < lo + n
    requires Eligible(db, db[s].fields[i], d) && !Unmasked(db, db[s].fields[i], d)
    requires Free(Members(db, d), ShiftAll(db[s].fields[lo..lo + n], delta))
    ensures !Acyclic(Moved(db, s, lo, n, gone, d, delta))
  {
    hide AllSorted, Free, InsertAll, Includes, Eligible, Moved, Reaches, Closed;
    var db', f := Moved(db, s, lo, n, gone, d, delta), db[s].fields[i];
    var t := f.typ.value;
    EligibleReachesIff(db, f, d);
    FieldAvoids(db, s, f);
    forall x: TypeId, u: TypeId | x != s && Edge(db, x, u) ensures Edge(db', x, u) {
      EdgesPersist(db, s, lo, n, gone, d, delta, x, u);
    }
    PathInto(db, db', t, d, s, lo, n, gone, delta);
    ArrivedEdge(db, s, lo, n, gone, d, delta, i);
    assert Edge(db', d, t) && Reaches(db', t, d);
  }

  lemma PathInto(db: Db, db': Db, t: TypeId, d: TypeId, s: TypeId, lo: nat, n: nat, gone: nat, delta: int)
    requires s in db && d in db && s != d && n <= gone && lo + gone <= |db[s].fields|
    requires db' == Moved(db, s, lo, n, gone, d, delta)
    requires Reaches(db, t, d) && !Reaches(db, t, s)
    requires forall x, u :: x != s && Edge(db, x, u) ==> Edge(db', x, u)
    ensures Reaches(db', t, d)
  {
    hide InsertAll, ShiftAll;
    var p :| PathFromTo(db, p, t, d);
    PathAvoids(db, db', p, s);
    assert PathFromTo(db', p, t, d);
  }

  lemma ArrivedEdge(db: Db, s: TypeId, lo: nat, n: nat, gone: nat, d: TypeId, delta: int, i: nat)
    requires AllSorted(db) && s in db && d in db && s != d
    requires n <= gone && lo + gone <= |db[s].fields| && lo <= i < lo + n
    requires Free(Members(db, d), ShiftAll(db[s].fields[lo..lo + n], delta))
    requires db[s].fields[i].typ.Some? && db[s].fields[i].typ.value in db
    ensures Edge(Moved(db, s, lo, n, gone, d, delta), d, db[s].fields[i].typ.value)
  {
    hide AllSorted, Free, InsertAll;
    var fs, f := ShiftAll(db[s].fields[lo..lo + n], delta), db[s].fields[i].Shift(delta);
    assert fs[i - lo] == f;
    ArrivalsPresent(db, s, lo, n, gone, d, delta, f);
    assert HasFieldOf(Moved(db, s, lo, n, gone, d, delta), d, f.typ.value);
  }

  lemma MovedSorted(db: Db, s: TypeId, lo: nat, n: nat, gone: nat, d: TypeId, delta: int)
    requires AllSorted(db) && s in db && d in db && s != d
    requires n <= gone && lo + gone <= |db[s].fields|
    ensures AllSorted(Moved(db, s, lo, n, gone, d, delta))
  {
    SortedSplice(db[s].fields, lo, gone);
    MembersSorted(db, d);
    InsertAllSorted(Members(db, d), ShiftAll(db[s].fields[lo..lo + n], delta));
  }

  lemma MembersSorted(db: Db, d: TypeId)
    requires AllSorted(db) && d in db
    ensures Sorted(Members(db, d))
  {
    var m := db[d].fields;
    assert Sorted(m);
  }

  lemma SortedSplice(m: seq<Field>, lo: nat, gone: nat)
    requires Sorted(m) && lo + gone <= |m|
    ensures Sorted(m[..lo] + m[lo + gone..])
  {
    var r := m[..lo] + m[lo + gone..];
    forall i, j | 0 <= i < j < |r| ensures r[i].key <= r[j].key {
      var i', j' := if i < lo then i else i + gone, if j < lo then j else j + gone;
      assert r[i] == m[i'] && r[j] == m[j'];
    }
  }

  lemma {:induction false} DirectSame(db: Db, db': Db, t: TypeId)
    requires Closed(db) && Acyclic(db) && Closed(db') && Acyclic(db') && t in db
    requires SameShape(db, db')
    ensures Direct(db', t) == Direct(db, t)
    decreases Rank(db, t)
  {
    assert InfoOk(db, t);
    if db[t].kind.Wrapper() {
      RankFalls(db, t, db[t].kind.target);
      DirectSame(db, db', db[t].kind.target);
    }
  }

  lemma {:induction false} SkipArraySame(db: Db, db': Db, t: TypeId)
    requires Closed(db) && Acyclic(db) && Closed(db') && Acyclic(db') && t in db
    requires SameShape(db, db')
    ensures SkipArray(db', t) == SkipArray(db, t)
    decreases Rank(db, t)
  {
    DirectSame(db, db', t);
    if db[Direct(db, t)].kind.Array? {
      RankElem(db, t);
      SkipArraySame(db, db', db[Direct(db, t)].kind.elem);
    }
  }

  lemma WrapperHides(db: Db, t: TypeId, d: TypeId)
    requires Closed(db) && Acyclic(db) && t in db && t != d && Direct(db, t) == d
    ensures Hides(db, t, d)
  {
    assert InfoOk(db, t);
  }

  /** The inclusion test for `d` does not look at `s` or `d` itself, unless `s` or something that
      hides `d` is inside. */
  lemma {:induction false} NestedStable(db: Db, db': Db, t: TypeId, i: nat, s: TypeId, d: TypeId)
    requires Closed(db) && Acyclic(db) && Closed(db') && Acyclic(db') && t in db
    requires SameShape(db, db')
    requires forall x :: x in db && x != s && x != d ==> db'[x] == db[x]
    requires t != d && !Reaches(db, t, s) && i <= |FieldsOf(db, t)|
    requires forall w :: Hides(db, w, d) ==> w != t && !NestedFrom(db, t, i, w)
    ensures FieldsOf(db', t) == FieldsOf(db, t)
    ensures NestedFrom(db', t, i, d) <==> NestedFrom(db, t, i, d)
    decreases Rank(db, t), |FieldsOf(db, t)| - i
  {
    hide Acyclic, Closed, Reaches, Hides;
    if Direct(db, t) == d { WrapperHides(db, t, d); }
    SameFields(db, db', t, s, d);
    if i < |FieldsOf(db, t)| {
      var f := FieldsOf(db, t)[i];
      NestedStable(db, db', t, i + 1, s, d);
      if f.typ.Some? {
        var u := SkipArray(db, f.typ.value);
        SkipArraySame(db, db', f.typ.value);
        if u != d {
          RankField(db, t, f);
          if Reaches(db, u, s) { FieldTypeReaches(db, t, f, s); }
          forall w | Hides(db, w, d) ensures w != u && !NestedFrom(db, u, 0, w) {
            assert !Hit(db, t, f, w);
          }
          NestedStable(db, db', u, 0, s, d);
        }
        assert Hit(db', t, f, d) <==> Hit(db, t, f, d);
      }
    }
  }

  lemma SameFields(db: Db, db': Db, t: TypeId, s: TypeId, d: TypeId)
    requires Closed(db) && Acyclic(db) && Closed(db') && Acyclic(db') && t in db && SameShape(db, db')
    requires forall x :: x in db && x != s && x != d ==> db'[x] == db[x]
    requires Direct(db, t) != d && !Reaches(db, t, s)
    ensures FieldsOf(db', t) == FieldsOf(db, t)
  {
    DirectSame(db, db', t);
    DirectReached(db, t);
  }

  lemma NotInsideItself(db: Db, d: TypeId, i: nat)
    requires Closed(db) && Acyclic(db) && d in db && i <= |FieldsOf(db, d)| && !db[d].kind.Wrapper()
    ensures !NestedFrom(db, d, i, d)
  {
    hide Acyclic;
    NestedFromExists(db, d, i, d);
    forall j | i <= j < |FieldsOf(db, d)| ensures !Hit(db, d, FieldsOf(db, d)[j], d) {
      var f := FieldsOf(db, d)[j];
      if f.typ.Some? {
        RankField(db, d, f);
        RankDirect(db, d);
        if Includes(db, d, SkipArray(db, f.typ.value)) { IncludedIsLower(db, d, SkipArray(db, f.typ.value)); }
      }
    }
  }

  /** What includes `d` by identity still does after the move. */
  lemma {:induction false} NestedStays(db: Db, db': Db, t: TypeId, i: nat, s: TypeId, d: TypeId)
    requires Closed(db) && Acyclic(db) && Closed(db') && Acyclic(db') && t in db && IsContainer(db, d)
    requires SameShape(db, db')
    requires forall x :: x in db && x != s && x != d ==> db'[x] == db[x]
    requires !Reaches(db, t, s) && i <= |FieldsOf(db, t)| && NestedFrom(db, t, i, d)
    ensures FieldsOf(db', t) == FieldsOf(db, t) && NestedFrom(db', t, i, d)
    decreases Rank(db, t), |FieldsOf(db, t)| - i
  {
    hide Acyclic, Closed, Reaches;
    NestedDirect(db, t, i, d);
    if Direct(db, t) == d { NotInsideItself(db, d, i); }
    SameFields(db, db', t, s, d);
    var f := FieldsOf(db, t)[i];
    if NestedFrom(db, t, i + 1, d) {
      NestedStays(db, db', t, i + 1, s, d);
    } else {
      var u := SkipArray(db, f.typ.value);
      SkipArraySame(db, db', f.typ.value);
      if u != d {
        RankField(db, t, f);
        if Reaches(db, u, s) { FieldTypeReaches(db, t, f, s); }
        NestedStays(db, db', u, 0, s, d);
      }
      assert Hit(db', t, f, d);
    }
  }

  lemma FieldTypeReaches(db: Db, t: TypeId, f: Field, s: TypeId)
    requires Closed(db) && Acyclic(db) && t in db && f in FieldsOf(db, t) && f.typ.Some?
    requires Reaches(db, SkipArray(db, f.typ.value), s)
    ensures Reaches(db, t, s)
  {
    var c := Direct(db, t);
    SkipArrayReached(db, f.typ.value);
    ReachesTrans(db, f.typ.value, SkipArray(db, f.typ.value), s);
    assert HasFieldOf(db, c, f.typ.value);
    ReachesStep(db, c, f.typ.value, s);
    DirectReached(db, t);
    ReachesTrans(db, t, c, s);
  }

  /** Eligibility can be judged before the first field moves: earlier moves between `s` and
      `d` do not change the verdict on a later field of `s`, unless it includes
      something that hides `d` and was eligible. */
  lemma EligibleStable(db: Db, db': Db, f: Field, s: TypeId, d: TypeId)
    requires Closed(db) && Acyclic(db) && Closed(db') && Acyclic(db')
    requires IsContainer(db, s) && IsContainer(db, d)
    requires SameShape(db, db')
    requires forall x :: x in db && x != s && x != d ==> db'[x] == db[x]
    requires f in db[s].fields
    requires Eligible(db, f, d) ==> Unmasked(db, f, d)
    ensures Eligible(db', f, d) <==> Eligible(db, f, d)
  {
    hide Acyclic, Reaches, NestedFrom;
    if f.typ.Some? {
      assert InfoOk(db, s);
      var t := f.typ.value;
      var u := SkipArray(db, t);
      SkipArraySame(db, db', t);
      DirectSame(db, db', u);
      FieldAvoids(db, s, f);
      if u != d {
        if Eligible(db, f, d) {
          forall w | Hides(db, w, d) ensures w != u && !NestedFrom(db, u, 0, w) {
            assert !Includes(db, w, u);
          }
          NestedStable(db, db', u, 0, s, d);
        } else if NestedFrom(db, u, 0, d) {
          NestedStays(db, db', u, 0, s, d);
        }
      }
    }
  }

  /** A type does not contain the container one of whose fields has it. */
  lemma FieldAvoids(db: Db, s: TypeId, f: Field)
    requires Closed(db) && Acyclic(db) && s in db && f in db[s].fields && f.typ.Some? && f.typ.value in db
    ensures !Reaches(db, f.typ.value, s) && !Reaches(db, SkipArray(db, f.typ.value), s)
  {
    var t := f.typ.value;
    assert HasFieldOf(db, s, t) && Edge(db, s, t);
    SkipArrayReached(db, t);
    if Reaches(db, SkipArray(db, t), s) {
      ReachesTrans(db, t, SkipArray(db, t), s);
    }
  }

  // ------------------------------------------------------------------ the whole operation

  /** A range of one container's fields, and another container; nothing that hides the latter is
      included in the fields that move. */
  ghost predicate CanRelocate(db: Db, s: TypeId, lo: nat, hi: nat, d: TypeId) {
    && Valid(db) && IsContainer(db, s) && IsContainer(db, d) && s != d
    && lo <= hi <= |db[s].fields|
    && forall i :: lo <= i < lo + EligibleRun(db, s, lo, hi, d) ==> Unmasked(db, db[s].fields[i], d)
  }

  /** The end marker of `s` directly after the run: it is dropped with it. */
  ghost predicate DropsEos(db: Db, s: TypeId, lo: nat, hi: nat, d: TypeId)
    requires CanRelocate(db, s, lo, hi, d)
  {
    var n := EligibleRun(db, s, lo, hi, d);
    lo + n < hi && IsEos(db, s, lo + n)
  }

  /** How many fields leave `s`: the run, and the end marker when it comes next. */
  ghost function GoneCount(db: Db, s: TypeId, lo: nat, hi: nat, d: TypeId): (k: nat)
    requires CanRelocate(db, s, lo, hi, d)
    ensures lo + k <= hi
  {
    EligibleRun(db, s, lo, hi, d) + if DropsEos(db, s, lo, hi, d) then 1 else 0
  }

  /** The database after the fields have moved, before the end marker of `d` is looked at. */
  ghost function AfterMove(db: Db, s: TypeId, lo: nat, hi: nat, d: TypeId, delta: int): (db': Db)
    requires CanRelocate(db, s, lo, hi, d)
    ensures Valid(db') && d in db'
    ensures SameShape(db, db')
  {
    var n := EligibleRun(db, s, lo, hi, d);
    var k := GoneCount(db, s, lo, hi, d);
    MovedKeeps(db, s, lo, n, k, d, delta);
    Moved(db, s, lo, n, k, d, delta)
  }

  /** Putting the old end marker back when the new size falls short of the old one. */
  function WithOldEos(db: Db, db1: Db, d: TypeId, newSize: int, base2: int): Db
    requires d in db && d in db1
  {
    if db[d].kind.Seg? || !HasMarker(db[d].fields) then db1
    else
      var eos := db[d].fields[|db[d].fields| - 1];
      var oldSize := eos.key - db[d].base;
      if 0 < newSize < oldSize then
        WithFields(db1, d, InsertUnique(db1[d].fields, eos.(key := base2 + oldSize)).0)
      else db1
  }

  lemma WithOldEosIs(db: Db, db1: Db, d: TypeId, newSize: int, base2: int)
    requires d in db && d in db1
    ensures !db[d].kind.Seg? && HasMarker(db[d].fields) ==>
              var eos := db[d].fields[|db[d].fields| - 1];
              var oldSize := eos.key - db[d].base;
              WithOldEos(db, db1, d, newSize, base2)
              == if 0 < newSize < oldSize
                 then WithFields(db1, d, InsertUnique(db1[d].fields, eos.(key := base2 + oldSize)).0) else db1
    ensures db[d].kind.Seg? || !HasMarker(db[d].fields) ==> WithOldEos(db, db1, d, newSize, base2) == db1
  {}

  /** The database after `RelocateFields`. */
  ghost function Relocated(db: Db, s: TypeId, lo: nat, hi: nat, d: TypeId, base: int, base2: int): Db
    requires CanRelocate(db, s, lo, hi, d)
  {
    var db1 := AfterMove(db, s, lo, hi, d, base2 - base);
    WithOldEos(db, db1, d, Size(db1, d), base2)
  }

  lemma InsertUniqueMembers(m: seq<Field>, f: Field)
    ensures forall g :: g in InsertUnique(m, f).0 ==> g in m || g == f
  {
    assert [f][..0] == [];
    assert InsertAll(m, [f]) == InsertUnique(InsertAll(m, []), f).0;
    InsertAllMembers(m, [f]);
  }

  function WithFields(db: Db, d: TypeId, m: seq<Field>): Db
    requires d in db
  {
    db[d := db[d].(fields := m)]
  }

  lemma WithOwnFields(db: Db, d: TypeId)
    requires d in db
    ensures WithFields(db, d, db[d].fields) == db
  {}

  lemma WithFieldsClosed(db: Db, d: TypeId, m: seq<Field>)
    requires Closed(db) && IsContainer(db, d)
    requires forall f :: f in m ==> f in db[d].fields || f.typ.None?
    ensures Closed(WithFields(db, d, m))
  {
    var db' := WithFields(db, d, m);
    forall t | t in db' ensures InfoOk(db', t) {
      assert InfoOk(db, t);
    }
  }

  /** Replacing the fields of `d` by a selection of them plus untyped ones. */
  lemma WithFieldsKeeps(db: Db, d: TypeId, m: seq<Field>)
    requires Valid(db) && IsContainer(db, d) && Sorted(m)
    requires forall f :: f in m ==> f in db[d].fields || f.typ.None?
    ensures Valid(WithFields(db, d, m))
    ensures SameShape(db, WithFields(db, d, m))
  {
    var db' := WithFields(db, d, m);
    forall t: TypeId, u: TypeId | Edge(db', t, u) ensures Edge(db, t, u) {
      if HasFieldOf(db', t, u) {
        var g :| g in db'[t].fields && g.typ == Some(u);
        assert HasFieldOf(db, t, u);
      }
    }
    AddedEdgesStayAcyclic(db, db', d);
    WithFieldsClosed(db, d, m);
  }

  lemma WithFreshEosKeeps(db: Db, d: TypeId, eos: Field)
    requires Valid(db) && IsContainer(db, d) && eos.typ.None?
    ensures var db' := WithFields(db, d, InsertUnique(db[d].fields, eos).0);
            Valid(db') && SameShape(db, db')
  {
    assert Sorted(db[d].fields);
    InsertUniqueSorted(db[d].fields, eos);
    InsertUniqueMembers(db[d].fields, eos);
    WithFieldsKeeps(db, d, InsertUnique(db[d].fields, eos).0);
  }

  lemma WithOldEosKeeps(db: Db, db1: Db, d: TypeId, newSize: int, base2: int)
    requires d in db && Valid(db1) && IsContainer(db1, d)
    ensures Valid(WithOldEos(db, db1, d, newSize, base2))
    ensures SameShape(db1, WithOldEos(db, db1, d, newSize, base2))
  {
    if !db[d].kind.Seg? && HasMarker(db[d].fields) {
      var eos := db[d].fields[|db[d].fields| - 1];
      WithFreshEosKeeps(db1, d, eos.(key := base2 + (eos.key - db[d].base)));
    }
  }

  /** A relocation leaves a valid database: in particular no container comes to contain
      itself, because every moved field was tested against the target. */
  lemma RelocatedKeepsValid(db: Db, s: TypeId, lo: nat, hi: nat, d: TypeId, base: int, base2: int)
    requires CanRelocate(db, s, lo, hi, d)
    ensures Valid(Relocated(db, s, lo, hi, d, base, base2))
    ensures SameShape(db, Relocated(db, s, lo, hi, d, base, base2))
    ensures forall t :: t in db && t != s && t != d ==> Relocated(db, s, lo, hi, d, base, base2)[t] == db[t]
  {
    var db1 := AfterMove(db, s, lo, hi, d, base2 - base);
    WithOldEosKeeps(db, db1, d, Size(db1, d), base2);
  }

  // ------------------------------------------------------------------ one step of the move

  lemma MovedNothing(db: Db, s: TypeId, lo: nat, d: TypeId, delta: int)
    requires s in db && d in db && s != d && lo <= |db[s].fields|
    ensures WithFields(db, d, Members(db, d)) == Moved(db, s, lo, 0, 0, d, delta)
  {
    var src := db[s].fields;
    assert src[..lo] + src[lo + 0..] == src;
    assert src[lo..lo + 0] == [];
  }

  /** The state after `n` moves: what is next, and whether it may go. */
  lemma MovedNext(db: Db, s: TypeId, lo: nat, hi: nat, d: TypeId, delta: int, n: nat)
    requires CanRelocate(db, s, lo, hi, d) && n <= EligibleRun(db, s, lo, hi, d) && lo + n < hi
    ensures var db1 := Moved(db, s, lo, n, n, d, delta);
            var f := db[s].fields[lo + n];
            && Valid(db1) && SameShape(db, db1)
            && lo < |db1[s].fields| && db1[s].fields[lo] == f
            && (f.typ.Some? ==> f.typ.value in db1)
            && (IsEos(db1, s, lo) <==> IsEos(db, s, lo + n))
            && (Eligible(db1, f, d) <==> Eligible(db, f, d))
  {
    hide Acyclic, Eligible, InsertUnique, LowerBound;
    var db1 := Moved(db, s, lo, n, n, d, delta);
    assert InfoOk(db, s);
    MovedKeeps(db, s, lo, n, n, d, delta);
    EligibleStable(db, db1, db[s].fields[lo + n], s, d);
  }

  /** Taking the next field out. */
  lemma MovedTake(db: Db, s: TypeId, lo: nat, d: TypeId, delta: int, n: nat)
    requires s in db && d in db && s != d && lo + n < |db[s].fields|
    ensures var db1 := Moved(db, s, lo, n, n, d, delta);
            && s in db1 && lo < |db1[s].fields|
            && WithFields(db1, s, db1[s].fields[..lo] + db1[s].fields[lo + 1..]) == Moved(db, s, lo, n, n + 1, d, delta)
            && d in db1 && Moved(db, s, lo, n, n + 1, d, delta)[d] == db1[d]
  {
    hide InsertAll;
    var src := db[s].fields;
    var rest := src[..lo] + src[lo + n..];
    assert rest[..lo] + rest[lo + 1..] == src[..lo] + src[lo + n + 1..];
  }

  /** Inserting it in the target. */
  lemma MovedInsert(db: Db, s: TypeId, lo: nat, d: TypeId, delta: int, n: nat)
    requires s in db && d in db && s != d && lo + n < |db[s].fields|
    ensures var db2 := Moved(db, s, lo, n, n + 1, d, delta);
            && d in db2
            && WithFields(db2, d, InsertUnique(db2[d].fields, db[s].fields[lo + n].Shift(delta)).0)
               == Moved(db, s, lo, n + 1, n + 1, d, delta)
  {
    hide InsertUnique, LowerBound, InsertAll, ShiftAll;
    var src := db[s].fields;
    assert src[lo..lo + (n + 1)] == src[lo..lo + n] + [src[lo + n]];
    ShiftSnoc(src[lo..lo + n], src[lo + n], delta);
    InsertAllSnoc(Members(db, d), ShiftAll(src[lo..lo + n], delta), src[lo + n].Shift(delta));
  }

  lemma RunEnds(db: Db, s: TypeId, lo: nat, hi: nat, d: TypeId, n: nat)
    requires CanRelocate(db, s, lo, hi, d) && n <= EligibleRun(db, s, lo, hi, d)
    requires lo + n < hi ==> IsEos(db, s, lo + n) || !Eligible(db, db[s].fields[lo + n], d)
    ensures n == EligibleRun(db, s, lo, hi, d)
    ensures GoneCount(db, s, lo, hi, d) == if lo + n < hi && IsEos(db, s, lo + n) then n + 1 else n
  {
  }

  lemma ShiftSnoc(fs: seq<Field>, f: Field, delta: int)
    ensures ShiftAll(fs + [f], delta) == ShiftAll(fs, delta) + [f.Shift(delta)]
  {
    var r := ShiftAll(fs + [f], delta);
    assert forall i :: 0 <= i < |fs| ==> (fs + [f])[i] == fs[i];
    assert r == ShiftAll(fs, delta) + [f.Shift(delta)];
  }

  // ------------------------------------------------------------------ conservation

  /** How often a field occurs. */
  function Count(m: seq<Field>, f: Field): nat { multiset(m)[f] }

  lemma AfterMoveIs(db: Db, s: TypeId, lo: nat, hi: nat, d: TypeId, delta: int)
    requires CanRelocate(db, s, lo, hi, d)
    ensures AfterMove(db, s, lo, hi, d, delta)
            == Moved(db, s, lo, EligibleRun(db, s, lo, hi, d), GoneCount(db, s, lo, hi, d), d, delta)
  {
  }

  lemma CountMembers(db: Db, d: TypeId, f: Field)
    requires d in db && f.Real()
    ensures Count(Members(db, d), f) == Count(db[d].fields, f)
  {
    var dst := db[d].fields;
    if HasMarker(dst) {
      assert dst == Strip(dst) + [dst[|dst| - 1]];
    }
  }

  lemma CountConcat(a: seq<Field>, b: seq<Field>, f: Field)
    ensures Count(a + b, f) == Count(a, f) + Count(b, f)
  {
  }

  lemma EosKeepsCounts(m: seq<Field>, eos: Field, f: Field)
    requires !eos.Real() && f.Real()
    ensures Count(InsertUnique(m, eos).0, f) == Count(m, f)
  {
    var i := LowerBound(m, eos.key);
    var a, b := m[..i], m[i..];
    if i < |m| && m[i].key == eos.key {
    } else {
      assert m == a + b;
      CountConcat(a, b, f);
      CountConcat(a + [eos], b, f);
      CountConcat(a, [eos], f);
    }
  }

  /** Putting the old marker back does not touch the other containers, nor any typed or named
      field. */
  lemma OldEosKeepsReal(db: Db, db1: Db, d: TypeId, newSize: int, base2: int)
    requires d in db && d in db1
    ensures var db' := WithOldEos(db, db1, d, newSize, base2);
            && db'.Keys == db1.Keys
            && (forall t :: t in db1 && t != d ==> db'[t] == db1[t])
            && forall f: Field | f.Real() :: Count(db'[d].fields, f) == Count(db1[d].fields, f)
  {
    hide InsertUnique, Count;
    if !db[d].kind.Seg? && HasMarker(db[d].fields) {
      var eos := db[d].fields[|db[d].fields| - 1];
      forall f: Field | f.Real()
        ensures Count(InsertUnique(db1[d].fields, eos.(key := base2 + (eos.key - db[d].base))).0, f)
                == Count(db1[d].fields, f)
      {
        EosKeepsCounts(db1[d].fields, eos.(key := base2 + (eos.key - db[d].base)), f);
      }
    }
  }

  /** The fields the target is given. */
  ghost function Arrivals(db: Db, s: TypeId, lo: nat, hi: nat, d: TypeId, delta: int): (r: seq<Field>)
    requires CanRelocate(db, s, lo, hi, d)
    ensures |r| == EligibleRun(db, s, lo, hi, d)
  {
    ShiftAll(db[s].fields[lo..lo + EligibleRun(db, s, lo, hi, d)], delta)
  }

  /** The old marker comes back, and finds its address free. */
  ghost predicate EosReturns(db: Db, s: TypeId, lo: nat, hi: nat, d: TypeId, base: int, base2: int)
    requires CanRelocate(db, s, lo, hi, d)
  {
    && !db[d].kind.Seg? && HasMarker(db[d].fields)
    && (var old_ := db[d].fields[|db[d].fields| - 1].key - db[d].base;
        && 0 < Size(AfterMove(db, s, lo, hi, d, base2 - base), d) < old_
        && base2 + old_ !in Keys(Members(db, d)) + Keys(Arrivals(db, s, lo, hi, d, base2 - base)))
  }

  /** The typed or named fields that stay in `s` are those outside the run, in their order. */
  lemma SourceConserved(db: Db, s: TypeId, lo: nat, hi: nat, d: TypeId, base: int, base2: int)
    requires CanRelocate(db, s, lo, hi, d)
    ensures RealFields(Relocated(db, s, lo, hi, d, base, base2)[s].fields)
            == RealFields(db[s].fields[..lo]) + RealFields(db[s].fields[lo + EligibleRun(db, s, lo, hi, d)..])
  {
    hide InsertAll, RealFields, WithOldEos, Closed, Acyclic, AllSorted, Eligible, EligibleRun;
    var delta, n := base2 - base, EligibleRun(db, s, lo, hi, d);
    var db1 := AfterMove(db, s, lo, hi, d, delta);
    AfterMoveIs(db, s, lo, hi, d, delta);
    DroppedOnlyEos(db, s, lo, n, GoneCount(db, s, lo, hi, d), d, delta);
    RelocatedFrom(db, s, lo, hi, d, base, base2);
    OldEosKeepsReal(db, db1, d, Size(db1, d), base2);
  }

  lemma RelocatedFrom(db: Db, s: TypeId, lo: nat, hi: nat, d: TypeId, base: int, base2: int)
    requires CanRelocate(db, s, lo, hi, d)
    ensures var db1 := AfterMove(db, s, lo, hi, d, base2 - base);
            Relocated(db, s, lo, hi, d, base, base2) == WithOldEos(db, db1, d, Size(db1, d), base2)
  {
  }

  lemma DroppedOnlyEos(db: Db, s: TypeId, lo: nat, n: nat, k: nat, d: TypeId, delta: int)
    requires s in db && d in db && s != d && n <= k && lo + k <= |db[s].fields|
    requires k == n || (k == n + 1 && !db[s].fields[lo + n].Real())
    ensures RealFields(Moved(db, s, lo, n, k, d, delta)[s].fields)
            == RealFields(db[s].fields[..lo]) + RealFields(db[s].fields[lo + n..])
  {
    RealFieldsSpliced(db[s].fields, lo, n, k);
  }

  lemma RealFieldsSpliced(src: seq<Field>, lo: nat, n: nat, k: nat)
    requires n <= k && lo + k <= |src|
    requires k == n || (k == n + 1 && !src[lo + n].Real())
    ensures RealFields(src[..lo] + src[lo + k..]) == RealFields(src[..lo]) + RealFields(src[lo + n..])
  {
    var rest := src[lo + k..];
    RealFieldsConcat(src[..lo], rest);
    if k == n + 1 {
      var eos := [src[lo + n]];
      assert src[lo + n..] == eos + rest;
      RealFieldsConcat(eos, rest);
      assert eos[..0] == [];
      assert RealFields(eos) == [];
      assert [] + RealFields(rest) == RealFields(rest);
    }
  }

  /** The typed or named fields of `d` all stay, and those of the run arrive whose insertion is
      accepted, each exactly once; at free addresses that is every one, and only then is nothing
      lost, the old end marker apart. */
  lemma TargetConserved(db: Db, s: TypeId, lo: nat, hi: nat, d: TypeId, base: int, base2: int)
    requires CanRelocate(db, s, lo, hi, d)
    ensures var m, arrived := Members(db, d), Arrivals(db, s, lo, hi, d, base2 - base);
            var dst' := Relocated(db, s, lo, hi, d, base, base2)[d].fields;
            && (forall f: Field | f.Real() :: Count(dst', f) == Count(db[d].fields, f) + Count(Accepted(m, arrived), f))
            && (Free(m, arrived) ==> Accepted(m, arrived) == arrived)
            && (|dst'| == |m| + |arrived| + (if EosReturns(db, s, lo, hi, d, base, base2) then 1 else 0)
                <==> Free(m, arrived))
  {
    hide InsertAll, ShiftAll, InsertUnique, Count, Closed, Acyclic, AllSorted, Free, Eligible, EligibleRun, Keys;
    hide Unmasked, WithOldEos, Relocated, AfterMove, Size, Accepted;
    var delta, n, k := base2 - base, EligibleRun(db, s, lo, hi, d), GoneCount(db, s, lo, hi, d);
    var db1 := AfterMove(db, s, lo, hi, d, delta);
    AfterMoveIs(db, s, lo, hi, d, delta);
    SortedIn(db, d);
    SortedIn(db1, d);
    ArrivalsConserved(db, s, lo, n, k, d, delta);
    RelocatedFrom(db, s, lo, hi, d, base, base2);
    OldEosKeepsReal(db, db1, d, Size(db1, d), base2);
    InsertAllKeys(Members(db, d), Arrivals(db, s, lo, hi, d, delta));
    OldEosLength(db, db1, d, Size(db1, d), base2);
  }

  /** Putting the old marker back adds it if its address is free. */
  lemma OldEosLength(db: Db, db1: Db, d: TypeId, newSize: int, base2: int)
    requires d in db && d in db1 && Sorted(db1[d].fields)
    ensures d in WithOldEos(db, db1, d, newSize, base2)
    ensures |WithOldEos(db, db1, d, newSize, base2)[d].fields| == |db1[d].fields|
            + if !db[d].kind.Seg? && HasMarker(db[d].fields)
                 && 0 < newSize < db[d].fields[|db[d].fields| - 1].key - db[d].base
                 && base2 + (db[d].fields[|db[d].fields| - 1].key - db[d].base) !in Keys(db1[d].fields) then 1 else 0
  {
    hide InsertUnique, Keys, Sorted;
    if !db[d].kind.Seg? && HasMarker(db[d].fields) {
      var eos := db[d].fields[|db[d].fields| - 1];
      InsertUniqueKeys(db1[d].fields, eos.(key := base2 + (eos.key - db[d].base)));
    }
  }

  lemma SortedIn(db: Db, d: TypeId)
    requires Valid(db) && d in db
    ensures Sorted(db[d].fields) && Sorted(Members(db, d))
  {
    MembersSorted(db, d);
  }

  lemma ArrivalsConserved(db: Db, s: TypeId, lo: nat, n: nat, k: nat, d: TypeId, delta: int)
    requires s in db && d in db && s != d && n <= k && lo + k <= |db[s].fields|
    requires Sorted(Members(db, d))
    ensures var m, arrived := Members(db, d), ShiftAll(db[s].fields[lo..lo + n], delta);
            var dst' := Moved(db, s, lo, n, k, d, delta)[d].fields;
            && (forall f: Field | f.Real() :: Count(dst', f) == Count(db[d].fields, f) + Count(Accepted(m, arrived), f))
            && (Free(m, arrived) ==> Accepted(m, arrived) == arrived)
            && (|dst'| == |m| + n <==> Free(m, arrived))
  {
    hide Sorted, InsertAll, ShiftAll, Free, Members, Accepted;
    var m, arrived := Members(db, d), ShiftAll(db[s].fields[lo..lo + n], delta);
    InsertAllConserves(m, arrived);
    if Free(m, arrived) { FreeAccepted(m, arrived); }
    forall f: Field | f.Real()
      ensures Count(InsertAll(m, arrived), f) == Count(db[d].fields, f) + Count(Accepted(m, arrived), f)
    {
      CountMembers(db, d, f);
      AcceptedCounts(m, arrived, f);
    }
  }

  /** A field whose new address is taken is in neither container afterwards. */
  lemma TakenAddressLoses() returns (db: Db, f: Field)
    ensures CanRelocate(db, 0, 0, 1, 1) && db[0].fields == [f] && f.Real()
    ensures var db' := Relocated(db, 0, 0, 1, 1, 0, 0);
            0 in db' && 1 in db' && db'[0].fields == [] && Count(db'[1].fields, f) == 0
  {
    hide Acyclic, Includes, Hides, Relocated, InsertUnique;
    f := Field(0, 4, None, true, false, false);
    var g := Field(1, 4, None, true, false, false);
    db := map[0 := TypeInfo(Seg(-1, 0, 0), 0, [f]), 1 := TypeInfo(Struc, 0, [g])];
    forall t | t in db ensures InfoOk(db, t) && Sorted(db[t].fields) {}
    AcyclicByRank(db, map[0 := 0, 1 := 0]);
    OneTaken(db, f, g);
  }

  lemma OneTaken(db: Db, f: Field, g: Field)
    requires Valid(db) && IsContainer(db, 0) && IsContainer(db, 1) && db[0].kind.Seg? && !db[1].kind.Seg?
    requires db[0].fields == [f] && db[1].fields == [g] && f != g && f.key == g.key
    requires f.typ.None? && g.Real() && f.Real() && !f.exported
    ensures CanRelocate(db, 0, 0, 1, 1)
    ensures var db' := Relocated(db, 0, 0, 1, 1, 0, 0);
            0 in db' && 1 in db' && db'[0].fields == [] && Count(db'[1].fields, f) == 0
  {
    hide Closed, Acyclic, AllSorted, Relocated, WithOldEos, InsertUnique, InsertAll, Keys, Free, Accepted, ShiftAll;
    hide AfterMove, Moved, Count;
    assert EligibleRun(db, 0, 0, 1, 1) == 1 + EligibleRun(db, 0, 1, 1, 1) == 1;
    var db1 := AfterMove(db, 0, 0, 1, 1, 0);
    AfterMoveIs(db, 0, 0, 1, 1, 0);
    RelocatedFrom(db, 0, 0, 1, 1, 0, 0);
    OldEosKeepsReal(db, db1, 1, Size(db1, 1), 0);
    OneArrival(db, f);
    OneRefused(g, f);
    NoneOf(g, f);
    TargetConserved(db, 0, 0, 1, 1, 0, 0);
  }

  lemma OneArrival(db: Db, f: Field)
    requires CanRelocate(db, 0, 0, 1, 1) && db[0].fields == [f] && EligibleRun(db, 0, 0, 1, 1) == 1
    ensures Arrivals(db, 0, 0, 1, 1, 0) == [f]
    ensures Moved(db, 0, 0, 1, 1, 1, 0)[0].fields == []
  {
    assert [f][0..1] == [f];
    assert ShiftAll([f], 0) == [f.Shift(0)] + ShiftAll([], 0);
  }

  lemma NoneOf(g: Field, f: Field)
    requires f != g
    ensures Count([g], f) == 0 == Count([], f)
  {}

  lemma OneRefused(g: Field, f: Field)
    requires g.key == f.key && g.Real()
    ensures Accepted([g], [f]) == []
  {
    AcceptedNone([g]);
    AcceptedIff([g], [], f);
    assert [] + [f] == [f] && g in [g];
  }
}
