/** Runs: whatever sequence of typing, clearing, resizing and sweeping is carried out, no type
    ever comes to contain itself. */
module History {
  import opened Wrappers
  import opened FieldMaps
  import opened TypeDb
  import opened Containment
  import opened Relocation
  import opened Resize
  import opened Sweep

  datatype Op =
    | SetType(o: TypeId, i: nat, p: TypeId)
    | ClearType(o: TypeId, i: nat)
    | SetSize(t: TypeId, size: nat, force: bool)
    | Resize(self: TypeId, newSize: nat, outer: Option<Place>, force: bool)
    | Relocate(s: TypeId, lo: nat, hi: nat, d: TypeId, base: int, base2: int)
    | SweepLabels(seg: TypeId, at: nat, end: int, p: TypeId)

  /** What the callers of the operations see to: positions exist, a field is typed only once,
      and it is not a field of a function prototype. And, what they do not see to, nothing that
      hides the container that takes something is included in what it takes: the tests for
      recursion compare types by identity, and do not look behind modifiers. */
  ghost predicate CanDo(db: Db, op: Op)
    requires Valid(db)
  {
    match op
    case SetType(o, i, p) =>
      && IsContainer(db, o) && i < |db[o].fields| && p in db && !db[o].kind.FuncDef? && db[o].fields[i].typ.None?
      && (TypeAccepted(db, o, p) ==> Unmasked(db, db[o].fields[i].(typ := Some(p)), o))
    case ClearType(o, i) => o in db && i < |db[o].fields|
    case SetSize(t, _, _) => IsContainer(db, t)
    case Resize(self, newSize, outer, _) => CanResize(db, self, newSize, outer)
    case Relocate(s, lo, hi, d, _, _) => CanRelocate(db, s, lo, hi, d)
    case SweepLabels(seg, at, _, p) => CanSweep(db, seg, at + 1, p)
  }

  /** One operation; a refused type changes nothing. */
  ghost function Do(db: Db, op: Op): Db
    requires Valid(db) && CanDo(db, op)
  {
    match op
    case SetType(o, i, p) => if TypeAccepted(db, o, p) then WithType(db, o, i, Some(p)) else db
    case ClearType(o, i) => WithType(db, o, i, None)
    case SetSize(t, size, force) => SizeSet(db, t, size, force)
    case Resize(self, newSize, outer, force) => Resized(db, self, newSize, outer, force)
    case Relocate(s, lo, hi, d, base, base2) => Relocated(db, s, lo, hi, d, base, base2)
    case SweepLabels(seg, at, end, p) => Swept(db, seg, at + 1, end, p)
  }

  lemma WithTypeSorted(db: Db, o: TypeId, i: nat, p: Option<TypeId>)
    requires AllSorted(db) && o in db && i < |db[o].fields|
    ensures AllSorted(WithType(db, o, i, p)) && SameShape(db, WithType(db, o, i, p))
  {
    var db' := WithType(db, o, i, p);
    assert Sorted(db[o].fields);
    assert forall j :: 0 <= j < |db[o].fields| ==> db'[o].fields[j].key == db[o].fields[j].key;
    assert Sorted(db'[o].fields);
    assert forall t :: t in db && t != o ==> db'[t] == db[t];
  }

  /** One operation keeps the database valid. */
  lemma DoKeepsValid(db: Db, op: Op)
    requires Valid(db) && CanDo(db, op)
    ensures Valid(Do(db, op))
  {
    hide Closed, Acyclic, AllSorted, Relocated, SizeSet, Resized;
    match op {
    case SetType(o, i, p) =>
      if TypeAccepted(db, o, p) {
        SetTypeAcyclicIff(db, o, i, p);
        WithTypeSorted(db, o, i, Some(p));
      }
    case ClearType(o, i) =>
      ClearTypeKeepsAcyclic(db, o, i);
      WithTypeSorted(db, o, i, None);
    case SetSize(t, size, force) => SizeSetValid(db, t, size, force);
    case Resize(self, newSize, outer, force) => ResizedKeepsValid(db, self, newSize, outer, force);
    case Relocate(s, lo, hi, d, base, base2) => RelocatedKeepsValid(db, s, lo, hi, d, base, base2);
    case SweepLabels(seg, at, end, p) =>
      SweepRun(db, seg, at + 1, end, p);
      RelocatedKeepsValid(db, seg, at + 1, UpperLabel(db, seg, at + 1, end), p, db[p].base, db[p].base);
    }
  }

  /** A run of operations, each of them possible when its turn comes. */
  ghost predicate IsRun(db: Db, ops: seq<Op>, db': Db)
    decreases |ops|
  {
    if ops == [] then db' == db
    else Valid(db) && CanDo(db, ops[0]) && IsRun(Do(db, ops[0]), ops[1..], db')
  }

  /** Safety over all runs: no type reaches itself, so sizes and walks are well founded. */
  lemma {:induction false} RunsStayAcyclic(db: Db, ops: seq<Op>, db': Db)
    requires Valid(db) && IsRun(db, ops, db')
    ensures Valid(db')
    ensures forall t, u :: Edge(db', t, u) ==> !Reaches(db', u, t)
    decreases |ops|
  {
    if ops != [] {
      DoKeepsValid(db, ops[0]);
      RunsStayAcyclic(Do(db, ops[0]), ops[1..], db');
    }
  }

  /** With a wrapper or a modifier of a structure the promise fails: a structure accepts either of
      itself as the type of its field. */
  lemma HiddenRecursion(kind: Kind) returns (db: Db)
    requires kind.Referring() && kind.target == 0
    ensures Valid(db) && IsContainer(db, 0) && db[0].fields != [] && db[0].fields[0].typ.None?
    ensures db.Keys == {0, 1} && db[1].kind == kind && Hides(db, 1, 0)
    ensures TypeAccepted(db, 0, 1)
    ensures !Acyclic(WithType(db, 0, 0, Some(1)))
  {
    hide Acyclic;
    db := map[0 := TypeInfo(Struc, 0, [Field(0, 0, None, true, false, false)]), 1 := TypeInfo(kind, 0, [])];
    forall t | t in db ensures InfoOk(db, t) && Sorted(db[t].fields) {
      assert t == 0 || t == 1;
    }
    AcyclicByRank(db, map[0 := 0, 1 := 1]);
    OneVeil(db);
    SetTypeAcyclicIff(db, 0, 0, 1);
  }

  lemma OneVeil(db: Db)
    requires Closed(db) && Acyclic(db) && 0 in db && 1 in db && db[0].kind.Struc? && db[1].kind.Referring()
    requires db[1].kind.target == 0 && |db[0].fields| == 1 && db[0].fields[0].typ.None?
    ensures Hides(db, 1, 0) && SkipArray(db, 1) == 1 && Includes(db, 1, 1) && TypeAccepted(db, 0, 1)
  {
    assert InfoOk(db, 1) && Direct(db, 0) == 0;
    RankFalls(db, 1, 0);
    assert SkipArray(db, 0) == 0 && Includes(db, 0, 0);
    if db[1].kind.Wrapper() {
      assert Direct(db, 1) == 0;
      assert !Hit(db, 1, FieldsOf(db, 1)[0], 0);
      assert !NestedFrom(db, 1, 1, 0);
    }
  }

  /** A structure, a wrapper or modifier of it, a structure with that inside, and a segment with a
      field of either. */
  function Veiled(kind: Kind, nested: bool): Db {
    map[0 := TypeInfo(Struc, 0, []), 1 := TypeInfo(kind, 0, []),
        2 := TypeInfo(Struc, 0, [Field(0, 0, Some(1), true, false, false)]),
        3 := TypeInfo(Seg(-1, 0, 0), 0, [Field(1, 0, Some(if nested then 2 else 1), true, false, false)])]
  }

  lemma VeiledValid(kind: Kind, nested: bool)
    requires kind.Referring() && kind.target == 0
    ensures Valid(Veiled(kind, nested))
  {
    hide Acyclic;
    var db := Veiled(kind, nested);
    forall t | t in db ensures InfoOk(db, t) {}
    AcyclicByRank(db, map[0 := 0, 1 := 1, 2 := 2, 3 := 3]);
  }

  /** The same with a move: a field whose type is an export wrapper of the target, or a structure
      with a wrapper or a modifier of the target inside, is eligible. */
  lemma HiddenMove(kind: Kind, nested: bool) returns (db: Db)
    requires kind.Referring() && kind.target == 0 && (nested || kind.Export?)
    ensures Valid(db) && IsContainer(db, 0) && IsContainer(db, 3) && 1 in db && db[1].kind == kind
    ensures |db[3].fields| == 1 && db[3].fields[0].typ == Some(if nested then 2 else 1)
    ensures Eligible(db, db[3].fields[0], 0) && !Acyclic(Moved(db, 3, 0, 1, 1, 0, 0))
  {
    hide Closed, Acyclic, AllSorted, Eligible, Unmasked, Moved;
    db := Veiled(kind, nested);
    VeiledValid(kind, nested);
    MoveVeiled(db, kind, nested);
    assert Members(db, 0) == [];
    MovedAcyclicIff(db, 3, 0, 1, 1, 0, 0);
  }

  lemma MoveVeiled(db: Db, kind: Kind, nested: bool)
    requires kind.Referring() && kind.target == 0 && (nested || kind.Export?)
    requires Closed(db) && Acyclic(db) && {0, 1, 2, 3} <= db.Keys && db[0].kind.Struc? && db[0].fields == []
    requires db[1].kind == kind && db[2].kind.Struc? && db[2].fields == [Field(0, 0, Some(1), true, false, false)]
    requires db[3].fields == [Field(1, 0, Some(if nested then 2 else 1), true, false, false)]
    ensures Eligible(db, db[3].fields[0], 0) && !Unmasked(db, db[3].fields[0], 0)
  {
    assert InfoOk(db, 1) && InfoOk(db, 2) && InfoOk(db, 3) && Direct(db, 0) == 0 && Direct(db, 2) == 2;
    assert HasFieldOf(db, 2, 1);
    RankFalls(db, 1, 0);
    RankFalls(db, 2, 1);
    assert SkipArray(db, 0) == 0 && SkipArray(db, 1) == 1 && SkipArray(db, 2) == 2;
    assert Includes(db, 0, 0) && Hides(db, 1, 0);
    assert Hit(db, 2, FieldsOf(db, 2)[0], 1) && !Hit(db, 2, FieldsOf(db, 2)[0], 0);
    assert NestedFrom(db, 2, 0, 1) && !NestedFrom(db, 2, 1, 0) && !NestedFrom(db, 2, 0, 0);
    assert !NestedFrom(db, 1, 0, 0);
  }
}
