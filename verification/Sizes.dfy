/** What the size of a type depends on. */
module Sizes {
  import opened Wrappers
  import opened FieldMaps
  import opened TypeDb
  import opened Containment
  import opened Relocation

  /** The two databases agree on everything contained in `t`; a segment may have other fields,
      since its size does not come from them. */
  ghost predicate SameBelow(db: Db, db': Db, t: TypeId) {
    forall u {:trigger Reaches(db, t, u)} :: Reaches(db, t, u) ==>
      u in db && u in db' && (db'[u] == db[u] || (db[u].kind.Seg? && db'[u].kind == db[u].kind))
  }

  lemma SameBelowEdge(db: Db, db': Db, t: TypeId, u: TypeId)
    requires SameBelow(db, db', t) && Edge(db, t, u)
    ensures SameBelow(db, db', u)
  {
    forall v | Reaches(db, u, v)
      ensures v in db && v in db' && (db'[v] == db[v] || (db[v].kind.Seg? && db'[v].kind == db[v].kind))
    {
      ReachesStep(db, t, u, v);
    }
  }

  /** Then the size is the same. */
  lemma {:induction false} SizeSame(db: Db, db': Db, t: TypeId)
    requires Closed(db) && Acyclic(db) && Closed(db') && Acyclic(db') && t in db && SameBelow(db, db', t)
    ensures t in db' && Size(db', t) == Size(db, t)
    decreases Rank(db, t), 1, 0
  {
    hide Closed, Acyclic, SameBelow, Reaches;
    SameHere(db, db', t);
    match db[t].kind {
      case Array(elem, _) =>
        RankFalls(db, t, elem);
        SameBelowEdge(db, db', t, elem);
        SizeSame(db, db', elem);
      case Import(target) => TargetSame(db, db', t, target);
      case Export(target) => TargetSame(db, db', t, target);
      case Modifier(target) => TargetSame(db, db', t, target);
      case Simple(_) =>
      case Code =>
      case Seg(_, _, _) =>
      case _ =>
        MaxSame(db, db', t, |db[t].fields|);
        GroupSame(db, db', t, |db[t].fields|, 0);
    }
  }

  lemma {:induction false} TargetSame(db: Db, db': Db, t: TypeId, u: TypeId)
    requires Closed(db) && Acyclic(db) && Closed(db') && Acyclic(db') && t in db && SameBelow(db, db', t)
    requires Edge(db, t, u)
    ensures u in db && u in db' && Size(db', u) == Size(db, u)
    decreases Rank(db, t), 0, 0
  {
    hide Closed, Acyclic, SameBelow, Reaches;
    RankFalls(db, t, u);
    SameBelowEdge(db, db', t, u);
    SizeSame(db, db', u);
  }

  lemma SameHere(db: Db, db': Db, t: TypeId)
    requires Closed(db) && Closed(db') && t in db && SameBelow(db, db', t)
    ensures t in db' && InfoOk(db, t) && InfoOk(db', t)
    ensures db'[t] == db[t] || (db[t].kind.Seg? && db'[t].kind == db[t].kind)
  {
    ReachesSelf(db, t);
  }

  lemma {:induction false} FieldSame(db: Db, db': Db, t: TypeId, f: Field)
    requires Closed(db) && Acyclic(db) && Closed(db') && Acyclic(db') && t in db && SameBelow(db, db', t)
    requires f in db[t].fields && f.typ.Some?
    ensures f.typ.value in db && f.typ.value in db' && Size(db', f.typ.value) == Size(db, f.typ.value)
    decreases Rank(db, t), 0, 0
  {
    hide Acyclic, SameBelow, Reaches;
    SameHere(db, db', t);
    assert HasFieldOf(db, t, f.typ.value);
    RankFalls(db, t, f.typ.value);
    SameBelowEdge(db, db', t, f.typ.value);
    SizeSame(db, db', f.typ.value);
  }

  lemma {:induction false} MaxSame(db: Db, db': Db, t: TypeId, n: nat)
    requires Closed(db) && Acyclic(db) && Closed(db') && Acyclic(db') && t in db && SameBelow(db, db', t)
    requires t in db' && db'[t] == db[t] && n <= |db[t].fields|
    ensures MaxSize(db', t, n) == MaxSize(db, t, n)
    decreases Rank(db, t), 0, n + 1
  {
    hide Closed, Acyclic, SameBelow, Size;
    if n > 0 {
      if db[t].fields[n - 1].typ.Some? { FieldSame(db, db', t, db[t].fields[n - 1]); }
      MaxSame(db, db', t, n - 1);
    }
  }

  lemma {:induction false} GroupSame(db: Db, db': Db, t: TypeId, n: nat, sz: nat)
    requires Closed(db) && Acyclic(db) && Closed(db') && Acyclic(db') && t in db && SameBelow(db, db', t)
    requires t in db' && db'[t] == db[t] && n <= |db[t].fields|
    ensures GroupSize(db', t, n, sz) == GroupSize(db, t, n, sz)
    decreases Rank(db, t), 0, n + 1
  {
    hide Closed, Acyclic, SameBelow, Size;
    if n > 0 {
      if db[t].fields[n - 1].typ.Some? { FieldSame(db, db', t, db[t].fields[n - 1]); }
      var fsz := FieldSize(db, t, n - 1);
      if fsz >= 0 {
        var one := if fsz == 0 then 1 else fsz;
        GroupSame(db, db', t, n - 1, if one > sz then one else sz);
      }
    }
  }

  /** Changing the fields of `t` itself does not change the sizes of its fields' types. */
  lemma OwnFieldsApart(db: Db, db': Db, t: TypeId, f: Field)
    requires Closed(db) && Acyclic(db) && Closed(db') && Acyclic(db') && t in db && db'.Keys == db.Keys
    requires forall u :: u in db && u != t ==> db'[u] == db[u] || (db[u].kind.Seg? && db'[u].kind == db[u].kind)
    requires f in db[t].fields && f.typ.Some? && f.typ.value in db
    ensures SameBelow(db, db', f.typ.value) && Size(db', f.typ.value) == Size(db, f.typ.value)
  {
    hide Closed, Acyclic;
    FieldAvoids(db, t, f);
    forall u | Reaches(db, f.typ.value, u)
      ensures u in db && u in db' && (db'[u] == db[u] || (db[u].kind.Seg? && db'[u].kind == db[u].kind))
    {
      var p :| PathFromTo(db, p, f.typ.value, u);
    }
    SizeSame(db, db', f.typ.value);
  }

  // ------------------------------------------------------------------ one more field below the last

  /** `m'` is `m` with `f` inserted at `i`, between fields of smaller and larger addresses. */
  ghost predicate InsertedAt(m: seq<Field>, m': seq<Field>, i: nat, f: Field) {
    && i < |m| && m' == m[..i] + [f] + m[i..]
    && (forall j :: 0 <= j < i ==> m[j].key < f.key) && f.key < m[i].key
  }

  lemma InsertedIs(m: seq<Field>, m': seq<Field>, i: nat, f: Field, n: nat)
    requires InsertedAt(m, m', i, f) && Sorted(m) && n < |m|
    ensures |m'| == |m| + 1 && m'[i] == f && m'[|m|] == m[|m| - 1] && f.key < m[|m| - 1].key
    ensures i <= n ==> m'[n + 1] == m[n]
    ensures n < i ==> m'[n] == m[n] && m[n].key < m[|m| - 1].key
    ensures m'[0].key < m[|m| - 1].key
  {}

  lemma FieldMoved(db: Db, db': Db, t: TypeId, j: nat, j': nat)
    requires Closed(db) && Acyclic(db) && Closed(db') && Acyclic(db') && t in db && db'.Keys == db.Keys
    requires forall u :: u in db && u != t ==> db'[u] == db[u]
    requires j < |db[t].fields| && j' < |db'[t].fields| && db'[t].fields[j'] == db[t].fields[j]
    ensures FieldSize(db', t, j') == FieldSize(db, t, j)
  {
    hide Acyclic, Size;
    var f := db[t].fields[j];
    assert InfoOk(db, t) && f in db[t].fields;
    if f.typ.Some? { OwnFieldsApart(db, db', t, f); }
  }

  /** The last group does not change. */
  lemma {:induction false} GroupInserted(db: Db, db': Db, t: TypeId, i: nat, f: Field, n: nat, sz: nat)
    requires Closed(db) && Acyclic(db) && Closed(db') && Acyclic(db') && t in db && db'.Keys == db.Keys
    requires forall u :: u in db && u != t ==> db'[u] == db[u]
    requires InsertedAt(db[t].fields, db'[t].fields, i, f) && Sorted(db[t].fields) && i <= n <= |db[t].fields|
    ensures GroupSize(db', t, n + 1, sz) == GroupSize(db, t, n, sz)
    decreases n
  {
    hide Closed, Acyclic, FieldSize, Sorted;
    var m, m' := db[t].fields, db'[t].fields;
    if n > 0 { InsertedIs(m, m', i, f, n - 1); } else { InsertedIs(m, m', i, f, 0); }
    if n > i && m[n - 1].key == m[|m| - 1].key {
      FieldMoved(db, db', t, n - 1, n);
      var fsz := FieldSize(db, t, n - 1);
      if fsz >= 0 {
        var one := if fsz == 0 then 1 else fsz;
        GroupInserted(db, db', t, i, f, n - 1, if one > sz then one else sz);
      }
    }
  }

  /** When all fields share an address, the group is the largest of them, or open. */
  lemma {:induction false} UnionGroup(db: Db, t: TypeId, n: nat, sz: nat)
    requires Closed(db) && Acyclic(db) && t in db && n <= |db[t].fields|
    requires forall j :: 0 <= j < |db[t].fields| ==> db[t].fields[j].key == db[t].fields[|db[t].fields| - 1].key
    requires sz > 0 || (n > 0 && MaxSize(db, t, n) > 0)
    ensures var g, max := GroupSize(db, t, n, sz), MaxSize(db, t, n);
            g < 0 || g == if max > sz then max else sz
    decreases n
  {
    hide Closed, Acyclic, FieldSize;
    if n > 0 {
      var fsz := FieldSize(db, t, n - 1);
      if fsz >= 0 {
        var one := if fsz == 0 then 1 else fsz;
        UnionGroup(db, t, n - 1, if one > sz then one else sz);
      }
    }
  }

  /** A structure of known size keeps it, or comes to be empty or open, when a field without type is inserted
      below its last address. */
  lemma SizeInserted(db: Db, db': Db, t: TypeId, i: nat, f: Field)
    requires Closed(db) && Acyclic(db) && Closed(db') && Acyclic(db') && IsContainer(db, t) && !db[t].kind.Seg?
    requires db'.Keys == db.Keys && forall u :: u in db && u != t ==> db'[u] == db[u]
    requires db'[t] == db[t].(fields := db'[t].fields)
    requires InsertedAt(db[t].fields, db'[t].fields, i, f) && Sorted(db[t].fields) && Size(db, t) > 0
    ensures Size(db', t) == Size(db, t) || Size(db', t) <= 0
  {
    hide Closed, Acyclic, FieldSize, InsertedAt, MaxSize, GroupSize;
    var m, m' := db[t].fields, db'[t].fields;
    InsertedIs(m, m', i, f, 0);
    InsertedIs(m, m', i, f, |m| - 1);
    assert !IsUnion(db'[t]);
    GroupInserted(db, db', t, i, f, |m|, 0);
    if IsUnion(db[t]) {
      UnionGroup(db, t, |m|, 0);
    }
  }
}
