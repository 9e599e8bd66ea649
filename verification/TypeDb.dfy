/** The type database: structures, procedures, segments, arrays, wrappers and modifiers, and the
    containment graph over them. */
module TypeDb {
  import opened Wrappers
  import opened FieldMaps

  datatype Kind =
    | Simple(width: nat)               // scalars, pointers, enumerations
    | Code                             // machine code: its size is open
    | Array(elem: TypeId, total: nat)
    | Import(target: TypeId)           // forwards the structure and array queries to its target
    | Export(target: TypeId)           // so does this
    | Modifier(target: TypeId)         // a constant or an alias: forwards nothing but the size
    | Struc
    | Proc
    | Seg(extent: int, rawOffs: nat, rawSize: nat)
    | FuncDef                          // a function prototype, whose arguments are fields
  {
    predicate StrucLike() { Struc? || Proc? || Seg? || FuncDef? }

    predicate Wrapper() { Import? || Export? }

    predicate Referring() { Wrapper() || Modifier? }
  }

  datatype TypeInfo = TypeInfo(kind: Kind, base: int, fields: seq<Field>)

  type Db = map<TypeId, TypeInfo>

  /** The references of `t` lead to known types, and only containers hold fields. */
  ghost predicate InfoOk(db: Db, t: TypeId)
    requires t in db
  {
    && (db[t].kind.Array? ==> db[t].kind.elem in db)
    && (db[t].kind.Referring() ==> db[t].kind.target in db)
    && (!db[t].kind.StrucLike() ==> db[t].fields == [])
    && (forall f {:trigger f in db[t].fields} :: f in db[t].fields && f.typ.Some? ==> f.typ.value in db)
  }

  ghost predicate Closed(db: Db) {
    forall t {:trigger InfoOk(db, t)} :: t in db ==> InfoOk(db, t)
  }

  // ------------------------------------------------------------------ containment graph

  ghost predicate HasFieldOf(db: Db, t: TypeId, u: TypeId)
    requires t in db
  {
    exists f :: f in db[t].fields && f.typ == Some(u)
  }

  /** `t` directly refers to `u` by value: as element, as what it wraps or modifies, or through a
      field. */
  ghost predicate Edge(db: Db, t: TypeId, u: TypeId) {
    && t in db && u in db
    && (|| (db[t].kind.Array? && db[t].kind.elem == u)
        || (db[t].kind.Referring() && db[t].kind.target == u)
        || HasFieldOf(db, t, u))
  }

  ghost predicate IsPath(db: Db, p: seq<TypeId>) {
    && |p| > 0
    && (forall i :: 0 <= i < |p| ==> p[i] in db)
    && (forall i :: 0 <= i < |p| - 1 ==> Edge(db, p[i], p[i + 1]))
  }

  ghost predicate PathFromTo(db: Db, p: seq<TypeId>, t: TypeId, u: TypeId) {
    IsPath(db, p) && p[0] == t && p[|p| - 1] == u
  }

  ghost predicate Reaches(db: Db, t: TypeId, u: TypeId) {
    exists p :: PathFromTo(db, p, t, u)
  }

  /** No type contains itself, directly or indirectly. */
  ghost predicate Acyclic(db: Db) {
    forall t, u :: Edge(db, t, u) ==> !Reaches(db, u, t)
  }

  lemma ReachesSelf(db: Db, t: TypeId)
    requires t in db
    ensures Reaches(db, t, t)
  {
    assert PathFromTo(db, [t], t, t);
  }

  lemma ReachesStep(db: Db, t: TypeId, u: TypeId, v: TypeId)
    requires Edge(db, t, u) && Reaches(db, u, v)
    ensures Reaches(db, t, v)
  {
    var p :| PathFromTo(db, p, u, v);
    var q := [t] + p;
    forall i | 0 <= i < |q| - 1 ensures Edge(db, q[i], q[i + 1]) {
      if i > 0 { assert Edge(db, p[i - 1], p[i]); }
    }
    assert PathFromTo(db, q, t, v);
  }

  lemma ReachesTrans(db: Db, t: TypeId, u: TypeId, v: TypeId)
    requires Reaches(db, t, u) && Reaches(db, u, v)
    ensures Reaches(db, t, v)
  {
    var p :| PathFromTo(db, p, t, u);
    var q :| PathFromTo(db, q, u, v);
    var r := p + q[1..];
    forall i | 0 <= i < |r| - 1 ensures Edge(db, r[i], r[i + 1]) {
      if i < |p| - 1 { assert Edge(db, p[i], p[i + 1]); }
      else { assert Edge(db, q[i - |p| + 1], q[i - |p| + 2]); }
    }
    assert PathFromTo(db, r, t, v);
  }

  /** Along a path either nothing happens or there is a first edge. */
  lemma ReachesSplit(db: Db, t: TypeId, v: TypeId) returns (u: TypeId)
    requires Reaches(db, t, v) && t != v
    ensures Edge(db, t, u) && Reaches(db, u, v)
  {
    var p :| PathFromTo(db, p, t, v);
    u := p[1];
    assert Edge(db, p[0], p[1]);
    var q := p[1..];
    forall i | 0 <= i < |q| - 1 ensures Edge(db, q[i], q[i + 1]) {
      assert Edge(db, p[i + 1], p[i + 2]);
    }
    assert PathFromTo(db, q, u, v);
  }

  /** A numbering that falls along every edge rules out cycles. */
  ghost predicate Ranked(db: Db, r: map<TypeId, nat>) {
    && db.Keys <= r.Keys
    && forall t, u :: Edge(db, t, u) ==> r[u] < r[t]
  }

  lemma {:induction false} RankFallsAlongPath(db: Db, r: map<TypeId, nat>, p: seq<TypeId>)
    requires Ranked(db, r) && IsPath(db, p)
    ensures r[p[|p| - 1]] <= r[p[0]]
  {
    if |p| > 1 {
      var q := p[1..];
      assert Edge(db, p[0], p[1]);
      forall i | 0 <= i < |q| - 1 ensures Edge(db, q[i], q[i + 1]) {
        assert Edge(db, p[i + 1], p[i + 2]);
      }
      RankFallsAlongPath(db, r, q);
    }
  }

  lemma AcyclicByRank(db: Db, r: map<TypeId, nat>)
    requires Ranked(db, r)
    ensures Acyclic(db)
  {
    forall t, u | Edge(db, t, u) ensures !Reaches(db, u, t) {
      forall p | PathFromTo(db, p, u, t) ensures false {
        RankFallsAlongPath(db, r, p);
      }
    }
  }

  ghost function ReachSet(db: Db, t: TypeId): set<TypeId> {
    set u | u in db && Reaches(db, t, u)
  }

  /** The number of types contained in `t`: the termination measure of every walk. */
  ghost function Rank(db: Db, t: TypeId): (r: nat)
    ensures r <= |db|
  {
    assert ReachSet(db, t) <= db.Keys;
    SubsetSize(ReachSet(db, t), db.Keys);
    |ReachSet(db, t)|
  }

  lemma RankFalls(db: Db, t: TypeId, u: TypeId)
    requires Acyclic(db) && Edge(db, t, u)
    ensures Rank(db, u) < Rank(db, t)
  {
    forall v | v in ReachSet(db, u) ensures v in ReachSet(db, t) {
      ReachesStep(db, t, u, v);
    }
    ReachesSelf(db, t);
    assert t in ReachSet(db, t) && t !in ReachSet(db, u);
    SubsetSize(ReachSet(db, u), ReachSet(db, t));
  }

  /** Acyclic exactly when some numbering falls along every edge. */
  lemma AcyclicIffRanked(db: Db)
    ensures Acyclic(db) <==> exists r :: Ranked(db, r)
  {
    if Acyclic(db) {
      var r := map t | t in db :: Rank(db, t);
      forall t, u | Edge(db, t, u) ensures r[u] < r[t] {
        RankFalls(db, t, u);
      }
      assert Ranked(db, r);
    }
    if r :| Ranked(db, r) {
      AcyclicByRank(db, r);
    }
  }

  /** Giving `o` new members keeps the graph acyclic if none of them contains `o`. */
  lemma AddedEdgesStayAcyclic(db: Db, db': Db, o: TypeId)
    requires Acyclic(db) && db'.Keys <= db.Keys
    requires forall t, u :: Edge(db', t, u) ==>
               Edge(db, t, u) || (t == o && u in db && !Reaches(db, u, o))
    ensures Acyclic(db')
  {
    var n := |db| + 1;
    var r: map<TypeId, nat> := map t | t in db :: Rank(db, t) + if Reaches(db, t, o) then n else 0;
    forall t, u | Edge(db', t, u) ensures r[u] < r[t] {
      if Edge(db, t, u) {
        RankFalls(db, t, u);
        if Reaches(db, u, o) { ReachesStep(db, t, u, o); }
      } else {
        ReachesSelf(db, o);
      }
    }
    AcyclicByRank(db', r);
  }

  // ------------------------------------------------------------------ queries on types

  /** The type that answers the structure and array queries put to `t`: what is inside all
      wrappers. */
  function Direct(db: Db, t: TypeId): (d: TypeId)
    requires Closed(db) && Acyclic(db) && t in db
    ensures d in db && !db[d].kind.Wrapper() && InfoOk(db, d)
    ensures !db[t].kind.Wrapper() ==> d == t
    decreases Rank(db, t)
  {
    assert InfoOk(db, t);
    if db[t].kind.Wrapper() then
      RankFalls(db, t, db[t].kind.target);
      Direct(db, db[t].kind.target)
    else t
  }

  /** Is there a structure behind `t`? (`typeStruc() != nullptr`) */
  predicate HasStruc(db: Db, t: TypeId)
    requires Closed(db) && Acyclic(db) && t in db
  {
    db[Direct(db, t)].kind.StrucLike()
  }

  /** The fields behind `t`; none if there is no structure. */
  function FieldsOf(db: Db, t: TypeId): (m: seq<Field>)
    requires Closed(db) && Acyclic(db) && t in db
    ensures forall f :: f in m && f.typ.Some? ==> f.typ.value in db
  {
    db[Direct(db, t)].fields
  }

  lemma {:induction false} DirectReached(db: Db, t: TypeId)
    requires Closed(db) && Acyclic(db) && t in db
    ensures Reaches(db, t, Direct(db, t))
    decreases Rank(db, t)
  {
    assert InfoOk(db, t);
    if db[t].kind.Wrapper() {
      RankFalls(db, t, db[t].kind.target);
      DirectReached(db, db[t].kind.target);
      ReachesStep(db, t, db[t].kind.target, Direct(db, t));
    } else {
      ReachesSelf(db, t);
    }
  }

  lemma {:induction false} RankDirect(db: Db, t: TypeId)
    requires Closed(db) && Acyclic(db) && t in db
    ensures Rank(db, Direct(db, t)) <= Rank(db, t)
    ensures Direct(db, t) != t ==> Rank(db, Direct(db, t)) < Rank(db, t)
    decreases Rank(db, t)
  {
    assert InfoOk(db, t);
    if db[t].kind.Wrapper() {
      RankFalls(db, t, db[t].kind.target);
      RankDirect(db, db[t].kind.target);
    }
  }

  lemma RankField(db: Db, t: TypeId, f: Field)
    requires Closed(db) && Acyclic(db) && t in db
    requires f in FieldsOf(db, t) && f.typ.Some?
    ensures Rank(db, f.typ.value) < Rank(db, t)
  {
    RankDirect(db, t);
    assert HasFieldOf(db, Direct(db, t), f.typ.value);
    RankFalls(db, Direct(db, t), f.typ.value);
  }

  lemma RankElem(db: Db, t: TypeId)
    requires Closed(db) && Acyclic(db) && t in db
    requires db[Direct(db, t)].kind.Array?
    ensures Rank(db, db[Direct(db, t)].kind.elem) < Rank(db, t)
  {
    RankDirect(db, t);
    RankFalls(db, Direct(db, t), db[Direct(db, t)].kind.elem);
  }

  /** The element type under any nesting of arrays. */
  function SkipArray(db: Db, t: TypeId): (r: TypeId)
    requires Closed(db) && Acyclic(db) && t in db
    ensures r in db && !db[Direct(db, r)].kind.Array?
    ensures Rank(db, r) <= Rank(db, t)
    decreases Rank(db, t)
  {
    match db[Direct(db, t)].kind
    case Array(elem, _) => RankElem(db, t); SkipArray(db, elem)
    case _ => t
  }

  lemma {:induction false} SkipArrayReached(db: Db, t: TypeId)
    requires Closed(db) && Acyclic(db) && t in db
    ensures Reaches(db, t, SkipArray(db, t))
    decreases Rank(db, t)
  {
    var d := Direct(db, t);
    if db[d].kind.Array? {
      RankElem(db, t);
      SkipArrayReached(db, db[d].kind.elem);
      ReachesStep(db, d, db[d].kind.elem, SkipArray(db, t));
      DirectReached(db, t);
      ReachesTrans(db, t, d, SkipArray(db, t));
    } else {
      ReachesSelf(db, t);
    }
  }

  // ------------------------------------------------------------------ sizes

  /** All members start at the base, and there are at least two; a procedure is never a union. */
  predicate IsUnion(info: TypeInfo) {
    var m := info.fields;
    !info.kind.Proc? && |m| > 1 && m[0].key == info.base && m[|m| - 1].key == info.base
  }

  /** Size in bytes; -1 is open. */
  function Size(db: Db, t: TypeId): (r: int)
    requires Closed(db) && Acyclic(db) && t in db
    decreases Rank(db, t), 1, 0
  {
    assert InfoOk(db, t);
    var kind, m := db[t].kind, db[t].fields;
    if kind.Simple? then kind.width
    else if kind.Code? then -1
    else if kind.Array? then
      RankFalls(db, t, kind.elem);
      var sz := Size(db, kind.elem);
      if sz > 0 then (if kind.total > 0 then Times(sz, kind.total) else sz) else -1
    else if kind.Referring() then
      RankFalls(db, t, kind.target);
      Size(db, kind.target)
    else if kind.Seg? then kind.extent
    else if m == [] then 0
    else if IsUnion(db[t]) then MaxSize(db, t, |m|)
    else
      var lower := m[|m| - 1].key - db[t].base;
      if HasMarker(m) then lower
      else
        var sz := GroupSize(db, t, |m|, 0);
        if sz < 0 then sz else lower + sz
  }

  function Times(a: nat, b: nat): nat { a * b }

  function FieldSize(db: Db, t: TypeId, i: nat): int
    requires Closed(db) && Acyclic(db) && t in db && i < |db[t].fields|
    decreases Rank(db, t), 0, 0
  {
    assert InfoOk(db, t);
    var f := db[t].fields[i];
    if f.typ.Some? then
      assert HasFieldOf(db, t, f.typ.value);
      RankFalls(db, t, f.typ.value);
      Size(db, f.typ.value)
    else 0
  }

  /** The largest member of a union. */
  function MaxSize(db: Db, t: TypeId, n: nat): (r: nat)
    requires Closed(db) && Acyclic(db) && t in db && n <= |db[t].fields|
    decreases Rank(db, t), 0, n + 1
  {
    if n == 0 then 0
    else
      var rest, sz := MaxSize(db, t, n - 1), FieldSize(db, t, n - 1);
      if sz > rest then sz else rest
  }

  /** The largest of the fields that share the last address, each at least one byte; an open
      field makes the whole open. */
  function GroupSize(db: Db, t: TypeId, n: nat, sz: nat): (r: int)
    requires Closed(db) && Acyclic(db) && t in db && n <= |db[t].fields|
    ensures r >= 0 ==> r >= sz
    ensures r >= 0 && n == |db[t].fields| && n > 0 ==> r >= 1
    decreases Rank(db, t), 0, n + 1
  {
    var m := db[t].fields;
    if n == 0 || m[n - 1].key != m[|m| - 1].key then sz
    else
      var fsz := FieldSize(db, t, n - 1);
      if fsz < 0 then fsz
      else
        var one := if fsz == 0 then 1 else fsz;
        GroupSize(db, t, n - 1, if one > sz then one else sz)
  }

  /** Bytes a field of known size takes at least. */
  function AtLeastOne(sz: int): int { if sz == 0 then 1 else sz }

  /** The group's size is the largest one in it, or what was known before; it is open exactly if
      some field of the group is. */
  lemma {:induction false} GroupSizeIs(db: Db, t: TypeId, n: nat, sz: nat)
    requires Closed(db) && Acyclic(db) && t in db && n <= |db[t].fields| && Sorted(db[t].fields)
    ensures var m, r := db[t].fields, GroupSize(db, t, n, sz);
            && (r < 0 <==> exists i :: 0 <= i < n && m[i].key == m[|m| - 1].key && FieldSize(db, t, i) < 0)
            && (r >= 0 ==> forall i :: 0 <= i < n && m[i].key == m[|m| - 1].key ==>
                  AtLeastOne(FieldSize(db, t, i)) <= r)
            && (r >= 0 && r != sz ==>
                  exists i :: 0 <= i < n && m[i].key == m[|m| - 1].key && AtLeastOne(FieldSize(db, t, i)) == r)
    decreases n
  {
    hide FieldSize, Closed, Acyclic;
    var m := db[t].fields;
    if n > 0 {
      if m[n - 1].key != m[|m| - 1].key {
        forall i | 0 <= i < n ensures m[i].key != m[|m| - 1].key {
          assert m[i].key <= m[n - 1].key <= m[|m| - 1].key;
        }
      } else {
        var fsz := FieldSize(db, t, n - 1);
        if fsz >= 0 {
          GroupSizeIs(db, t, n - 1, if AtLeastOne(fsz) > sz then AtLeastOne(fsz) else sz);
        }
      }
    }
  }
}
