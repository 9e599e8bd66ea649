/** Containment of types: the walk over all nested fields (`Struc_t::HierIterator`), the
    inclusion test built on it, and assigning a type to a field. */
module Containment {
  import opened Wrappers
  import opened FieldMaps
  import opened TypeDb

  /** Does a field of `t` from position `i` on, or a field nested in one of them, have type
      `o` (through any nesting of arrays)? */
  ghost predicate NestedFrom(db: Db, t: TypeId, i: nat, o: TypeId)
    requires Closed(db) && Acyclic(db) && t in db && i <= |FieldsOf(db, t)|
    decreases Rank(db, t), 1, |FieldsOf(db, t)| - i
  {
    i < |FieldsOf(db, t)| && (Hit(db, t, FieldsOf(db, t)[i], o) || NestedFrom(db, t, i + 1, o))
  }

  ghost predicate Hit(db: Db, t: TypeId, f: Field, o: TypeId)
    requires Closed(db) && Acyclic(db) && t in db && f in FieldsOf(db, t)
    decreases Rank(db, t), 0
  {
    f.typ.Some? &&
    (RankField(db, t, f);
     var u := SkipArray(db, f.typ.value);
     u == o || NestedFrom(db, u, 0, o))
  }

  /** `o` is `t` itself or the type of some field nested in `t`. */
  ghost predicate Includes(db: Db, o: TypeId, t: TypeId)
    requires Closed(db) && Acyclic(db) && t in db
  {
    o == t || NestedFrom(db, t, 0, o)
  }

  /** The number of nested fields the walk still has to visit from position `i` of `t`. */
  ghost function NestedCount(db: Db, t: TypeId, i: nat): nat
    requires Closed(db) && Acyclic(db) && t in db && i <= |FieldsOf(db, t)|
    decreases Rank(db, t), |FieldsOf(db, t)| - i
  {
    var m := FieldsOf(db, t);
    if i == |m| then 0
    else
      1 + NestedCount(db, t, i + 1) +
      if m[i].typ.Some? then
        RankField(db, t, m[i]);
        NestedCount(db, SkipArray(db, m[i].typ.value), 0)
      else 0
  }

  lemma {:induction false} NestedFromExists(db: Db, t: TypeId, i: nat, o: TypeId)
    requires Closed(db) && Acyclic(db) && t in db && i <= |FieldsOf(db, t)|
    ensures NestedFrom(db, t, i, o) <==>
            exists j :: i <= j < |FieldsOf(db, t)| && Hit(db, t, FieldsOf(db, t)[j], o)
    decreases |FieldsOf(db, t)| - i
  {
    var m := FieldsOf(db, t);
    if i < |m| {
      NestedFromExists(db, t, i + 1, o);
      assert NestedFrom(db, t, i, o) <==> Hit(db, t, m[i], o) || NestedFrom(db, t, i + 1, o);
    }
  }

  // ------------------------------------------------------------------ the walk's stack

  /** A position of the walk: a structure and one of its fields. */
  datatype HierFrame = HierFrame(t: TypeId, i: nat)

  /** Every frame stands on a field. */
  ghost predicate StackOk(db: Db, st: seq<HierFrame>)
    requires Closed(db) && Acyclic(db)
  {
    forall k :: 0 <= k < |st| ==> st[k].t in db && st[k].i < |FieldsOf(db, st[k].t)|
  }

  /** The same, except that the top frame may have run past its last field. */
  ghost predicate TopOk(db: Db, st: seq<HierFrame>)
    requires Closed(db) && Acyclic(db)
  {
    st != [] ==>
      && StackOk(db, st[..|st| - 1])
      && st[|st| - 1].t in db && st[|st| - 1].i <= |FieldsOf(db, st[|st| - 1].t)|
  }

  /** Is there a hit behind the fields the lower frames stand on? */
  ghost predicate PendingBelow(db: Db, st: seq<HierFrame>, o: TypeId)
    requires Closed(db) && Acyclic(db) && StackOk(db, st)
  {
    st != [] &&
    (var top := st[|st| - 1];
     NestedFrom(db, top.t, top.i + 1, o) || PendingBelow(db, st[..|st| - 1], o))
  }

  /** Is there a hit among the fields still to be visited? */
  ghost predicate Pending(db: Db, st: seq<HierFrame>, o: TypeId)
    requires Closed(db) && Acyclic(db) && TopOk(db, st)
  {
    st != [] &&
    (NestedFrom(db, st[|st| - 1].t, st[|st| - 1].i, o) || PendingBelow(db, st[..|st| - 1], o))
  }

  ghost function WorkBelow(db: Db, st: seq<HierFrame>): nat
    requires Closed(db) && Acyclic(db) && StackOk(db, st)
  {
    if st == [] then 0
    else
      var top := st[|st| - 1];
      NestedCount(db, top.t, top.i + 1) + WorkBelow(db, st[..|st| - 1])
  }

  /** The number of fields still to be visited. */
  ghost function Work(db: Db, st: seq<HierFrame>): nat
    requires Closed(db) && Acyclic(db) && TopOk(db, st)
  {
    if st == [] then 0
    else NestedCount(db, st[|st| - 1].t, st[|st| - 1].i) + WorkBelow(db, st[..|st| - 1])
  }

  /** Moves the top frame to its next field. */
  function Bump(db: Db, st: seq<HierFrame>): (r: seq<HierFrame>)
    requires Closed(db) && Acyclic(db) && StackOk(db, st) && st != []
    ensures TopOk(db, r) && |r| == |st|
    ensures r[..|r| - 1] == st[..|st| - 1]
    ensures r[|r| - 1] == HierFrame(st[|st| - 1].t, st[|st| - 1].i + 1)
  {
    st[..|st| - 1] + [HierFrame(st[|st| - 1].t, st[|st| - 1].i + 1)]
  }

  /** The walk starts on the first field, if there is one. */
  lemma StartStep(db: Db, t: TypeId, o: TypeId)
    requires Closed(db) && Acyclic(db) && t in db
    ensures FieldsOf(db, t) == [] ==> !NestedFrom(db, t, 0, o)
    ensures FieldsOf(db, t) != [] ==>
              StackOk(db, [HierFrame(t, 0)]) && (Pending(db, [HierFrame(t, 0)], o) <==> NestedFrom(db, t, 0, o))
  {
  }

  /** The current field is a hit. */
  lemma HitStep(db: Db, st: seq<HierFrame>, o: TypeId)
    requires Closed(db) && Acyclic(db) && StackOk(db, st) && st != []
    requires var top := st[|st| - 1];
             var f := FieldsOf(db, top.t)[top.i];
             f.typ.Some? && SkipArray(db, f.typ.value) == o
    ensures Pending(db, st, o)
  {
    var top := st[|st| - 1];
    assert Hit(db, top.t, FieldsOf(db, top.t)[top.i], o);
  }

  /** Stepping into the structure behind the current field. */
  lemma PushStep(db: Db, st: seq<HierFrame>, u: TypeId, o: TypeId)
    requires Closed(db) && Acyclic(db) && StackOk(db, st) && st != []
    requires var top := st[|st| - 1];
             var f := FieldsOf(db, top.t)[top.i];
             f.typ.Some? && u == SkipArray(db, f.typ.value) && u != o && FieldsOf(db, u) != []
    ensures var st' := st + [HierFrame(u, 0)];
            StackOk(db, st') && Pending(db, st', o) == Pending(db, st, o) && Work(db, st') < Work(db, st)
  {
    var st' := st + [HierFrame(u, 0)];
    var top := st[|st| - 1];
    assert st'[..|st'| - 1] == st;
    assert NestedFrom(db, top.t, top.i, o)
           <==> NestedFrom(db, u, 0, o) || NestedFrom(db, top.t, top.i + 1, o);
  }

  /** Passing over a field behind which there is nothing to visit. */
  lemma BumpStep(db: Db, st: seq<HierFrame>, o: TypeId)
    requires Closed(db) && Acyclic(db) && StackOk(db, st) && st != []
    requires var top := st[|st| - 1];
             var f := FieldsOf(db, top.t)[top.i];
             f.typ.Some? ==> SkipArray(db, f.typ.value) != o && FieldsOf(db, SkipArray(db, f.typ.value)) == []
    ensures Pending(db, Bump(db, st), o) == Pending(db, st, o)
    ensures Work(db, Bump(db, st)) < Work(db, st)
  {
    var top := st[|st| - 1];
    var f := FieldsOf(db, top.t)[top.i];
    if f.typ.Some? {
      assert !NestedFrom(db, SkipArray(db, f.typ.value), 0, o);
    }
    assert NestedFrom(db, top.t, top.i, o) <==> NestedFrom(db, top.t, top.i + 1, o);
  }

  /** Leaving a structure whose fields are all visited. */
  lemma PopStep(db: Db, st: seq<HierFrame>, o: TypeId)
    requires Closed(db) && Acyclic(db) && TopOk(db, st) && st != []
    requires st[|st| - 1].i == |FieldsOf(db, st[|st| - 1].t)|
    ensures var front := st[..|st| - 1];
            var st' := if front == [] then [] else Bump(db, front);
            && TopOk(db, st')
            && (Pending(db, st, o) <==> st' != [] && Pending(db, st', o))
            && Work(db, st') == Work(db, st)
  {
    var front := st[..|st| - 1];
    if front != [] {
      assert Bump(db, front)[..|front| - 1] == front[..|front| - 1];
    }
  }

  // ------------------------------------------------------------------ inclusion and the graph

  lemma {:induction false} IncludesReaches(db: Db, o: TypeId, t: TypeId)
    requires Closed(db) && Acyclic(db) && t in db && Includes(db, o, t)
    ensures Reaches(db, t, o)
    decreases Rank(db, t)
  {
    if o == t {
      ReachesSelf(db, t);
    } else {
      NestedFromExists(db, t, 0, o);
      var j :| 0 <= j < |FieldsOf(db, t)| && Hit(db, t, FieldsOf(db, t)[j], o);
      var f := FieldsOf(db, t)[j];
      var u := f.typ.value;
      RankField(db, t, f);
      IncludesReaches(db, o, SkipArray(db, u));
      SkipArrayReached(db, u);
      ReachesTrans(db, u, SkipArray(db, u), o);
      var d := Direct(db, t);
      assert HasFieldOf(db, d, u);
      ReachesStep(db, d, u, o);
      DirectReached(db, t);
      ReachesTrans(db, t, d, o);
    }
  }

  lemma {:induction false} NestedDirect(db: Db, t: TypeId, i: nat, o: TypeId)
    requires Closed(db) && Acyclic(db) && t in db && i <= |FieldsOf(db, t)|
    ensures NestedFrom(db, t, i, o) <==> NestedFrom(db, Direct(db, t), i, o)
    decreases |FieldsOf(db, t)| - i
  {
    if i < |FieldsOf(db, t)| {
      NestedDirect(db, t, i + 1, o);
    }
  }

  lemma {:induction false} IncludedIsLower(db: Db, o: TypeId, t: TypeId)
    requires Closed(db) && Acyclic(db) && t in db && Includes(db, o, t)
    ensures o in db && Rank(db, o) <= Rank(db, t)
  {
    IncludesReaches(db, o, t);
    var p :| PathFromTo(db, p, t, o);
    PathFalls(db, p);
  }

  lemma {:induction false} PathFalls(db: Db, p: seq<TypeId>)
    requires Acyclic(db) && IsPath(db, p)
    ensures Rank(db, p[|p| - 1]) <= Rank(db, p[0])
  {
    hide Acyclic;
    if |p| > 1 {
      var q := p[1..];
      assert Edge(db, p[0], p[1]);
      RankFalls(db, p[0], p[1]);
      forall i | 0 <= i < |q| - 1 ensures Edge(db, q[i], q[i + 1]) {
        assert Edge(db, p[i + 1], p[i + 2]);
      }
      PathFalls(db, q);
    }
  }

  /** A type that contains `o` but is not `o`, although it shows the fields of `o` or passes for
      it: a wrapper of `o`, or of something that hides it; or a modifier of a type in which `o`, or
      something that hides it, is included. The walk compares types by identity, and does not look
      behind a modifier. */
  ghost predicate Hides(db: Db, w: TypeId, o: TypeId)
    requires Closed(db) && Acyclic(db)
    decreases if w in db then Rank(db, w) else 0
  {
    w in db && w != o && InfoOk(db, w) &&
    if db[w].kind.Wrapper() then
      RankDirect(db, w);
      Direct(db, w) == o || Hides(db, Direct(db, w), o)
    else
      db[w].kind.Modifier? &&
      exists x :: && x in db && Rank(db, x) < Rank(db, w)
                  && Includes(db, x, SkipArray(db, db[w].kind.target)) && (x == o || Hides(db, x, o))
  }

  lemma HiddenByWrapper(db: Db, t: TypeId, w: TypeId, o: TypeId)
    requires Closed(db) && Acyclic(db) && t in db && t != o && db[t].kind.Wrapper()
    requires w in db && (w == o || Hides(db, w, o)) && Direct(db, t) == Direct(db, w)
    requires o in db && !db[o].kind.Wrapper()
    ensures Hides(db, t, o)
  {
    RankDirect(db, t);
    assert InfoOk(db, t);
  }

  lemma HiddenByModifier(db: Db, t: TypeId, w: TypeId, o: TypeId)
    requires Closed(db) && Acyclic(db) && t in db && t != o && db[t].kind.Modifier? && InfoOk(db, t)
    requires w in db && Rank(db, w) < Rank(db, t) && Includes(db, w, SkipArray(db, db[t].kind.target))
    requires w == o || Hides(db, w, o)
    ensures Hides(db, t, o)
  {
    hide Closed, Acyclic, Includes;
  }

  lemma IncludedByField(db: Db, t: TypeId, u: TypeId, w: TypeId)
    requires Closed(db) && Acyclic(db) && t in db && u in db && HasFieldOf(db, t, u) && db[t].kind.StrucLike()
    requires Includes(db, w, SkipArray(db, u))
    ensures SkipArray(db, t) == t && Includes(db, w, t)
  {
    hide Closed, Acyclic;
    var f :| f in db[t].fields && f.typ == Some(u);
    var j :| 0 <= j < |FieldsOf(db, t)| && FieldsOf(db, t)[j] == f;
    assert Hit(db, t, FieldsOf(db, t)[j], w);
    NestedFromExists(db, t, 0, w);
  }

  lemma InfoKnown(db: Db, t: TypeId)
    requires Closed(db) && t in db
    ensures InfoOk(db, t)
  {}

  /** The inclusion test sees `o`, or something that hides `o`, wherever `o` is contained. */
  lemma {:induction false} ReachesIncludes(db: Db, o: TypeId, t: TypeId) returns (w: TypeId)
    requires Closed(db) && Acyclic(db) && t in db && o in db
    requires db[o].kind.StrucLike()
    requires Reaches(db, t, o)
    ensures w == o || Hides(db, w, o)
    ensures Includes(db, w, SkipArray(db, t))
    decreases Rank(db, t)
  {
    hide Closed, Acyclic, Reaches, NestedFrom, Hit, Hides;
    InfoKnown(db, t);
    if t == o {
      w := o;
    } else {
      var u := ReachesSplit(db, t, o);
      RankFalls(db, t, u);
      w := ReachesIncludes(db, o, u);
      IncludedIsLower(db, w, SkipArray(db, u));
      if db[t].kind.Array? && db[t].kind.elem == u {
      } else if db[t].kind.Wrapper() {
        if !db[Direct(db, u)].kind.Array? {
          if w == u {
            HiddenByWrapper(db, t, w, o);
            w := t;
          } else {
            NestedDirect(db, t, 0, w);
            NestedDirect(db, u, 0, w);
          }
        }
      } else if db[t].kind.Modifier? {
        HiddenByModifier(db, t, w, o);
        w := t;
      } else {
        IncludedByField(db, t, u, w);
      }
    }
  }

  /** The test is exact: the structure `o` is contained in `t` if and only if `o` or something
      that hides it is found by the walk. */
  lemma InclusionIsContainment(db: Db, o: TypeId, t: TypeId)
    requires Closed(db) && Acyclic(db) && t in db && o in db
    requires db[o].kind.StrucLike()
    ensures Reaches(db, t, o) <==>
            exists w :: (w == o || Hides(db, w, o)) && Includes(db, w, SkipArray(db, t))
  {
    hide Closed, Acyclic, Reaches, Includes, Hides;
    if Reaches(db, t, o) {
      var w := ReachesIncludes(db, o, t);
      assert (w == o || Hides(db, w, o)) && Includes(db, w, SkipArray(db, t));
    }
    if w :| (w == o || Hides(db, w, o)) && Includes(db, w, SkipArray(db, t)) {
      ShownReaches(db, o, t, w);
    }
  }

  lemma {:induction false} ShownReaches(db: Db, o: TypeId, t: TypeId, w: TypeId)
    requires Closed(db) && Acyclic(db) && t in db && o in db
    requires (w == o || Hides(db, w, o)) && Includes(db, w, SkipArray(db, t))
    ensures Reaches(db, t, o)
  {
    hide Closed, Acyclic, Reaches, Includes, Hides;
    SkipArrayReached(db, t);
    IncludesReaches(db, w, SkipArray(db, t));
    ReachesTrans(db, t, SkipArray(db, t), w);
    if w != o {
      HiderReaches(db, w, o);
      ReachesTrans(db, t, w, o);
    }
  }

  lemma {:induction false} HiderReaches(db: Db, w: TypeId, o: TypeId)
    requires Closed(db) && Acyclic(db) && o in db && Hides(db, w, o)
    ensures Reaches(db, w, o)
    decreases Rank(db, w)
  {
    hide Closed, Acyclic, Reaches, Includes;
    if db[w].kind.Wrapper() {
      RankDirect(db, w);
      DirectReached(db, w);
      if Direct(db, w) != o {
        HiderReaches(db, Direct(db, w), o);
        ReachesTrans(db, w, Direct(db, w), o);
      }
    } else {
      var u := db[w].kind.target;
      var x :| x in db && Rank(db, x) < Rank(db, w) && Includes(db, x, SkipArray(db, u)) && (x == o || Hides(db, x, o));
      SkipArrayReached(db, u);
      IncludesReaches(db, x, SkipArray(db, u));
      ReachesTrans(db, u, SkipArray(db, u), x);
      assert Edge(db, w, u);
      ReachesStep(db, w, u, x);
      if x != o {
        HiderReaches(db, x, o);
        ReachesTrans(db, w, x, o);
      }
    }
  }

  // ------------------------------------------------------------------ SetType

  function WithType(db: Db, o: TypeId, i: nat, p: Option<TypeId>): (db': Db)
    requires o in db && i < |db[o].fields|
  {
    db[o := db[o].(fields := db[o].fields[i := db[o].fields[i].(typ := p)])]
  }

  /** `SetType` accepts `p` for a field of `o`: only structures are tested, and fields of
      function prototypes are not. */
  ghost predicate TypeAccepted(db: Db, o: TypeId, p: TypeId)
    requires Closed(db) && Acyclic(db) && o in db && p in db
  {
    var u := SkipArray(db, p);
    HasStruc(db, u) && !db[o].kind.FuncDef? ==> !Includes(db, o, u)
  }

  lemma WithTypeEdges(db: Db, o: TypeId, i: nat, p: Option<TypeId>)
    requires Closed(db) && o in db && i < |db[o].fields|
    requires p.Some? ==> p.value in db
    ensures Closed(WithType(db, o, i, p))
    ensures forall t: TypeId, u: TypeId :: Edge(WithType(db, o, i, p), t, u) ==>
              Edge(db, t, u) || (t == o && p == Some(u))
    ensures p.Some? ==> Edge(WithType(db, o, i, p), o, p.value)
    ensures db[o].fields[i].typ.None? ==>
              forall t, u :: Edge(db, t, u) ==> Edge(WithType(db, o, i, p), t, u)
  {
    var db' := WithType(db, o, i, p);
    var m, m' := db[o].fields, db'[o].fields;
    assert forall f :: f in m' ==> f in m || f == m[i].(typ := p) by {
      forall f | f in m' ensures f in m || f == m[i].(typ := p) {
        var j :| 0 <= j < |m'| && m'[j] == f;
        if j != i { assert m[j] == f; }
      }
    }
    forall t | t in db' ensures InfoOk(db', t) {
      assert InfoOk(db, t);
    }
    if p.Some? {
      assert m'[i] in m';
      assert HasFieldOf(db', o, p.value);
    }
    if m[i].typ.None? {
      forall t: TypeId, u: TypeId | Edge(db, t, u) ensures Edge(db', t, u) {
        if t == o && HasFieldOf(db, t, u) {
          var f :| f in m && f.typ == Some(u);
          var j :| 0 <= j < |m| && m[j] == f;
          assert m'[j] == f;
          assert HasFieldOf(db', t, u);
        }
      }
    }
  }

  /** Taking a type away never makes anything recursive. */
  lemma ClearTypeKeepsAcyclic(db: Db, o: TypeId, i: nat)
    requires Closed(db) && Acyclic(db) && o in db && i < |db[o].fields|
    ensures Closed(WithType(db, o, i, None)) && Acyclic(WithType(db, o, i, None))
  {
    WithTypeEdges(db, o, i, None);
    AddedEdgesStayAcyclic(db, WithType(db, o, i, None), o);
  }

  lemma {:induction false} PathStays(db: Db, db': Db, p: seq<TypeId>)
    requires IsPath(db, p) && db.Keys <= db'.Keys
    requires forall t, u :: Edge(db, t, u) ==> Edge(db', t, u)
    ensures IsPath(db', p)
  {
    forall i | 0 <= i < |p| - 1 ensures Edge(db', p[i], p[i + 1]) {
      assert Edge(db, p[i], p[i + 1]);
    }
  }

  /** An accepted type keeps the database free of recursion if and only if nothing that hides the
      owner is included in it. */
  lemma SetTypeAcyclicIff(db: Db, o: TypeId, i: nat, p: TypeId)
    requires Closed(db) && Acyclic(db) && o in db && i < |db[o].fields| && p in db
    requires db[o].kind.StrucLike() && !db[o].kind.FuncDef?
    requires db[o].fields[i].typ.None?
    requires TypeAccepted(db, o, p)
    ensures Closed(WithType(db, o, i, Some(p)))
    ensures Acyclic(WithType(db, o, i, Some(p))) <==>
            forall w :: Hides(db, w, o) ==> !Includes(db, w, SkipArray(db, p))
  {
    var db' := WithType(db, o, i, Some(p));
    WithTypeEdges(db, o, i, Some(p));
    InclusionIsContainment(db, o, p);
    var u := SkipArray(db, p);
    assert !Includes(db, o, u);
    if !Reaches(db, p, o) {
      AddedEdgesStayAcyclic(db, db', o);
    } else {
      var q :| PathFromTo(db, q, p, o);
      PathStays(db, db', q);
      assert PathFromTo(db', q, p, o);
      assert Edge(db', o, p);
    }
  }
}
