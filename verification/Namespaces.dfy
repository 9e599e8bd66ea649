/** The namespace: unique names for objects, with numbered suffixes for duplicates. */
module Namespaces {
  import opened Wrappers
  import opened Naming

  type ObjId = nat

  /** A name and the object it refers to. */
  datatype Entry = Entry(name: string, obj: ObjId)

  /** The names by their keys, and the name every named object keeps. */
  datatype Space = Space(names: map<string, Entry>, named: map<ObjId, string>)

  /** Names and objects correspond one to one. */
  ghost predicate OneToOne(ns: Space) {
    && (forall k :: k in ns.names ==>
          Key(ns.names[k].name) == k && ns.names[k].obj in ns.named && ns.named[ns.names[k].obj] == ns.names[k].name)
    && (forall o :: o in ns.named ==>
          Key(ns.named[o]) in ns.names && ns.names[Key(ns.named[o])] == Entry(ns.named[o], o))
  }

  predicate Taken(ns: Space, name: string) { Key(name) in ns.names }

  /** Takes the name off an object. */
  function Unnamed(ns: Space, o: ObjId): Space {
    if o in ns.named then Space(ns.names - {Key(ns.named[o])}, ns.named - {o}) else ns
  }

  /** `AddName` without sharing: an empty name takes the old one off; a taken one is refused,
      even if the object itself has it; any other replaces the old one. */
  function Added(ns: Space, name: string, o: ObjId): (Space, bool) {
    if name == "" then (Unnamed(ns, o), false)
    else if Taken(ns, name) then (ns, false)
    else
      var without := Unnamed(ns, o);
      (Space(without.names[Key(name) := Entry(name, o)], without.named[o := name]), true)
  }

  lemma AddedKeepsOneToOne(ns: Space, name: string, o: ObjId)
    requires OneToOne(ns)
    ensures OneToOne(Added(ns, name, o).0)
    ensures Added(ns, name, o).1 ==> Added(ns, name, o).0.named == ns.named[o := name]
  {
    hide Key;
    var ns' := Added(ns, name, o).0;
    forall k | k in ns'.names
      ensures Key(ns'.names[k].name) == k && ns'.names[k].obj in ns'.named
      ensures ns'.named[ns'.names[k].obj] == ns'.names[k].name
    {
      if k in ns.names && ns.names[k].obj == o { assert ns.named[o] == ns.names[k].name; }
    }
    forall x | x in ns'.named
      ensures Key(ns'.named[x]) in ns'.names && ns'.names[Key(ns'.named[x])] == Entry(ns'.named[x], x)
    {
      if x != o && o in ns.named { assert ns.names[Key(ns.named[x])] != ns.names[Key(ns.named[o])]; }
    }
  }

  /** A map with one entry more, or none. */
  lemma Grown(names: map<string, Entry>, names': map<string, Entry>, key: string, ok: bool)
    requires names'.Keys == names.Keys + {key} && (ok <==> key !in names)
    requires forall k :: k in names ==> names'[k] == names[k]
    ensures names' == if ok then names[key := names'[key]] else names
  {}

  lemma AddedIs(ns: Space, name: string, o: ObjId)
    requires OneToOne(ns) && name != "" && !Taken(ns, name)
    ensures var names' := ns.names[Key(name) := Entry(name, o)];
            Added(ns, name, o) == (Space(if o in ns.named then names' - {Key(ns.named[o])} else names',
                                         ns.named[o := name]), true)
  {
    hide Key;
    if o in ns.named {
      assert Key(ns.named[o]) != Key(name);
      assert ns.names[Key(name) := Entry(name, o)] - {Key(ns.named[o])}
          == (ns.names - {Key(ns.named[o])})[Key(name) := Entry(name, o)];
      assert (ns.named - {o})[o := name] == ns.named[o := name];
    }
  }

  // ------------------------------------------------------------------ the smallest free number

  /** A length prefix, if there is one, is closed. */
  predicate WellPrefixed(s: string) {
    s != "" && s[0] == '[' ==> ']' in s
  }

  lemma {:induction false} SkipJoined(s: string, t: string, n: int)
    requires ']' in s
    ensures SkipLength(s + t, n) == (SkipLength(s, n).0 + t, SkipLength(s, n).1)
  {
    assert s == [s[0]] + s[1..];
    if s[0] == ']' {
      assert (s + t)[1..] == s[1..] + t;
    } else {
      assert (s + t)[1..] == s[1..] + t;
      SkipJoined(s[1..], t, n * 10 + (s[0] as int - '0' as int));
    }
  }

  /** The key of a numbered name is the numbered key. */
  lemma DupKey(s: string, i: nat)
    requires WellPrefixed(s) && s != ""
    ensures Key(Dup(s, i)) == Dup(Key(s), i)
  {
    hide Dec, SkipLength;
    var t := [SEPARATOR] + Dec(i) + [TERMINATOR];
    assert Dup(s, i) == s + t;
    if s[0] == '[' {
      assert s == [s[0]] + s[1..];
      assert (s + t)[1..] == s[1..] + t;
      SkipJoined(s[1..], t, 0);
      assert Dup(Key(s), i) == Key(s) + t;
    }
  }

  /** So it tells the number. */
  lemma DupKeysDiffer(s: string, i: nat, j: nat)
    requires WellPrefixed(s) && s != "" && 0 < i < j
    ensures Key(Dup(s, i)) != Key(Dup(s, j))
  {
    hide Key, Dup, ChopName;
    DupKey(s, i);
    DupKey(s, j);
    ChopDup(Key(s), i);
    ChopDup(Key(s), j);
  }

  ghost function FirstKeys(s: string, n: nat): set<string> {
    if n == 0 then {} else FirstKeys(s, n - 1) + {Key(Dup(s, n))}
  }

  lemma {:induction false} FirstKeysAre(s: string, n: nat)
    requires WellPrefixed(s) && s != ""
    ensures |FirstKeys(s, n)| == n
    ensures forall k :: k in FirstKeys(s, n) ==> exists j :: 1 <= j <= n && Key(Dup(s, j)) == k
  {
    hide Key, Dup;
    if n > 0 {
      FirstKeysAre(s, n - 1);
      if Key(Dup(s, n)) in FirstKeys(s, n - 1) {
        var j :| 1 <= j <= n - 1 && Key(Dup(s, j)) == Key(Dup(s, n));
        DupKeysDiffer(s, j, n);
      }
      forall k | k in FirstKeys(s, n) ensures exists j :: 1 <= j <= n && Key(Dup(s, j)) == k {
        if k in FirstKeys(s, n - 1) { var j :| 1 <= j <= n - 1 && Key(Dup(s, j)) == k; }
      }
    }
  }

  /** Not all of the first numbers can be taken in a finite namespace. */
  lemma TakenBound(ns: Space, s: string, n: nat)
    requires WellPrefixed(s) && s != ""
    requires forall j :: 1 <= j <= n ==> Taken(ns, Dup(s, j))
    ensures n <= |ns.names|
  {
    hide Key, Dup;
    FirstKeysAre(s, n);
    forall k | k in FirstKeys(s, n) ensures k in ns.names.Keys {
      var j :| 1 <= j <= n && Key(Dup(s, j)) == k;
      assert Taken(ns, Dup(s, j));
    }
    SubsetSize(FirstKeys(s, n), ns.names.Keys);
    assert |ns.names.Keys| == |ns.names|;
  }

  /** The smallest free duplicate number from `i` on. */
  function FirstFree(ns: Space, s: string, i: nat): (r: nat)
    requires WellPrefixed(s) && s != "" && i > 0
    requires forall j :: 1 <= j < i ==> Taken(ns, Dup(s, j))
    ensures i <= r <= |ns.names| + 1 && !Taken(ns, Dup(s, r))
    ensures forall j :: 1 <= j < r ==> Taken(ns, Dup(s, j))
    decreases |ns.names| + 1 - i
  {
    TakenBound(ns, s, i - 1);
    if Taken(ns, Dup(s, i)) then
      TakenBound(ns, s, i);
      FirstFree(ns, s, i + 1)
    else i
  }

  // ------------------------------------------------------------------ forcing a name

  /** `ForceName`: below 0 the name is tried as it is; at 0 it gets a number if it is taken;
      above 0 it always gets one. */
  function ForcedName(ns: Space, s: string, mode: int): Option<string>
    requires WellPrefixed(s) && s != ""
  {
    if mode < 1 && !Taken(ns, s) then Some(s)
    else if mode < 0 then None
    else Some(Dup(s, FirstFree(ns, s, 1)))
  }

  function Forced(ns: Space, s: string, o: ObjId, mode: int): Space
    requires WellPrefixed(s) && s != ""
  {
    var n := ForcedName(ns, s, mode);
    if n.Some? then Added(ns, n.value, o).0 else ns
  }

  /** From mode 0 on the object always gets a name, with a number no larger than the namespace
      allows, from which chopping recovers the name asked for. */
  lemma ForcedIsNamed(ns: Space, s: string, o: ObjId, mode: int)
    requires OneToOne(ns) && WellPrefixed(s) && s != "" && mode >= 0
    ensures var ns' := Forced(ns, s, o, mode);
            && OneToOne(ns') && o in ns'.named
            && (ns'.named[o] == s
                || (ChopName(ns'.named[o], None).0 == s && 1 <= ChopName(ns'.named[o], None).1 <= |ns.names| + 1))
            && (mode == 0 && !Taken(ns, s) ==> ns'.named[o] == s)
            && (forall x :: x != o ==>
                  (x in ns'.named <==> x in ns.named) && (x in ns.named ==> ns'.named[x] == ns.named[x]))
  {
    hide OneToOne, Dup, ChopName, Key;
    var n := ForcedName(ns, s, mode).value;
    AddedKeepsOneToOne(ns, n, o);
    if n != s {
      ChopDup(s, FirstFree(ns, s, 1));
    }
  }

  /** Forcing on an object the very name it has gives it a number all the same: the name counts
      as taken. */
  lemma OwnNameIsTaken(ns: Space, s: string, o: ObjId)
    requires OneToOne(ns) && WellPrefixed(s) && s != "" && o in ns.named && ns.named[o] == s
    ensures Forced(ns, s, o, 0).named[o] == Dup(s, FirstFree(ns, s, 1)) != s
  {
    hide Key;
    AddedKeepsOneToOne(ns, Dup(s, FirstFree(ns, s, 1)), o);
    assert |Dup(s, FirstFree(ns, s, 1))| > |s|;
  }

  // ------------------------------------------------------------------ runs

  datatype Op = Name(name: string, obj: ObjId) | Force(base: string, owner: ObjId, mode: int)

  predicate CanDo(op: Op) {
    op.Force? ==> WellPrefixed(op.base) && op.base != ""
  }

  function Do(ns: Space, op: Op): Space
    requires CanDo(op)
  {
    match op
    case Name(name, o) => Added(ns, name, o).0
    case Force(base, o, mode) => Forced(ns, base, o, mode)
  }

  ghost predicate IsRun(run: seq<Space>, ops: seq<Op>) {
    && |run| == |ops| + 1 && run[0] == Space(map[], map[])
    && forall i :: 0 <= i < |ops| ==> CanDo(ops[i]) && run[i + 1] == Do(run[i], ops[i])
  }

  /** After any run names and objects correspond one to one: no two objects share a name, and a
      name leads back to its object. */
  lemma {:induction false} RunsStayOneToOne(run: seq<Space>, ops: seq<Op>, n: nat)
    requires IsRun(run, ops) && n <= |ops|
    ensures OneToOne(run[n])
    ensures forall a, b :: a in run[n].named && b in run[n].named && run[n].named[a] == run[n].named[b] ==> a == b
  {
    if n > 0 {
      RunsStayOneToOne(run, ops, n - 1);
      hide Key;
      match ops[n - 1] {
        case Name(name, o) => AddedKeepsOneToOne(run[n - 1], name, o);
        case Force(base, o, mode) =>
          var f := ForcedName(run[n - 1], base, mode);
          if f.Some? { AddedKeepsOneToOne(run[n - 1], f.value, o); }
      }
    }
  }

  // ------------------------------------------------------------------ the object

  class NamesMgr {
    var names: map<string, Entry>
    var named: map<ObjId, string>

    constructor ()
      ensures State() == Space(map[], map[])
    {
      names, named := map[], map[];
    }

    function State(): Space
      reads this
    {
      Space(names, named)
    }

    /** Takes an object's name out of the namespace. */
    method RemoveName(o: ObjId)
      modifies this
      ensures State() == Unnamed(old(State()), o)
    {
      if o in named {
        names := names - {Key(named[o])};
        named := named - {o};
      }
    }

    /** Enters a name unless its key is there: afterwards the key is there in any case, whoever
        had a name before still has it, and success means that there is one name more, and that it
        is the object's. */
    method InsertIfNotExist(name: string, o: ObjId) returns (ok: bool)
      modifies this`names
      ensures names.Keys == old(names).Keys + {Key(name)}
      ensures forall k :: k in old(names) ==> names[k] == old(names)[k]
      ensures ok <==> |names| == |old(names)| + 1
      ensures ok <==> !Taken(old(State()), name)
      ensures ok ==> names[Key(name)] == Entry(name, o)
    {
      ok := Key(name) !in names;
      if ok {
        names := names[Key(name) := Entry(name, o)];
      }
    }

    method AddName(name: string, o: ObjId) returns (ok: bool)
      requires OneToOne(State())
      modifies this
      ensures (State(), ok) == Added(old(State()), name, o)
      ensures OneToOne(State())
    {
      hide Key, OneToOne;
      ghost var was := State();
      AddedKeepsOneToOne(was, name, o);
      if name == "" {
        RemoveName(o);
        return false;
      }
      ok := InsertIfNotExist(name, o);
      Grown(was.names, names, Key(name), ok);
      if !ok {
        return;
      }
      AddedIs(was, name, o);
      hide Added;
      if o in named {
        names := names - {Key(named[o])};
      }
      named := named[o := name];
    }

    /** Tries the name, then the name with one number after the other. */
    method ForceName(s: string, o: ObjId, mode: int) returns (r: Option<string>)
      requires OneToOne(State()) && WellPrefixed(s) && s != ""
      modifies this
      ensures r == ForcedName(old(State()), s, mode)
      ensures State() == Forced(old(State()), s, o, mode)
      ensures OneToOne(State())
    {
      hide Key, Dup, OneToOne, Unnamed;
      if mode < 1 {
        var ok := AddName(s, o);
        if ok {
          return Some(s);
        }
        if mode < 0 {
          return None;
        }
      }
      var i: nat := 1;
      while true
        invariant i >= 1 && State() == old(State()) && OneToOne(State())
        invariant forall j :: 1 <= j < i ==> Taken(State(), Dup(s, j))
        invariant FirstFree(State(), s, i) == FirstFree(State(), s, 1)
        decreases |names| + 1 - i
      {
        TakenBound(State(), s, i - 1);
        var ok := AddName(Dup(s, i), o);
        if ok {
          return Some(Dup(s, i));
        }
        i := i + 1;
      }
    }
  }
}
