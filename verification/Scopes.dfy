/** The lowest common scope of two objects, found by aligning the depths of their scope
    chains. */
module Scopes {
  import opened Wrappers

  type ScopeId = nat

  /** The owner scope of every scope that has one. */
  type Owners = map<ScopeId, ScopeId>

  /** Ownership ends: some numbering falls along it. */
  ghost predicate Founded(o: Owners, r: map<ScopeId, nat>) {
    forall x :: x in o ==> x in r && o[x] in r && r[o[x]] < r[x]
  }

  function OwnerScope(o: Owners, x: ScopeId): Option<ScopeId> {
    if x in o then Some(o[x]) else None
  }

  ghost function Height(r: map<ScopeId, nat>, p: Option<ScopeId>): nat {
    if p.None? then 0 else if p.value in r then r[p.value] + 1 else 1
  }

  /** A scope, its owner, its owner's owner, and so on. */
  ghost function Chain(o: Owners, r: map<ScopeId, nat>, p: Option<ScopeId>): (c: seq<ScopeId>)
    requires Founded(o, r)
    ensures c == [] <==> p.None?
    ensures p.Some? ==> c[0] == p.value
    decreases Height(r, p)
  {
    if p.None? then [] else [p.value] + Chain(o, r, OwnerScope(o, p.value))
  }

  /** The quadratic search: the first of the one chain that occurs in the other. */
  function FirstCommon(a: seq<ScopeId>, b: seq<ScopeId>): Option<ScopeId> {
    if a == [] then None else if a[0] in b then Some(a[0]) else FirstCommon(a[1..], b)
  }

  /** From a common node on two chains are the same. */
  lemma {:induction false} ChainTail(o: Owners, r: map<ScopeId, nat>, p: Option<ScopeId>, i: nat)
    requires Founded(o, r) && i < |Chain(o, r, p)|
    ensures Chain(o, r, p)[i..] == Chain(o, r, Some(Chain(o, r, p)[i]))
    decreases i
  {
    if i > 0 {
      ChainTail(o, r, OwnerScope(o, p.value), i - 1);
      assert Chain(o, r, p)[i..] == Chain(o, r, OwnerScope(o, p.value))[i - 1..];
    }
  }

  /** A node of a chain of the same length as another stands in that one at the same place, or
      not at all. */
  lemma SamePlace(o: Owners, r: map<ScopeId, nat>, p: Option<ScopeId>, q: Option<ScopeId>, i: nat, j: nat)
    requires Founded(o, r) && i < |Chain(o, r, p)| && j < |Chain(o, r, q)|
    requires Chain(o, r, p)[i] == Chain(o, r, q)[j]
    ensures |Chain(o, r, p)| - i == |Chain(o, r, q)| - j
  {
    ChainTail(o, r, p, i);
    ChainTail(o, r, q, j);
  }

  lemma {:induction false} FirstCommonSkips(a: seq<ScopeId>, b: seq<ScopeId>, n: nat)
    requires n <= |a| && forall k :: 0 <= k < n ==> a[k] !in b
    ensures FirstCommon(a, b) == FirstCommon(a[n..], b)
  {
    if n > 0 { FirstCommonSkips(a[1..], b, n - 1); }
  }

  lemma {:induction false} FirstCommonDrops(a: seq<ScopeId>, b: seq<ScopeId>, n: nat)
    requires n <= |b| && forall k :: 0 <= k < n ==> b[k] !in a
    ensures FirstCommon(a, b) == FirstCommon(a, b[n..])
  {
    if a != [] {
      assert a[0] in b <==> a[0] in b[n..];
      FirstCommonDrops(a[1..], b, n);
    }
  }

  /** The first node of a longer chain is not common. */
  lemma DropLonger(o: Owners, r: map<ScopeId, nat>, p: Option<ScopeId>, q: Option<ScopeId>)
    requires Founded(o, r) && |Chain(o, r, p)| > |Chain(o, r, q)|
    ensures p.Some? && |Chain(o, r, OwnerScope(o, p.value))| == |Chain(o, r, p)| - 1
    ensures FirstCommon(Chain(o, r, p), Chain(o, r, q))
            == FirstCommon(Chain(o, r, OwnerScope(o, p.value)), Chain(o, r, q))
    ensures FirstCommon(Chain(o, r, q), Chain(o, r, p))
            == FirstCommon(Chain(o, r, q), Chain(o, r, OwnerScope(o, p.value)))
  {
    var a, b := Chain(o, r, p), Chain(o, r, q);
    forall j | 0 <= j < |b| ensures b[j] != a[0] {
      if b[j] == a[0] { SamePlace(o, r, p, q, 0, j); }
    }
    FirstCommonSkips(a, b, 1);
    FirstCommonDrops(b, a, 1);
    assert a[1..] == Chain(o, r, OwnerScope(o, p.value));
  }

  /** Length of a chain. */
  method CountScopes(o: Owners, ghost r: map<ScopeId, nat>, p: Option<ScopeId>) returns (n: nat)
    requires Founded(o, r)
    ensures n == |Chain(o, r, p)|
  {
    n := 0;
    var x := p;
    while x.Some?
      invariant n + |Chain(o, r, x)| == |Chain(o, r, p)|
      decreases Height(r, x)
    {
      n := n + 1;
      x := OwnerScope(o, x.value);
    }
  }

  /** The depth-aligned search returns what the quadratic search returns. */
  method CommonScope(o: Owners, ghost r: map<ScopeId, nat>, p0: Option<ScopeId>, q0: Option<ScopeId>)
      returns (s: Option<ScopeId>)
    requires Founded(o, r)
    ensures s == FirstCommon(Chain(o, r, p0), Chain(o, r, q0))
    ensures s == FirstCommon(Chain(o, r, q0), Chain(o, r, p0))
  {
    hide Chain, FirstCommon, Founded;
    var i: int := CountScopes(o, r, p0);
    var j: int := CountScopes(o, r, q0);
    var pz, qz, d: int := p0, q0, i - j;
    if d < 0 {
      pz, qz, d := q0, p0, -d;
    }
    ghost var s1, s2 := FirstCommon(Chain(o, r, pz), Chain(o, r, qz)), FirstCommon(Chain(o, r, qz), Chain(o, r, pz));
    if qz.Some? {
      while d > 0
        invariant 0 <= d == |Chain(o, r, pz)| - |Chain(o, r, qz)|
        invariant FirstCommon(Chain(o, r, pz), Chain(o, r, qz)) == s1
        invariant FirstCommon(Chain(o, r, qz), Chain(o, r, pz)) == s2
      {
        DropLonger(o, r, pz, qz);
        pz := OwnerScope(o, pz.value);
        d := d - 1;
      }
      while pz.Some? && qz.Some?
        invariant |Chain(o, r, pz)| == |Chain(o, r, qz)|
        invariant FirstCommon(Chain(o, r, pz), Chain(o, r, qz)) == s1
        invariant FirstCommon(Chain(o, r, qz), Chain(o, r, pz)) == s2
        decreases |Chain(o, r, pz)|
      {
        if pz == qz {
          Meet(o, r, pz);
          return pz;
        }
        SkipBoth(o, r, pz, qz);
        pz, qz := OwnerScope(o, pz.value), OwnerScope(o, qz.value);
      }
    }
    NoneCommon(o, r, pz, qz);
    return None;
  }

  lemma Meet(o: Owners, r: map<ScopeId, nat>, p: Option<ScopeId>)
    requires Founded(o, r) && p.Some?
    ensures FirstCommon(Chain(o, r, p), Chain(o, r, p)) == p
  {}

  lemma NoneCommon(o: Owners, r: map<ScopeId, nat>, p: Option<ScopeId>, q: Option<ScopeId>)
    requires Founded(o, r) && (p.None? || q.None?)
    ensures FirstCommon(Chain(o, r, p), Chain(o, r, q)) == None
    ensures FirstCommon(Chain(o, r, q), Chain(o, r, p)) == None
  {
    NothingIn(Chain(o, r, p));
    NothingIn(Chain(o, r, q));
  }

  lemma {:induction false} NothingIn(a: seq<ScopeId>)
    ensures FirstCommon(a, []) == None
  {
    if a != [] { NothingIn(a[1..]); }
  }

  lemma SkipBoth(o: Owners, r: map<ScopeId, nat>, p: Option<ScopeId>, q: Option<ScopeId>)
    requires Founded(o, r) && p.Some? && q.Some? && p != q && |Chain(o, r, p)| == |Chain(o, r, q)|
    ensures |Chain(o, r, OwnerScope(o, p.value))| == |Chain(o, r, p)| - 1 == |Chain(o, r, OwnerScope(o, q.value))|
    ensures FirstCommon(Chain(o, r, p), Chain(o, r, q))
            == FirstCommon(Chain(o, r, OwnerScope(o, p.value)), Chain(o, r, OwnerScope(o, q.value)))
    ensures FirstCommon(Chain(o, r, q), Chain(o, r, p))
            == FirstCommon(Chain(o, r, OwnerScope(o, q.value)), Chain(o, r, OwnerScope(o, p.value)))
  {
    OneApart(o, r, p, q);
    OneApart(o, r, q, p);
  }

  lemma OneApart(o: Owners, r: map<ScopeId, nat>, p: Option<ScopeId>, q: Option<ScopeId>)
    requires Founded(o, r) && p.Some? && q.Some? && p != q && |Chain(o, r, p)| == |Chain(o, r, q)|
    ensures FirstCommon(Chain(o, r, p), Chain(o, r, q))
            == FirstCommon(Chain(o, r, OwnerScope(o, p.value)), Chain(o, r, OwnerScope(o, q.value)))
  {
    var a, b := Chain(o, r, p), Chain(o, r, q);
    forall j | 0 <= j < |b| ensures b[j] != a[0] {
      if b[j] == a[0] { SamePlace(o, r, p, q, 0, j); }
    }
    forall i | 0 <= i < |a| ensures a[i] != b[0] {
      if a[i] == b[0] { SamePlace(o, r, p, q, i, 0); }
    }
    FirstCommonSkips(a, b, 1);
    FirstCommonDrops(a[1..], b, 1);
  }
}
