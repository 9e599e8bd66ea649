/** The address-keyed field maps of the containers: a sorted multimap of fields
    (`FieldMap`), and the insertion that keeps keys unique and swallows an
    end-of-structure marker (`Struc_t::insertUniqueFieldIt`). */
module FieldMaps {
  import opened Wrappers

  type TypeId = nat

  /** A field. The owner is the container whose map holds it. */
  datatype Field = Field(
    id: nat,
    key: int,
    typ: Option<TypeId>,
    named: bool,
    exported: bool,
    userData: bool)
  {
    /** Anything else is indistinguishable from an end marker when it comes last. */
    predicate Real() { typ.Some? || named }

    function Shift(delta: int): Field { this.(key := key + delta) }
  }

  ghost predicate Sorted(m: seq<Field>) {
    forall i, j :: 0 <= i < j < |m| ==> m[i].key <= m[j].key
  }

  ghost predicate StrictlySorted(m: seq<Field>) {
    forall i, j :: 0 <= i < j < |m| ==> m[i].key < m[j].key
  }

  ghost function Keys(m: seq<Field>): set<int> {
    set f | f in m :: f.key
  }

  /** The last field of a map, when it has neither a type nor a name (the map-level test,
      which does not look at the kind of the container). */
  predicate IsMarkerAt(m: seq<Field>, i: nat)
    requires i < |m|
  {
    i == |m| - 1 && !m[i].Real()
  }

  predicate HasMarker(m: seq<Field>) {
    |m| > 0 && IsMarkerAt(m, |m| - 1)
  }

  /** The map without its end marker. */
  function Strip(m: seq<Field>): seq<Field> {
    if HasMarker(m) then m[..|m| - 1] else m
  }

  /** The typed or named fields, in order. */
  function RealFields(m: seq<Field>): seq<Field> {
    if m == [] then []
    else
      var front, last := RealFields(m[..|m| - 1]), m[|m| - 1];
      if last.Real() then front + [last] else front
  }

  lemma {:induction false} RealFieldsConcat(a: seq<Field>, b: seq<Field>)
    ensures RealFields(a + b) == RealFields(a) + RealFields(b)
  {
    if b == [] {
      assert a + b == a;
    } else {
      var c := b[..|b| - 1];
      RealFieldsConcat(a, c);
      assert (a + b)[..|a + b| - 1] == a + c;
      assert (a + b)[|a + b| - 1] == b[|b| - 1];
    }
  }

  lemma {:induction false} RealFieldsAll(m: seq<Field>)
    requires forall f :: f in m ==> f.Real()
    ensures RealFields(m) == m
  {
    if m != [] {
      var front := m[..|m| - 1];
      assert forall f :: f in front ==> f in m;
      RealFieldsAll(front);
      assert m == front + [m[|m| - 1]];
    }
  }

  lemma RealFieldsStrip(m: seq<Field>)
    ensures RealFields(Strip(m)) == RealFields(m)
  {
  }

  /** Number of fields whose key is below `k`. */
  function LowerBound(m: seq<Field>, k: int): (r: nat)
    ensures r <= |m|
    ensures forall i :: 0 <= i < r ==> m[i].key < k
    ensures r < |m| ==> k <= m[r].key
  {
    if m == [] || k <= m[0].key then 0 else 1 + LowerBound(m[1..], k)
  }

  /** Number of fields whose key is at most `k`. */
  function UpperBound(m: seq<Field>, k: int): (r: nat)
    ensures r <= |m|
    ensures forall i :: 0 <= i < r ==> m[i].key <= k
    ensures r < |m| ==> k < m[r].key
  {
    LowerBound(m, k + 1)
  }

  lemma LowerBoundIs(m: seq<Field>, k: int, p: nat)
    requires p <= |m|
    requires p > 0 ==> m[p - 1].key < k
    requires p < |m| ==> k <= m[p].key
    requires Sorted(m)
    ensures LowerBound(m, k) == p
  {
    var r := LowerBound(m, k);
    assert forall i :: 0 <= i < p ==> m[i].key <= m[p - 1].key;
  }

  lemma LowerBoundFinds(m: seq<Field>, k: int)
    requires Sorted(m)
    ensures var i := LowerBound(m, k); k in Keys(m) <==> i < |m| && m[i].key == k
  {
    var i := LowerBound(m, k);
    if k in Keys(m) {
      var f :| f in m && f.key == k;
      var j :| 0 <= j < |m| && m[j] == f;
      assert i <= j;
    }
  }

  /** `insertUniqueFieldIt`: the key is new, or it is taken by the end marker (which is
      replaced), or nothing is inserted. The second result tells success. */
  function InsertUnique(m: seq<Field>, f: Field): (seq<Field>, bool) {
    var i := LowerBound(m, f.key);
    if i < |m| && m[i].key == f.key then
      if IsMarkerAt(m, i) then (m[i := f], true) else (m, false)
    else
      (m[..i] + [f] + m[i..], true)
  }

  lemma InsertUniqueFree(m: seq<Field>, f: Field)
    requires Sorted(m)
    requires f.key !in Keys(m)
    ensures var m' := InsertUnique(m, f).0;
            && |m'| == |m| + 1
            && multiset(m') == multiset(m) + multiset{f}
            && (forall x :: x in m' <==> x in m || x == f)
  {
    hide InsertUnique, Keys, Sorted;
    LowerBoundFinds(m, f.key);
    var i := LowerBound(m, f.key);
    InsertUniqueAt(m, f, i);
    hide LowerBound;
    OneMore(m, f, i);
  }

  lemma OneMore(m: seq<Field>, f: Field, i: nat)
    requires i <= |m|
    ensures var m' := m[..i] + [f] + m[i..];
            && multiset(m') == multiset(m) + multiset{f}
            && (forall x :: x in m' <==> x in m || x == f)
  {
    assert m == m[..i] + m[i..];
  }

  lemma InsertUniqueSorted(m: seq<Field>, f: Field)
    requires Sorted(m)
    ensures Sorted(InsertUnique(m, f).0)
    ensures StrictlySorted(m) ==> StrictlySorted(InsertUnique(m, f).0)
  {
    hide InsertUnique;
    var i := LowerBound(m, f.key);
    InsertUniqueAt(m, f, i);
    hide LowerBound;
    if i == |m| || m[i].key != f.key {
      SortedWith(m, f, i);
    } else if IsMarkerAt(m, i) {
      assert m == m[..i] + [m[i]];
    }
  }

  lemma SortedWith(m: seq<Field>, f: Field, i: nat)
    requires Sorted(m) && i <= |m|
    requires forall j :: 0 <= j < i ==> m[j].key < f.key
    requires i < |m| ==> f.key < m[i].key
    ensures Sorted(m[..i] + [f] + m[i..])
    ensures StrictlySorted(m) ==> StrictlySorted(m[..i] + [f] + m[i..])
  {
    var r := m[..i] + [f] + m[i..];
    forall j, k | 0 <= j < k < |r| ensures r[j].key <= r[k].key && (StrictlySorted(m) ==> r[j].key < r[k].key) {
      var j', k' := if j < i then j else j - 1, if k < i then k else k - 1;
      assert j != i ==> r[j] == m[j'];
      assert k != i ==> r[k] == m[k'];
      assert i < |m| ==> forall l :: i <= l < |m| ==> m[i].key <= m[l].key;
    }
  }

  lemma InsertUniqueKeys(m: seq<Field>, f: Field)
    requires Sorted(m)
    ensures var m' := InsertUnique(m, f).0;
            && Keys(m') == Keys(m) + {f.key}
            && |m'| == |m| + (if f.key in Keys(m) then 0 else 1)
  {
    var i := LowerBound(m, f.key);
    LowerBoundFinds(m, f.key);
    if f.key !in Keys(m) {
      InsertUniqueFree(m, f);
    } else if IsMarkerAt(m, i) {
      assert m == m[..i] + [m[i]];
      assert m[i := f] == m[..i] + [f];
    }
  }

  /** Nothing but the end marker is at the key. */
  ghost predicate OnlyMarkerAt(m: seq<Field>, key: int) {
    HasMarker(m) && m[|m| - 1].key == key && key !in Keys(m[..|m| - 1])
  }

  /** Unique insertion is refused exactly if something other than the end marker has the address;
      then nothing changes. */
  lemma InsertRefusedIff(m: seq<Field>, f: Field)
    requires Sorted(m)
    ensures InsertUnique(m, f).1 <==> f.key !in Keys(m) || OnlyMarkerAt(m, f.key)
    ensures !InsertUnique(m, f).1 ==> InsertUnique(m, f).0 == m
  {
    hide Keys, Sorted;
    LowerBoundFinds(m, f.key);
    var i := LowerBound(m, f.key);
    if f.key in Keys(m) {
      if IsMarkerAt(m, i) {
        FrontBelow(m, i);
      } else if HasMarker(m) && m[|m| - 1].key == f.key {
        KeyIn(m[..|m| - 1], i);
      }
    }
  }

  /** Otherwise the field is in and everything else stays, but for the marker, if it had the
      address. */
  lemma InsertUniqueMeans(m: seq<Field>, f: Field)
    requires Sorted(m) && InsertUnique(m, f).1
    ensures multiset(InsertUnique(m, f).0) == multiset(if f.key in Keys(m) then Strip(m) else m) + multiset{f}
  {
    hide Keys, Sorted;
    LowerBoundFinds(m, f.key);
    if f.key !in Keys(m) {
      InsertUniqueFree(m, f);
    } else {
      LastReplaced(m, f);
    }
  }

  lemma InsertUniqueAt(m: seq<Field>, f: Field, i: nat)
    requires i == LowerBound(m, f.key)
    ensures i <= |m|
    ensures i == |m| || m[i].key != f.key ==> InsertUnique(m, f) == (m[..i] + [f] + m[i..], true)
    ensures i < |m| && m[i].key == f.key && !IsMarkerAt(m, i) ==> InsertUnique(m, f) == (m, false)
    ensures i < |m| && m[i].key == f.key && IsMarkerAt(m, i) ==> InsertUnique(m, f) == (m[..i] + [f], true)
  {
    hide LowerBound;
    if i < |m| && IsMarkerAt(m, i) { LastReplaced(m, f); }
  }

  lemma LastReplaced(m: seq<Field>, f: Field)
    requires m != []
    ensures m[|m| - 1 := f] == m[..|m| - 1] + [f]
  {}

  lemma KeyIn(m: seq<Field>, i: nat)
    requires i < |m|
    ensures m[i].key in Keys(m)
  {}

  lemma FrontBelow(m: seq<Field>, i: nat)
    requires i < |m| && i == LowerBound(m, m[i].key)
    ensures m[i].key !in Keys(m[..i])
  {}

  /** Inserting a list of fields one after the other. */
  function InsertAll(m: seq<Field>, fs: seq<Field>): seq<Field> {
    if fs == [] then m
    else InsertUnique(InsertAll(m, fs[..|fs| - 1]), fs[|fs| - 1]).0
  }

  function ShiftAll(fs: seq<Field>, delta: int): (r: seq<Field>)
    ensures |r| == |fs|
    ensures forall i :: 0 <= i < |fs| ==> r[i] == fs[i].Shift(delta)
  {
    if fs == [] then [] else [fs[0].Shift(delta)] + ShiftAll(fs[1..], delta)
  }

  ghost predicate DistinctKeys(fs: seq<Field>) {
    forall i, j :: 0 <= i < j < |fs| ==> fs[i].key != fs[j].key
  }

  /** The addresses of `fs` are pairwise distinct and free in `m`. */
  ghost predicate Free(m: seq<Field>, fs: seq<Field>) {
    Keys(m) !! Keys(fs) && DistinctKeys(fs)
  }

  lemma KeysSnoc(front: seq<Field>, last: Field)
    ensures Keys(front + [last]) == Keys(front) + {last.key}
  {
  }

  lemma DistinctSnoc(front: seq<Field>, last: Field)
    ensures DistinctKeys(front + [last]) <==> DistinctKeys(front) && last.key !in Keys(front)
  {
    var fs := front + [last];
    assert forall i :: 0 <= i < |front| ==> fs[i] == front[i];
    assert forall i :: 0 <= i < |front| ==> front[i].key in Keys(front);
    assert DistinctKeys(fs) ==> forall i :: 0 <= i < |front| ==> fs[i].key != fs[|front|].key;
    assert DistinctKeys(front) <==> forall i, j :: 0 <= i < j < |front| ==> fs[i].key != fs[j].key;
  }

  lemma InsertAllSnoc(m: seq<Field>, front: seq<Field>, last: Field)
    ensures InsertAll(m, front + [last]) == InsertUnique(InsertAll(m, front), last).0
  {
    var fs := front + [last];
    assert fs[..|fs| - 1] == front;
  }

  lemma {:induction false} InsertAllSorted(m: seq<Field>, fs: seq<Field>)
    requires Sorted(m)
    ensures Sorted(InsertAll(m, fs))
    ensures StrictlySorted(m) ==> StrictlySorted(InsertAll(m, fs))
  {
    if fs != [] {
      InsertAllSorted(m, fs[..|fs| - 1]);
      InsertUniqueSorted(InsertAll(m, fs[..|fs| - 1]), fs[|fs| - 1]);
    }
  }

  lemma {:induction false} InsertAllKeys(m: seq<Field>, fs: seq<Field>)
    requires Sorted(m)
    ensures Keys(InsertAll(m, fs)) == Keys(m) + Keys(fs)
  {
    if fs != [] {
      var front, last := fs[..|fs| - 1], fs[|fs| - 1];
      InsertAllKeys(m, front);
      InsertAllSorted(m, front);
      InsertUniqueKeys(InsertAll(m, front), last);
      KeysSnoc(front, last);
      assert fs == front + [last];
    }
  }

  /** Free addresses: one by one. */
  lemma FreeSnoc(m: seq<Field>, front: seq<Field>, last: Field)
    ensures Free(m, front + [last]) <==> Free(m, front) && last.key !in Keys(m) + Keys(front)
  {
    hide Keys, DistinctKeys;
    KeysSnoc(front, last);
    DistinctSnoc(front, last);
  }

  /** Fields that go to free addresses are all kept, and so is what was there. */
  lemma {:induction false} FreeConserves(m: seq<Field>, fs: seq<Field>)
    requires Sorted(m) && Free(m, fs)
    ensures |InsertAll(m, fs)| == |m| + |fs|
    ensures multiset(InsertAll(m, fs)) == multiset(m) + multiset(fs)
  {
    hide Sorted, Free, Keys, InsertUnique;
    if fs != [] {
      var front, last := fs[..|fs| - 1], fs[|fs| - 1];
      assert fs == front + [last];
      FreeSnoc(m, front, last);
      FreeConserves(m, front);
      InsertAllSorted(m, front);
      InsertAllKeys(m, front);
      InsertUniqueFree(InsertAll(m, front), last);
    }
  }

  /** Otherwise something is lost. */
  lemma {:induction false} TakenLoses(m: seq<Field>, fs: seq<Field>)
    requires Sorted(m)
    ensures |InsertAll(m, fs)| <= |m| + |fs|
    ensures !Free(m, fs) ==> |InsertAll(m, fs)| < |m| + |fs|
  {
    hide Sorted, Keys, InsertUnique, DistinctKeys;
    if fs == [] {
      EmptyIsFree(m);
    } else {
      var front, last := fs[..|fs| - 1], fs[|fs| - 1];
      assert fs == front + [last];
      hide Free;
      FreeSnoc(m, front, last);
      TakenLoses(m, front);
      InsertAllSorted(m, front);
      InsertAllKeys(m, front);
      InsertUniqueKeys(InsertAll(m, front), last);
    }
  }

  lemma EmptyIsFree(m: seq<Field>)
    ensures Free(m, [])
  {}

  /** Nothing is lost exactly when every target address is free. */
  lemma InsertAllConserves(m: seq<Field>, fs: seq<Field>)
    requires Sorted(m)
    ensures |InsertAll(m, fs)| == |m| + |fs| <==> Free(m, fs)
    ensures Free(m, fs) ==> multiset(InsertAll(m, fs)) == multiset(m) + multiset(fs)
  {
    hide InsertAll, Free, Sorted;
    TakenLoses(m, fs);
    if Free(m, fs) { FreeConserves(m, fs); }
  }

  /** Those of a list of fields that are inserted, when the results are ignored. */
  function Accepted(m: seq<Field>, fs: seq<Field>): (r: seq<Field>)
    ensures forall f :: f in r ==> f in fs
  {
    if fs == [] then []
    else
      var front, last := fs[..|fs| - 1], fs[|fs| - 1];
      Accepted(m, front) + if InsertUnique(InsertAll(m, front), last).1 then [last] else []
  }

  /** A field is refused exactly if its address is taken, by what was there or by an earlier one of
      the list, and not by an end marker alone. */
  lemma AcceptedIff(m: seq<Field>, front: seq<Field>, last: Field)
    requires Sorted(m)
    ensures var lets := last.key !in Keys(m) + Keys(front) || OnlyMarkerAt(InsertAll(m, front), last.key);
            Accepted(m, front + [last]) == Accepted(m, front) + if lets then [last] else []
  {
    hide Sorted, Keys, InsertUnique, InsertAll, OnlyMarkerAt;
    var fs := front + [last];
    assert fs[..|fs| - 1] == front;
    InsertAllSorted(m, front);
    InsertAllKeys(m, front);
    InsertRefusedIff(InsertAll(m, front), last);
  }

  /** What is typed or named stays where it is, and is joined by exactly those that are accepted. */
  lemma {:induction false} AcceptedCounts(m: seq<Field>, fs: seq<Field>, f: Field)
    requires Sorted(m) && f.Real()
    ensures multiset(InsertAll(m, fs))[f] == multiset(m)[f] + multiset(Accepted(m, fs))[f]
  {
    hide Sorted, InsertUnique;
    if fs != [] {
      var front, last := fs[..|fs| - 1], fs[|fs| - 1];
      AcceptedCounts(m, front, f);
      InsertAllSorted(m, front);
      InsertedCount(InsertAll(m, front), last, f);
    }
  }

  lemma InsertedCount(m: seq<Field>, g: Field, f: Field)
    requires Sorted(m) && f.Real()
    ensures var (m', ok) := InsertUnique(m, g);
            multiset(m')[f] == multiset(m)[f] + multiset(if ok then [g] else [])[f]
  {
    hide Sorted, InsertUnique, Keys;
    InsertRefusedIff(m, g);
    if InsertUnique(m, g).1 {
      InsertUniqueMeans(m, g);
      if HasMarker(m) { assert m == Strip(m) + [m[|m| - 1]]; }
    }
  }

  /** At free addresses all are accepted. */
  lemma {:induction false} FreeAccepted(m: seq<Field>, fs: seq<Field>)
    requires Sorted(m) && Free(m, fs)
    ensures Accepted(m, fs) == fs
  {
    hide Sorted, Free, Keys, Accepted;
    if fs == [] {
      AcceptedNone(m);
    } else {
      var front, last := fs[..|fs| - 1], fs[|fs| - 1];
      assert fs == front + [last];
      FreeSnoc(m, front, last);
      FreeAccepted(m, front);
      AcceptedIff(m, front, last);
    }
  }

  lemma AcceptedNone(m: seq<Field>)
    ensures Accepted(m, []) == []
  {}

  lemma InsertBetween(a: seq<Field>, f: Field, b: seq<Field>)
    requires Sorted(a + b)
    requires a != [] ==> a[|a| - 1].key < f.key
    requires b != [] ==> f.key < b[0].key
    ensures InsertUnique(a + b, f).0 == a + [f] + b
  {
    hide InsertUnique, LowerBound;
    var m, p := a + b, |a|;
    assert a != [] ==> m[p - 1] == a[|a| - 1];
    assert b != [] ==> m[p] == b[0];
    LowerBoundIs(m, f.key, p);
    InsertUniqueAt(m, f, p);
    assert m[..p] == a && m[p..] == b;
  }

  lemma SortedWithout(a: seq<Field>, f: Field, b: seq<Field>)
    requires Sorted(a + [f] + b)
    ensures Sorted(a + b)
  {
    var all, m := a + [f] + b, a + b;
    forall i, j | 0 <= i < j < |m| ensures m[i].key <= m[j].key {
      var i', j' := if i < |a| then i else i + 1, if j < |a| then j else j + 1;
      assert all[i'] == m[i] && all[j'] == m[j];
    }
  }

  /** A run that fits between two neighbours is inserted as one block. */
  lemma LastHighest(front: seq<Field>, last: Field)
    requires StrictlySorted(front + [last])
    ensures StrictlySorted(front) && (front != [] ==> front[|front| - 1].key < last.key)
  {
    var fs := front + [last];
    assert forall i :: 0 <= i < |front| ==> fs[i] == front[i];
    assert fs[|front|] == last;
  }

  lemma RunWithout(a: seq<Field>, front: seq<Field>, last: Field, b: seq<Field>)
    requires Sorted(a + (front + [last]) + b)
    ensures Sorted(a + front + b)
  {
    assert a + (front + [last]) + b == (a + front) + [last] + b;
    SortedWithout(a + front, last, b);
  }

  /** One more field after a run that is in place. */
  lemma InsertNext(a: seq<Field>, front: seq<Field>, last: Field, b: seq<Field>)
    requires Sorted(a + front + b)
    requires front != [] ==> front[|front| - 1].key < last.key
    requires a != [] && front == [] ==> a[|a| - 1].key < last.key
    requires b != [] ==> last.key < b[0].key
    ensures InsertUnique(a + front + b, last).0 == a + (front + [last]) + b
  {
    hide Sorted, InsertUnique;
    var c := a + front;
    assert c != [] ==> c[|c| - 1] == if front == [] then a[|a| - 1] else front[|front| - 1];
    InsertBetween(c, last, b);
    assert c + [last] == a + (front + [last]);
  }

  lemma {:induction false} InsertRun(a: seq<Field>, fs: seq<Field>, b: seq<Field>)
    requires Sorted(a + fs + b)
    requires StrictlySorted(fs)
    requires a != [] && fs != [] ==> a[|a| - 1].key < fs[0].key
    requires b != [] && fs != [] ==> fs[|fs| - 1].key < b[0].key
    ensures InsertAll(a + b, fs) == a + fs + b
  {
    hide Sorted, StrictlySorted, InsertUnique;
    if fs == [] {
      assert a + fs + b == a + b;
    } else {
      var front, last := fs[..|fs| - 1], fs[|fs| - 1];
      assert fs == front + [last];
      assert front != [] ==> front[0] == fs[0];
      LastHighest(front, last);
      RunWithout(a, front, last, b);
      InsertRun(a, front, b);
      InsertNext(a, front, last, b);
    }
  }
}
