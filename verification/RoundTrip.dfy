/** Growing a structure inside a segment and shrinking it back is the identity on the typed or
    named fields of both containers. */
module RoundTrip {
  import opened Wrappers
  import opened FieldMaps
  import opened TypeDb
  import opened Containment
  import opened Relocation
  import opened Resize
  import opened Sizes

  lemma {:induction false} EligibleRunFull(db: Db, s: TypeId, lo: nat, hi: nat, d: TypeId, n: nat)
    requires Closed(db) && Acyclic(db) && s in db && d in db && lo + n <= hi <= |db[s].fields|
    requires forall i :: lo <= i < lo + n ==> !IsEos(db, s, i) && Eligible(db, db[s].fields[i], d)
    requires lo + n < hi ==> IsEos(db, s, lo + n)
    ensures EligibleRun(db, s, lo, hi, d) == n
    decreases n
  {
    if n > 0 {
      EligibleRunFull(db, s, lo + 1, hi, d, n - 1);
    }
  }

  /** Typed or named fields within a range of addresses. */
  ghost predicate Within(m: seq<Field>, lo: int, hi: int) {
    forall i :: 0 <= i < |m| ==> m[i].Real() && lo <= m[i].key < hi
  }

  /** An open structure is taken to end one byte after its last field's address. */
  predicate IsOpen(db: Db, self: TypeId, n0: nat)
    requires Closed(db) && Acyclic(db) && self in db
  {
    Size(db, self) == -1 && !HasMarker(db[self].fields) && OldSize(db, self) == n0
  }

  /** The structure before the resize: a non-segment of size `n0`, or open and taken to end at
      `n0`, all of whose members are typed or named and start below `n0` (and below the end
      marker, if there is one). */
  ghost predicate Compact(db: Db, self: TypeId, n0: nat)
    requires Valid(db)
  {
    && IsContainer(db, self) && !db[self].kind.Seg? && db[self].base >= 0
    && (Size(db, self) == n0 || IsOpen(db, self, n0))
    && Within(Members(db, self), db[self].base, db[self].base + n0)
    && (HasMarker(db[self].fields) && Members(db, self) != [] ==>
          Members(db, self)[|Members(db, self)| - 1].key < db[self].fields[|db[self].fields| - 1].key)
  }

  /** The outer fields between the structure's address and its new end. */
  function OuterRun(db: Db, n1: nat, place: Place): seq<Field>
    requires place.cont in db && n1 > 0
  {
    db[place.cont].fields[OuterLo(db, place)..OuterHi(db, n1, place)]
  }

  /** These fields start beyond `n0`, have distinct addresses, are typed or named, and may
      move into the structure. */
  ghost predicate Movable(db: Db, self: TypeId, n0: nat, n1: nat, place: Place)
    requires Valid(db) && self in db && place.cont in db && n1 > 0
  {
    var run := OuterRun(db, n1, place);
    && StrictlySorted(run)
    && Within(run, place.addr + n0, place.addr + n1)
    && forall i :: 0 <= i < |run| ==> Eligible(db, run[i], self)
  }

  ghost predicate RoundTripReady(db: Db, self: TypeId, n0: nat, n1: nat, place: Place) {
    && CanResize(db, self, n1, Some(place))
    && db[place.cont].kind.Seg?
    && n0 < n1
    && Compact(db, self, n0)
    && Movable(db, self, n0, n1, place)
  }

  lemma Ready(db: Db, self: TypeId, n0: nat, n1: nat, place: Place)
    requires RoundTripReady(db, self, n0, n1, place)
    ensures Valid(db) && IsContainer(db, self) && !db[self].kind.Seg? && db[self].base >= 0 && n0 < n1
    ensures IsContainer(db, place.cont) && db[place.cont].kind.Seg? && self != place.cont
    ensures Within(Members(db, self), db[self].base, db[self].base + n0)
    ensures Size(db, self) == n0 || IsOpen(db, self, n0)
    ensures CanRelocate(db, place.cont, OuterLo(db, place), OuterHi(db, n1, place), self)
    ensures CanResize(db, self, n1, Some(place))
  {
  }

  // ------------------------------------------------------------------ growing

  lemma FitsAbove(m: seq<Field>, r: seq<Field>)
    requires Sorted(m) && StrictlySorted(r)
    requires m != [] && r != [] ==> m[|m| - 1].key < r[0].key
    ensures InsertAll(m, r) == m + r
  {
    assert m + [] == m && m + r + [] == m + r;
    JoinSorted(m, r);
    InsertRun(m, r, []);
  }

  lemma JoinSorted(a: seq<Field>, b: seq<Field>)
    requires Sorted(a) && Sorted(b)
    requires a != [] && b != [] ==> a[|a| - 1].key <= b[0].key
    ensures Sorted(a + b)
  {
    forall i, j | 0 <= i < j < |a + b| ensures (a + b)[i].key <= (a + b)[j].key {
      if i < |a| <= j {
        assert a[i].key <= a[|a| - 1].key && b[0].key <= b[j - |a|].key;
      }
    }
  }

  lemma ShiftWithin(run: seq<Field>, delta: int, lo: int, hi: int)
    requires Within(run, lo, hi)
    ensures Within(ShiftAll(run, delta), lo + delta, hi + delta)
    ensures StrictlySorted(run) ==> StrictlySorted(ShiftAll(run, delta))
  {
  }

  /** The moved fields, as they arrive in the structure. */
  function Arrived(db: Db, self: TypeId, n1: nat, place: Place): seq<Field>
    requires self in db && place.cont in db && n1 > 0
  {
    ShiftAll(OuterRun(db, n1, place), db[self].base - place.addr)
  }

  lemma ArrivedWithin(db: Db, self: TypeId, n0: nat, n1: nat, place: Place)
    requires RoundTripReady(db, self, n0, n1, place)
    ensures Within(Arrived(db, self, n1, place), db[self].base + n0, db[self].base + n1)
    ensures StrictlySorted(Arrived(db, self, n1, place))
  {
    var run, delta := OuterRun(db, n1, place), db[self].base - place.addr;
    ShiftWithin(run, delta, place.addr + n0, place.addr + n1);
  }

  lemma MembersBelow(db: Db, self: TypeId, n0: nat)
    requires Valid(db) && Compact(db, self, n0)
    ensures var m := Members(db, self);
            Sorted(m) && (m != [] ==> m[|m| - 1].key < db[self].base + n0)
  {
    MembersSorted(db, self);
  }

  lemma ArrivedFits(db: Db, self: TypeId, n0: nat, n1: nat, place: Place)
    requires RoundTripReady(db, self, n0, n1, place)
    ensures InsertAll(Members(db, self), Arrived(db, self, n1, place))
            == Members(db, self) + Arrived(db, self, n1, place)
  {
    var m, r := Members(db, self), Arrived(db, self, n1, place);
    ArrivedWithin(db, self, n0, n1, place);
    MembersBelow(db, self, n0);
    FitsAbove(m, r);
  }

  lemma GrowRunIs(db: Db, self: TypeId, n0: nat, n1: nat, place: Place)
    requires RoundTripReady(db, self, n0, n1, place)
    ensures var lo, hi := OuterLo(db, place), OuterHi(db, n1, place);
            && EligibleRun(db, place.cont, lo, hi, self) == hi - lo
            && GoneCount(db, place.cont, lo, hi, self) == hi - lo
  {
    var lo, hi := OuterLo(db, place), OuterHi(db, n1, place);
    var m, run := db[place.cont].fields, OuterRun(db, n1, place);
    forall i | lo <= i < hi ensures Eligible(db, m[i], self) {
      assert m[i] == run[i - lo];
    }
    EligibleRunFull(db, place.cont, lo, hi, self, hi - lo);
  }

  lemma OldMarkerSize(db: Db, self: TypeId, n0: nat)
    requires Valid(db) && Compact(db, self, n0) && HasMarker(db[self].fields)
    ensures db[self].fields[|db[self].fields| - 1].key - db[self].base == n0
  {
    var m := db[self].fields;
    var eos := m[|m| - 1];
    assert m == m[..|m| - 1] + [eos];
    SizeOfMarked(db, self, m[..|m| - 1], eos);
  }

  /** If anything has arrived, the structure is open or no smaller than before. */
  lemma GrownSizeAbove(db1: Db, self: TypeId, members: seq<Field>, r: seq<Field>, n0: nat)
    requires Valid(db1) && IsContainer(db1, self) && !db1[self].kind.Seg?
    requires db1[self].fields == members + r && r != []
    requires r[|r| - 1].Real() && db1[self].base + n0 <= r[|r| - 1].key
    ensures Size(db1, self) <= 0 || n0 <= Size(db1, self)
  {
    var m := db1[self].fields;
    assert m[|m| - 1] == r[|r| - 1];
  }

  /** The fields of the structure once the outer fields are in: the members and the arrivals;
      or, when nothing arrives, the members and the old marker. */
  ghost predicate GrownFields(m: seq<Field>, members: seq<Field>, r: seq<Field>, eosKey: int) {
    || m == members + r
    || (r == [] && exists eos: Field :: !eos.Real() && eos.key == eosKey && m == members + [eos])
  }

  lemma OldEosAppended(members: seq<Field>, eos: Field)
    requires Sorted(members) && (members != [] ==> members[|members| - 1].key < eos.key)
    requires !eos.Real()
    ensures GrownFields(InsertUnique(members, eos).0, members, [], eos.key)
  {
    AppendEos(members, eos);
  }

  lemma EosComesBack(db: Db, db1: Db, self: TypeId, n0: nat, r: seq<Field>)
    requires Valid(db) && Valid(db1) && Compact(db, self, n0) && SameShape(db, db1)
    requires db1[self].fields == Members(db, self) + r
    requires r != [] ==> r[|r| - 1].Real() && db[self].base + n0 <= r[|r| - 1].key
    ensures GrownFields(WithOldEos(db, db1, self, Size(db1, self), db[self].base)[self].fields,
                        Members(db, self), r, db[self].base + n0)
  {
    var m, members := db[self].fields, Members(db, self);
    if HasMarker(m) {
      OldMarkerSize(db, self, n0);
      if r != [] {
        GrownSizeAbove(db1, self, members, r, n0);
      } else {
        assert members + [] == members;
        MembersSorted(db, self);
        OldEosAppended(members, m[|m| - 1].(key := db[self].base + n0));
      }
    }
  }

  lemma WithOldEosOthers(db: Db, db1: Db, d: TypeId, newSize: int, base2: int)
    requires d in db && d in db1
    ensures Apart(db1, WithOldEos(db, db1, d, newSize, base2), d, d)
  {
  }

  /** A relocation whose run is known. */
  lemma RelocatedIs(db: Db, s: TypeId, lo: nat, hi: nat, d: TypeId, base: int, base2: int, n: nat, k: nat)
      returns (db1: Db)
    requires CanRelocate(db, s, lo, hi, d)
    requires n == EligibleRun(db, s, lo, hi, d) && k == GoneCount(db, s, lo, hi, d)
    ensures db1 == Moved(db, s, lo, n, k, d, base2 - base)
    ensures Valid(db1) && SameShape(db, db1)
    ensures Relocated(db, s, lo, hi, d, base, base2) == WithOldEos(db, db1, d, Size(db1, d), base2)
  {
    db1 := AfterMove(db, s, lo, hi, d, base2 - base);
  }

  /** Both containers, and nothing else, have changed. */
  ghost predicate Apart(db: Db, db1: Db, s: TypeId, d: TypeId) {
    db1.Keys == db.Keys && forall t :: t in db && t != s && t != d ==> db1[t] == db[t]
  }

  lemma MovedFields(db: Db, s: TypeId, lo: nat, n: nat, hi: nat, d: TypeId, delta: int, r: seq<Field>)
    requires s in db && d in db && s != d && lo <= hi <= |db[s].fields| && n == hi - lo
    requires r == ShiftAll(db[s].fields[lo..hi], delta)
    requires InsertAll(Members(db, d), r) == Members(db, d) + r
    ensures var db1 := Moved(db, s, lo, n, n, d, delta);
            && db1[s].fields == db[s].fields[..lo] + db[s].fields[hi..]
            && db1[d].fields == Members(db, d) + r
            && Apart(db, db1, s, d)
  {
    assert lo + n == hi;
  }

  /** What the relocation does, before the old marker is looked at. */
  ghost predicate GrowMoved(db: Db, db1: Db, self: TypeId, n1: nat, place: Place)
    requires self in db && place.cont in db && n1 > 0
  {
    && Apart(db, db1, place.cont, self)
    && db1[place.cont].fields
       == db[place.cont].fields[..OuterLo(db, place)] + db[place.cont].fields[OuterHi(db, n1, place)..]
    && db1[self].fields == Members(db, self) + Arrived(db, self, n1, place)
  }

  lemma ArrivedIs(db: Db, self: TypeId, n1: nat, place: Place)
    requires self in db && place.cont in db && n1 > 0
    ensures Arrived(db, self, n1, place)
            == ShiftAll(db[place.cont].fields[OuterLo(db, place)..OuterHi(db, n1, place)], db[self].base - place.addr)
  {
  }

  lemma GrowMoves(db: Db, db1: Db, self: TypeId, n0: nat, n1: nat, place: Place)
    requires RoundTripReady(db, self, n0, n1, place)
    requires var lo, hi := OuterLo(db, place), OuterHi(db, n1, place);
             db1 == Moved(db, place.cont, lo, hi - lo, hi - lo, self, db[self].base - place.addr)
    ensures GrowMoved(db, db1, self, n1, place)
  {
    hide InsertAll, ShiftAll;
    var lo, hi := OuterLo(db, place), OuterHi(db, n1, place);
    var r, delta := Arrived(db, self, n1, place), db[self].base - place.addr;
    ArrivedIs(db, self, n1, place);
    ArrivedFits(db, self, n0, n1, place);
    MovedFields(db, place.cont, lo, hi - lo, hi, self, delta, r);
  }

  lemma GrownFrom(db: Db, db1: Db, db2: Db, self: TypeId, n0: nat, n1: nat, place: Place)
    requires RoundTripReady(db, self, n0, n1, place)
    requires Valid(db1) && SameShape(db, db1) && GrowMoved(db, db1, self, n1, place)
    requires db2 == WithOldEos(db, db1, self, Size(db1, self), db[self].base)
    ensures Apart(db, db2, place.cont, self) && db2[place.cont] == db1[place.cont]
    ensures GrownFields(db2[self].fields, Members(db, self), Arrived(db, self, n1, place), db[self].base + n0)
  {
    ArrivedWithin(db, self, n0, n1, place);
    EosComesBack(db, db1, self, n0, Arrived(db, self, n1, place));
    WithOldEosOthers(db, db1, self, Size(db1, self), db[self].base);
  }

  /** The database after growing, before the new size is fixed. */
  lemma GrownForm(db: Db, self: TypeId, n0: nat, n1: nat, place: Place)
    requires RoundTripReady(db, self, n0, n1, place)
    ensures var m := db[place.cont].fields;
            var db2 := Grown(db, self, n1, place);
            && Apart(db, db2, place.cont, self)
            && db2[place.cont].fields == m[..OuterLo(db, place)] + m[OuterHi(db, n1, place)..]
            && GrownFields(db2[self].fields, Members(db, self), Arrived(db, self, n1, place), db[self].base + n0)
  {
    hide RoundTripReady, InsertAll, ShiftAll, Moved, Closed, Acyclic, AllSorted, GrownFields, WithOldEos, CanRelocate;
    hide OuterLo, OuterHi, Relocated;
    Ready(db, self, n0, n1, place);
    var lo, hi, base := OuterLo(db, place), OuterHi(db, n1, place), db[self].base;
    GrowRunIs(db, self, n0, n1, place);
    var db1 := RelocatedIs(db, place.cont, lo, hi, self, place.addr, base, hi - lo, hi - lo);
    GrowMoves(db, db1, self, n0, n1, place);
    GrownFrom(db, db1, Grown(db, self, n1, place), self, n0, n1, place);
  }

  /** What closes a structure: nothing, or one end marker at the key. */
  ghost predicate IsTail(tail: seq<Field>, key: int) {
    tail == [] || (|tail| == 1 && !tail[0].Real() && tail[0].key == key)
  }

  /** Fixing the new size: a marker is put above everything, unless the unforced test takes the
      end of the last field for the asked size. */
  lemma FixGrown(g: Db, self: TypeId, members: seq<Field>, r: seq<Field>, n0: nat, n1: nat, force: bool)
      returns (tail: seq<Field>)
    requires Valid(g) && IsContainer(g, self) && !g[self].kind.Seg? && g[self].base >= 0 && n0 < n1
    requires Within(members, g[self].base, g[self].base + n0)
    requires Within(r, g[self].base + n0, g[self].base + n1)
    requires GrownFields(g[self].fields, members, r, g[self].base + n0)
    ensures IsTail(tail, g[self].base + n1)
    ensures SizeSet(g, self, n1, force) == WithFields(g, self, (members + r) + tail)
    ensures tail == [] <==> !force && members + r != [] && g[self].fields == members + r
                            && EndsAt(g, self, |g[self].fields| - 1, n1)
  {
    hide Closed, Acyclic, AllSorted, EndsAt, InsertUnique;
    GrownMembers(g, self, members, r, n0, n1);
    if SetsSize(g, self, n1, force) {
      SizeSetForm(g, self, n1, force);
      tail := [NewEos(g, self, n1)];
    } else {
      tail := [];
      assert (members + r) + [] == members + r;
      assert WithFields(g, self, g[self].fields) == g;
    }
  }

  lemma GrownMembers(g: Db, self: TypeId, members: seq<Field>, r: seq<Field>, n0: nat, n1: nat)
    requires self in g && !g[self].kind.Seg? && g[self].base >= 0 && n0 < n1
    requires Within(members, g[self].base, g[self].base + n0)
    requires Within(r, g[self].base + n0, g[self].base + n1)
    requires GrownFields(g[self].fields, members, r, g[self].base + n0)
    ensures Members(g, self) == members + r
    ensures members + r != [] ==> (members + r)[|members + r| - 1].key < g[self].base + n1
    ensures g[self].fields != members + r ==>
              |g[self].fields| == |members + r| + 1 && g[self].fields[|members + r|].key == g[self].base + n0
  {
    var m, all := g[self].fields, members + r;
    assert m == all ==> (m != [] ==> m[|m| - 1].Real());
    if m != all {
      var eos: Field :| !eos.Real() && eos.key == g[self].base + n0 && m == members + [eos];
      assert m[..|m| - 1] == members == all;
    }
  }

  /** The structure after `ResizeStruc` to a larger size: its members, the arrived fields, and
      what closes it. */
  ghost predicate GrownExactly(db: Db, db1: Db, self: TypeId, n1: nat, place: Place, tail: seq<Field>)
    requires self in db && place.cont in db && n1 > 0
  {
    && Apart(db, db1, place.cont, self)
    && db1[place.cont].fields
       == db[place.cont].fields[..OuterLo(db, place)] + db[place.cont].fields[OuterHi(db, n1, place)..]
    && IsTail(tail, db[self].base + n1)
    && db1[self].fields == (Members(db, self) + Arrived(db, self, n1, place)) + tail
  }

  /** The test of `SetStrucSize` for a field at an address: does its absolute end look like the
      asked size? */
  predicate EndTest(db: Db, f: Field, key: int, size: nat)
    requires Closed(db) && Acyclic(db)
  {
    var fsz := if f.typ.Some? && f.typ.value in db then Size(db, f.typ.value) else 0;
    var one := if fsz == 0 then 1 else fsz;
    one > 0 && key + one == size
  }

  lemma EndsAtIs(db: Db, t: TypeId, i: nat, size: nat)
    requires Closed(db) && Acyclic(db) && t in db && i < |db[t].fields|
    ensures EndsAt(db, t, i, size) == EndTest(db, db[t].fields[i], db[t].fields[i].key, size)
  {
    assert InfoOk(db, t);
    assert db[t].fields[i] in db[t].fields;
  }

  lemma EndTestSame(db: Db, g: Db, f: Field, key: int, size: nat)
    requires Closed(db) && Acyclic(db) && Closed(g) && Acyclic(g) && g.Keys == db.Keys
    requires f.typ.Some? && f.typ.value in db ==> Size(g, f.typ.value) == Size(db, f.typ.value)
    ensures EndTest(g, f, key, size) == EndTest(db, f, key, size)
  {
    hide Closed, Acyclic, Size;
  }

  /** The structure with its members alone. */
  function Bare(db: Db, self: TypeId): Db
    requires self in db
  {
    WithFields(db, self, Members(db, self))
  }

  lemma BareValid(db: Db, self: TypeId)
    requires Valid(db) && IsContainer(db, self)
    ensures Valid(Bare(db, self)) && SameShape(db, Bare(db, self)) && Apart(db, Bare(db, self), self, self)
  {
    MembersSorted(db, self);
    WithFieldsKeeps(db, self, Members(db, self));
  }

  /** Nothing arrives, and the old marker comes back, because the bare members fall short of the
      old size. */
  ghost predicate KeepsMarker(db: Db, self: TypeId, n0: nat)
    requires Valid(db) && IsContainer(db, self)
  {
    BareValid(db, self);
    HasMarker(db[self].fields) && 0 < Size(Bare(db, self), self) < n0
  }

  /** Does the structure reach the larger size? It does if it is forced to. Without force it does
      unless the test is taken in by the last field that arrives, at a base other than zero; or,
      if nothing arrives and no marker comes back, by the last member, and the bare members have
      another size. */
  ghost predicate GrowthFits(db: Db, self: TypeId, n0: nat, n1: nat, place: Place, force: bool)
    requires Valid(db) && IsContainer(db, self) && place.cont in db && n1 > 0
  {
    BareValid(db, self);
    var run, m, base := OuterRun(db, n1, place), Members(db, self), db[self].base;
    || force
    || (run != [] && (base == 0 || !EndTest(db, run[|run| - 1], run[|run| - 1].key + (base - place.addr), n1)))
    || (run == [] && (|| KeepsMarker(db, self, n0) || m == []
                      || !EndTest(db, m[|m| - 1], m[|m| - 1].key, n1) || Size(Bare(db, self), self) == n1))
  }

  /** The sizes of the types involved do not change when the fields move. */
  lemma MemberSizeSame(db: Db, g: Db, self: TypeId, s: TypeId, f: Field)
    requires Closed(db) && Acyclic(db) && Closed(g) && Acyclic(g) && SameShape(db, g) && Apart(db, g, s, self)
    requires self in db && s in db && db[s].kind.Seg? && f in db[self].fields && f.typ.Some? && f.typ.value in db
    ensures Size(g, f.typ.value) == Size(db, f.typ.value)
  {
    hide Closed, Acyclic;
    OwnFieldsApart(db, g, self, f);
  }

  lemma ArrivalSizeSame(db: Db, g: Db, self: TypeId, s: TypeId, f: Field)
    requires Closed(db) && Acyclic(db) && Closed(g) && Acyclic(g) && SameShape(db, g) && Apart(db, g, s, self)
    requires IsContainer(db, self) && s in db && f in db[s].fields && f.typ.Some? && f.typ.value in db
    requires Eligible(db, f, self) && Unmasked(db, f, self)
    ensures Size(g, f.typ.value) == Size(db, f.typ.value)
  {
    hide Closed, Acyclic, Eligible, Unmasked;
    FieldAvoids(db, s, f);
    EligibleReachesIff(db, f, self);
    forall u | Reaches(db, f.typ.value, u)
      ensures u in db && u in g && g[u] == db[u]
    {
      var p :| PathFromTo(db, p, f.typ.value, u);
    }
    SizeSame(db, g, f.typ.value);
  }

  lemma GrowIsGrown(db: Db, self: TypeId, n0: nat, n1: nat, place: Place, force: bool)
    requires RoundTripReady(db, self, n0, n1, place)
    ensures Valid(Grown(db, self, n1, place)) && SameShape(db, Grown(db, self, n1, place))
    ensures Resized(db, self, n1, Some(place), force) == SizeSet(Grown(db, self, n1, place), self, n1, force)
  {
    hide InsertAll, ShiftAll, SizeSet, SetsSize, Relocated, Movable;
    RelocatedKeepsValid(db, place.cont, OuterLo(db, place), OuterHi(db, n1, place), self, place.addr, db[self].base);
  }

  /** Nothing to move. */
  lemma EmptyMove(db: Db, s: TypeId, lo: nat, d: TypeId, base: int, base2: int)
    requires CanRelocate(db, s, lo, lo, d)
    ensures IsContainer(db, d) && Valid(Bare(db, d))
    ensures Relocated(db, s, lo, lo, d, base, base2) == WithOldEos(db, Bare(db, d), d, Size(Bare(db, d), d), base2)
  {
    hide Closed, Acyclic, AllSorted;
    BareValid(db, d);
    MovedNothing(db, s, lo, d, base2 - base);
    AfterMoveIs(db, s, lo, lo, d, base2 - base);
    RelocatedFrom(db, s, lo, lo, d, base, base2);
  }

  lemma OuterRunEmpty(db: Db, n1: nat, place: Place)
    requires place.cont in db && n1 > 0 && OuterRun(db, n1, place) == []
    ensures OuterHi(db, n1, place) == OuterLo(db, place)
  {}

  /** When nothing arrives, growing leaves the structure alone, or drops its marker. */
  lemma GrownNone(db: Db, self: TypeId, n0: nat, n1: nat, place: Place)
    requires RoundTripReady(db, self, n0, n1, place) && OuterRun(db, n1, place) == []
    ensures Grown(db, self, n1, place) == if KeepsMarker(db, self, n0) then db else Bare(db, self)
  {
    hide Closed, Acyclic, AllSorted, Relocated, InsertUnique;
    OuterRunEmpty(db, n1, place);
    EmptyMove(db, place.cont, OuterLo(db, place), self, place.addr, db[self].base);
    var m := db[self].fields;
    if HasMarker(m) {
      OldMarkerSize(db, self, n0);
      MembersSorted(db, self);
      AppendEos(m[..|m| - 1], m[|m| - 1]);
      assert m[..|m| - 1] + [m[|m| - 1]] == m;
      assert WithFields(Bare(db, self), self, m) == db;
    }
  }

  /** Growing, forced or not: exactly the outer fields in the new range arrive, re-keyed by the
      displacement of the structure; the requested size is reached exactly if it fits, and the
      structure is larger than before unless it has kept its bare members alone. */
  lemma GrowExact(db: Db, self: TypeId, n0: nat, n1: nat, place: Place, force: bool) returns (tail: seq<Field>)
    requires RoundTripReady(db, self, n0, n1, place)
    ensures var db1 := Resized(db, self, n1, Some(place), force);
            && Valid(db1) && SameShape(db, db1)
            && GrownExactly(db, db1, self, n1, place, tail)
            && (Size(db1, self) == n1 <==> GrowthFits(db, self, n0, n1, place, force))
            && (if tail == [] && Arrived(db, self, n1, place) == []
                then !force && Members(db, self) != [] && db1 == Bare(db, self) && Stuck(db, self, n0, n1, place)
                else OldSize(db1, self) > n0 && !(Stuck(db, self, n0, n1, place) && !force))
  {
    hide RoundTripReady, Relocated, ShiftAll, SizeSet, Resized, Closed, Acyclic, AllSorted, Size, GrowthFits, Stuck;
    hide CanRelocate, CanResize, Members, Arrived, GrownFields;
    Ready(db, self, n0, n1, place);
    var g := Grown(db, self, n1, place);
    GrowIsGrown(db, self, n0, n1, place, force);
    GrownForm(db, self, n0, n1, place);
    tail := GrownClosed(db, g, self, n0, n1, place, force);
  }

  lemma GrownClosed(db: Db, g: Db, self: TypeId, n0: nat, n1: nat, place: Place, force: bool) returns (tail: seq<Field>)
    requires RoundTripReady(db, self, n0, n1, place)
    requires CanRelocate(db, place.cont, OuterLo(db, place), OuterHi(db, n1, place), self)
    requires g == Grown(db, self, n1, place) && Valid(g) && SameShape(db, g) && Apart(db, g, place.cont, self)
    requires g[place.cont].fields
             == db[place.cont].fields[..OuterLo(db, place)] + db[place.cont].fields[OuterHi(db, n1, place)..]
    requires GrownFields(g[self].fields, Members(db, self), Arrived(db, self, n1, place), db[self].base + n0)
    ensures var db1 := SizeSet(g, self, n1, force);
            && Valid(db1) && SameShape(db, db1)
            && GrownExactly(db, db1, self, n1, place, tail)
            && (Size(db1, self) == n1 <==> GrowthFits(db, self, n0, n1, place, force))
            && (if tail == [] && Arrived(db, self, n1, place) == []
                then !force && Members(db, self) != [] && db1 == Bare(db, self) && Stuck(db, self, n0, n1, place)
                else OldSize(db1, self) > n0 && !(Stuck(db, self, n0, n1, place) && !force))
  {
    hide RoundTripReady, Grown, ShiftAll, SizeSet, Closed, Acyclic, AllSorted, EndsAt, Size, GrowthFits, Stuck;
    hide Members, Arrived, GrownFields, OuterRun, CanRelocate, Within;
    Ready(db, self, n0, n1, place);
    ArrivedWithin(db, self, n0, n1, place);
    ArrivedAre(db, self, n1, place);
    var members, r := Members(db, self), Arrived(db, self, n1, place);
    tail := FixGrown(g, self, members, r, n0, n1, force);
    SizeSetValid(g, self, n1, force);
    var db1 := SizeSet(g, self, n1, force);
    if tail != [] {
      SizeOfMarked(db1, self, members + r, tail[0]);
    }
    if OuterRun(db, n1, place) != [] {
      GrownJoin(g[self].fields, members, r, db[self].base + n0);
      GrowSome(db, g, db1, self, n0, n1, place, force, tail);
      StuckNeedsNone(db, self, n0, n1, place);
    } else {
      assert members + r == members;
      GrowNone(db, g, db1, self, n0, n1, place, force, tail);
    }
  }

  lemma GrownJoin(m: seq<Field>, members: seq<Field>, r: seq<Field>, key: int)
    requires GrownFields(m, members, r, key) && r != []
    ensures m == members + r
  {}

  lemma StuckNeedsNone(db: Db, self: TypeId, n0: nat, n1: nat, place: Place)
    requires Valid(db) && IsContainer(db, self) && place.cont in db && n1 > 0
    ensures Stuck(db, self, n0, n1, place) ==> OuterRun(db, n1, place) == [] && Members(db, self) != []
  {}

  /** Nothing arrives, no marker comes back, and the test is taken in by the last member. */
  ghost predicate Stuck(db: Db, self: TypeId, n0: nat, n1: nat, place: Place)
    requires Valid(db) && IsContainer(db, self) && place.cont in db && n1 > 0
  {
    var m := Members(db, self);
    OuterRun(db, n1, place) == [] && m != [] && !KeepsMarker(db, self, n0)
    && EndTest(db, m[|m| - 1], m[|m| - 1].key, n1)
  }

  /** The last member or arrival is tested with the size its type had before the move. */
  lemma TestedAsBefore(db: Db, g: Db, self: TypeId, n0: nat, n1: nat, place: Place)
    requires RoundTripReady(db, self, n0, n1, place) && Valid(g) && SameShape(db, g) && Apart(db, g, place.cont, self)
    requires g[self].fields == Members(db, self) + Arrived(db, self, n1, place) && g[self].fields != []
    ensures var run, m, base := OuterRun(db, n1, place), Members(db, self), db[self].base;
            EndsAt(g, self, |g[self].fields| - 1, n1)
            <==> if run != [] then EndTest(db, run[|run| - 1], run[|run| - 1].key + (base - place.addr), n1)
                 else EndTest(db, m[|m| - 1], m[|m| - 1].key, n1)
  {
    hide RoundTripReady, InsertAll, ShiftAll, Closed, Acyclic, AllSorted, Size, EndsAt, EndTest, Members, OuterRun;
    Ready(db, self, n0, n1, place);
    ArrivedAre(db, self, n1, place);
    if OuterRun(db, n1, place) != [] {
      TestedArrival(db, g, self, n0, n1, place);
    } else {
      TestedMember(db, g, self, place.cont, n1);
    }
  }

  lemma ArrivedAre(db: Db, self: TypeId, n1: nat, place: Place)
    requires self in db && place.cont in db && n1 > 0
    ensures var run, r := OuterRun(db, n1, place), Arrived(db, self, n1, place);
            |r| == |run| && forall i :: 0 <= i < |r| ==> r[i] == run[i].Shift(db[self].base - place.addr)
  {}

  lemma TestedArrival(db: Db, g: Db, self: TypeId, n0: nat, n1: nat, place: Place)
    requires RoundTripReady(db, self, n0, n1, place) && Valid(g) && SameShape(db, g) && Apart(db, g, place.cont, self)
    requires OuterRun(db, n1, place) != [] && g[self].fields != []
    requires var fs, run := g[self].fields, OuterRun(db, n1, place);
             fs[|fs| - 1] == run[|run| - 1].Shift(db[self].base - place.addr)
    ensures var run := OuterRun(db, n1, place);
            EndsAt(g, self, |g[self].fields| - 1, n1)
            <==> EndTest(db, run[|run| - 1], run[|run| - 1].key + (db[self].base - place.addr), n1)
  {
    hide RoundTripReady, Closed, Acyclic, AllSorted, Size, EndsAt, EndTest, Eligible, Unmasked, OuterRun;
    Ready(db, self, n0, n1, place);
    var run := OuterRun(db, n1, place);
    var f := run[|run| - 1];
    var f' := f.Shift(db[self].base - place.addr);
    EndsAtIs(g, self, |g[self].fields| - 1, n1);
    RunField(db, self, n0, n1, place);
    if f.typ.Some? && f.typ.value in db { ArrivalSizeSame(db, g, self, place.cont, f); }
    EndTestSame(db, g, f', f'.key, n1);
    EndTestShifted(db, f, db[self].base - place.addr, n1);
  }

  lemma EndTestShifted(db: Db, f: Field, delta: int, size: nat)
    requires Closed(db) && Acyclic(db)
    ensures EndTest(db, f.Shift(delta), f.key + delta, size) == EndTest(db, f, f.key + delta, size)
  {}

  lemma TestedMember(db: Db, g: Db, self: TypeId, s: TypeId, size: nat)
    requires Valid(db) && Valid(g) && SameShape(db, g) && Apart(db, g, s, self)
    requires IsContainer(db, self) && s in db && db[s].kind.Seg? && !db[self].kind.Seg?
    requires g[self].fields == Members(db, self) && Members(db, self) != []
    ensures var m := Members(db, self);
            EndsAt(g, self, |m| - 1, size) <==> EndTest(db, m[|m| - 1], m[|m| - 1].key, size)
  {
    hide Closed, Acyclic, AllSorted, Size, EndsAt, EndTest;
    var m := Members(db, self);
    var f := m[|m| - 1];
    assert f in db[self].fields;
    EndsAtIs(g, self, |m| - 1, size);
    if f.typ.Some? && f.typ.value in db { MemberSizeSame(db, g, self, s, f); }
    EndTestSame(db, g, f, f.key, size);
  }

  lemma RunField(db: Db, self: TypeId, n0: nat, n1: nat, place: Place)
    requires RoundTripReady(db, self, n0, n1, place)
    ensures forall i :: 0 <= i < |OuterRun(db, n1, place)| ==>
              var f := OuterRun(db, n1, place)[i];
              f in db[place.cont].fields && Eligible(db, f, self) && Unmasked(db, f, self)
  {
    hide Closed, Acyclic, AllSorted, Eligible, Unmasked;
    var lo, run := OuterLo(db, place), OuterRun(db, n1, place);
    GrowRunIs(db, self, n0, n1, place);
    forall i | 0 <= i < |run|
      ensures run[i] in db[place.cont].fields && Eligible(db, run[i], self) && Unmasked(db, run[i], self)
    {
      assert run[i] == db[place.cont].fields[lo + i];
    }
  }

  lemma GrowSome(db: Db, g: Db, db1: Db, self: TypeId, n0: nat, n1: nat, place: Place, force: bool, tail: seq<Field>)
    requires RoundTripReady(db, self, n0, n1, place) && OuterRun(db, n1, place) != []
    requires Valid(g) && SameShape(db, g) && Apart(db, g, place.cont, self) && Valid(db1) && self in db1
    requires g[self].fields == Members(db, self) + Arrived(db, self, n1, place)
    requires db1 == WithFields(g, self, g[self].fields + tail)
    requires tail == [] <==> !force && EndsAt(g, self, |g[self].fields| - 1, n1)
    requires tail != [] ==> Size(db1, self) == n1
    ensures Size(db1, self) == n1 <==> GrowthFits(db, self, n0, n1, place, force)
    ensures OldSize(db1, self) > n0
  {
    hide Closed, Acyclic, AllSorted, InsertAll, RoundTripReady, EndsAt, Size, EndTest, Arrived, Members, OuterRun;
    hide CanResize, KeepsMarker;
    Ready(db, self, n0, n1, place);
    ArrivedAre(db, self, n1, place);
    TestedAsBefore(db, g, self, n0, n1, place);
    if tail == [] {
      assert g[self].fields + [] == g[self].fields;
      WithOwnFields(g, self);
      GrownLone(db, g, self, n0, n1, place);
    } else {
      SizeKnown(db1, self);
    }
  }

  lemma SizeKnown(db: Db, t: TypeId)
    requires Closed(db) && Acyclic(db) && t in db && Size(db, t) >= 0
    ensures OldSize(db, t) == Size(db, t)
  {}

  lemma GrowNone(db: Db, g: Db, db1: Db, self: TypeId, n0: nat, n1: nat, place: Place, force: bool, tail: seq<Field>)
    requires RoundTripReady(db, self, n0, n1, place) && OuterRun(db, n1, place) == []
    requires g == Grown(db, self, n1, place) && Valid(g) && SameShape(db, g) && Apart(db, g, place.cont, self)
    requires Valid(db1) && self in db1
    requires db1 == WithFields(g, self, Members(db, self) + tail)
    requires tail == [] <==> !force && Members(db, self) != [] && g[self].fields == Members(db, self)
                             && EndsAt(g, self, |g[self].fields| - 1, n1)
    requires tail != [] ==> Size(db1, self) == n1
    ensures Size(db1, self) == n1 <==> GrowthFits(db, self, n0, n1, place, force)
    ensures tail == [] <==> Stuck(db, self, n0, n1, place) && !force
    ensures tail == [] ==> db1 == Bare(db, self)
    ensures tail != [] ==> OldSize(db1, self) > n0
  {
    hide RoundTripReady, Closed, Acyclic, AllSorted, InsertAll, EndsAt, Size, EndTest, Grown;
    Ready(db, self, n0, n1, place);
    var m := Members(db, self);
    GrownNone(db, self, n0, n1, place);
    assert Arrived(db, self, n1, place) == [] && m + [] == m;
    MarkerShows(db, self);
    if m != [] && g[self].fields == m {
      TestedAsBefore(db, g, self, n0, n1, place);
    }
    if tail == [] { assert db1 == Bare(db, self); }
  }

  lemma MarkerShows(db: Db, self: TypeId)
    requires self in db && !db[self].kind.Seg?
    ensures HasMarker(db[self].fields) <==> db[self].fields != Members(db, self)
  {}

  /** Without a marker the structure ends with the last field that has arrived. */
  lemma GrownLone(db: Db, g: Db, self: TypeId, n0: nat, n1: nat, place: Place)
    requires RoundTripReady(db, self, n0, n1, place) && Valid(g) && SameShape(db, g)
    requires g[self].fields == Members(db, self) + Arrived(db, self, n1, place)
    requires Arrived(db, self, n1, place) != [] && EndsAt(g, self, |g[self].fields| - 1, n1)
    ensures Size(g, self) == n1 - db[self].base && OldSize(g, self) == Size(g, self) > n0
  {
    hide Closed, Acyclic, AllSorted, RoundTripReady, Members, Arrived, Size, EndsAt;
    Ready(db, self, n0, n1, place);
    var members, r, base := Members(db, self), Arrived(db, self, n1, place), g[self].base;
    ArrivedWithin(db, self, n0, n1, place);
    JoinIsLone(members, r, base, base + n0, base + n1);
    LoneEnd(g, self, n1);
    SizeKnown(g, self);
  }

  lemma JoinIsLone(members: seq<Field>, r: seq<Field>, lo: int, mid: int, hi: int)
    requires Within(members, lo, mid) && Within(r, mid, hi) && StrictlySorted(r) && r != [] && lo <= mid
    ensures var m := members + r;
            && !HasMarker(m) && mid <= m[|m| - 1].key && (|m| > 1 ==> m[|m| - 2].key < m[|m| - 1].key)
            && forall f :: f in m ==> lo <= f.key
  {
    var m := members + r;
    assert m[|m| - 1] == r[|r| - 1];
    if |r| > 1 { assert m[|m| - 2] == r[|r| - 2]; } else if |m| > 1 { assert m[|m| - 2] == members[|members| - 1]; }
    forall f | f in m ensures lo <= f.key {
      if f in members {} else { assert f in r; }
    }
  }

  lemma LoneEnd(db: Db, t: TypeId, size: nat)
    requires Valid(db) && IsContainer(db, t) && !db[t].kind.Seg?
    requires forall f :: f in db[t].fields ==> db[t].base <= f.key
    requires var m := db[t].fields;
             m != [] && !HasMarker(m) && (|m| > 1 ==> m[|m| - 2].key < m[|m| - 1].key) && EndsAt(db, t, |m| - 1, size)
    ensures Size(db, t) == size - db[t].base > db[t].fields[|db[t].fields| - 1].key - db[t].base
  {
    hide Closed, Acyclic, AllSorted, Size;
    LoneSize(db, t);
  }

  // ------------------------------------------------------------------ shrinking back

  /** Nothing that came from the outer segment contains it, so everything may go back. */
  lemma MayGoBack(db: Db, db1: Db, self: TypeId, s: TypeId, f: Field, delta: int)
    requires Valid(db) && Valid(db1) && SameShape(db, db1) && Apart(db, db1, s, self)
    requires IsContainer(db, s) && IsContainer(db, self) && s != self && db[s].kind.Seg?
    requires f in db[s].fields && Eligible(db, f, self) && Unmasked(db, f, self)
    ensures Eligible(db1, f.Shift(delta), s) && Unmasked(db1, f.Shift(delta), s)
  {
    hide Closed, Acyclic, AllSorted, Includes, Reaches;
    if f.typ.Some? && f.typ.value in db {
      FieldAvoids(db, s, f);
      EligibleIff(db, f, self);
      if Reaches(db1, f.typ.value, s) { ReachesSame(db, db1, f.typ.value, s, s, self); }
      EligibleIff(db1, f.Shift(delta), s);
    }
  }

  lemma {:induction false} ShiftBack(fs: seq<Field>, delta: int)
    ensures ShiftAll(ShiftAll(fs, delta), -delta) == fs
  {
    var r := ShiftAll(fs, delta);
    forall i | 0 <= i < |fs| ensures ShiftAll(r, -delta)[i] == fs[i] {
      assert r[i] == fs[i].Shift(delta);
    }
  }

  /** The structure before shrinking: members, fields to give back, and what closes it. */
  ghost predicate Loaded(db: Db, self: TypeId, members: seq<Field>, r: seq<Field>, tail: seq<Field>, n0: nat, n1: nat)
    requires self in db
  {
    && Within(members, db[self].base, db[self].base + n0)
    && Within(r, db[self].base + n0, db[self].base + n1)
    && IsTail(tail, db[self].base + n1)
    && db[self].fields == (members + r) + tail
  }

  /** Where the parts of a list of fields lie. */
  lemma PartsAre(m: seq<Field>, members: seq<Field>, r: seq<Field>, tail: seq<Field>)
    requires m == (members + r) + tail
    ensures |m| == |members| + |r| + |tail|
    ensures m[..|members|] == members && m[|members|..|members| + |r|] == r
  {
    assert m[..|members| + |r|] == members + r;
  }

  lemma FirstBeyond(m: seq<Field>, members: seq<Field>, r: seq<Field>, tail: seq<Field>, key: int, end: int)
    requires m == (members + r) + tail && Sorted(m) && key < end
    requires forall i :: 0 <= i < |members| ==> members[i].key < key
    requires forall i :: 0 <= i < |r| ==> key <= r[i].key
    requires IsTail(tail, end)
    ensures LowerBound(m, key) == |members|
    ensures tail != [] ==> HasMarker(m)
  {
    hide Sorted, LowerBound;
    assert |m| > |members| ==> m[|members|] == if r == [] then tail[0] else r[0];
    assert members != [] ==> m[|members| - 1] == members[|members| - 1];
    LowerBoundIs(m, key, |members|);
  }

  lemma ShrinkRange(db: Db, self: TypeId, members: seq<Field>, r: seq<Field>, tail: seq<Field>, n0: nat, n1: nat)
    requires self in db && Valid(db) && n0 < n1 && Loaded(db, self, members, r, tail, n0, n1)
    ensures InnerLo(db, self, n0) == |members|
    ensures |db[self].fields| == |members| + |r| + |tail|
    ensures db[self].fields[..|members|] == members
    ensures db[self].fields[|members|..|members| + |r|] == r
    ensures tail != [] ==> HasMarker(db[self].fields)
  {
    hide Closed, Acyclic, IsTail, LowerBound, HasMarker;
    var m := db[self].fields;
    SortedIn(db, self);
    hide Sorted;
    PartsAre(m, members, r, tail);
    FirstBeyond(m, members, r, tail, db[self].base + n0, db[self].base + n1);
  }

  lemma ShrinkRun(db: Db, self: TypeId, s: TypeId, members: seq<Field>, r: seq<Field>,
                  tail: seq<Field>, n0: nat, n1: nat)
    requires self in db && Valid(db) && IsContainer(db, self) && IsContainer(db, s) && s != self && !db[self].kind.Seg?
    requires n0 < n1 && Loaded(db, self, members, r, tail, n0, n1)
    requires forall i :: 0 <= i < |r| ==> Eligible(db, r[i], s) && Unmasked(db, r[i], s)
    ensures |db[self].fields| == |members| + |r| + |tail|
    ensures CanRelocate(db, self, |members|, |db[self].fields|, s)
    ensures EligibleRun(db, self, |members|, |db[self].fields|, s) == |r|
    ensures GoneCount(db, self, |members|, |db[self].fields|, s) == |r| + |tail|
  {
    hide InsertAll, ShiftAll, Closed, Acyclic, AllSorted;
    ShrinkRange(db, self, members, r, tail, n0, n1);
    var m := db[self].fields;
    forall i | |members| <= i < |members| + |r|
      ensures !IsEos(db, self, i) && Eligible(db, m[i], s) && Unmasked(db, m[i], s)
    {
      assert m[i] == m[|members|..|members| + |r|][i - |members|];
    }
    EligibleRunFull(db, self, |members|, |m|, s, |r|);
  }

  /** What the way back leaves, before the old size is fixed. */
  lemma ShrinkMoves(db: Db, self: TypeId, s: TypeId, delta: int, members: seq<Field>, r: seq<Field>, k: nat,
                    a: seq<Field>, run: seq<Field>, b: seq<Field>)
    requires self in db && s in db && s != self && db[s].kind.Seg?
    requires |r| <= k && |db[self].fields| == |members| + k
    requires db[self].fields[..|members|] == members
    requires db[self].fields[|members|..|members| + |r|] == r
    requires db[s].fields == a + b && ShiftAll(r, delta) == run
    requires InsertAll(a + b, run) == a + run + b
    ensures var db' := Moved(db, self, |members|, |r|, k, s, delta);
            && Apart(db, db', self, s)
            && db'[self].fields == members
            && db'[s].fields == a + run + b
  {
  }

  lemma Reinsert(a: seq<Field>, run: seq<Field>, b: seq<Field>)
    requires Sorted(a + run + b) && StrictlySorted(run)
    requires a != [] && run != [] ==> a[|a| - 1].key < run[0].key
    requires b != [] && run != [] ==> run[|run| - 1].key < b[0].key
    ensures InsertAll(a + b, run) == a + run + b
  {
    InsertRun(a, run, b);
  }

  /** Fixing the old size on the bare members. */
  lemma FixOldSize(db: Db, self: TypeId, members: seq<Field>, n0: nat, force: bool)
    requires Valid(db) && IsContainer(db, self) && !db[self].kind.Seg? && db[self].base >= 0
    requires db[self].fields == members && Within(members, db[self].base, db[self].base + n0)
    ensures var db' := SizeSet(db, self, n0, force);
            && Valid(db') && Apart(db, db', self, self)
            && RealFields(db'[self].fields) == members
            && (Size(db', self) == n0
                <==> force || members == [] || !EndsAt(db, self, |members| - 1, n0) || Size(db, self) == n0)
            && (Size(db', self) == n0 || Size(db', self) == Size(db, self))
  {
    hide Closed, Acyclic, AllSorted, EndsAt, InsertUnique, Size, RealFields;
    assert members != [] ==> members[|members| - 1].Real();
    assert Members(db, self) == members;
    forall f | f in members ensures f.Real() && db[self].base <= f.key {}
    RealFieldsAll(members);
    SizeReachedIff(db, self, n0, force);
    if SetsSize(db, self, n0, force) {
      SizeSetForm(db, self, n0, force);
      SetStrucSizeExact(db, self, n0, force);
      RealFieldsMarked(members, NewEos(db, self, n0));
    }
  }

  lemma RealFieldsMarked(members: seq<Field>, eos: Field)
    requires !eos.Real()
    ensures RealFields(members + [eos]) == RealFields(members)
  {
    assert (members + [eos])[..|members|] == members;
  }

  lemma ShrinkIsShrunk(db: Db, self: TypeId, n0: nat, place: Place, force: bool)
    requires CanResize(db, self, n0, Some(place)) && OldSize(db, self) > n0
    ensures CanRelocate(db, self, InnerLo(db, self, n0), |db[self].fields|, place.cont)
    ensures Valid(Shrunk(db, self, n0, place))
    ensures Resized(db, self, n0, Some(place), force) == SizeSet(Shrunk(db, self, n0, place), self, n0, force)
  {
    hide InsertAll, ShiftAll, SizeSet, SetsSize, Relocated;
    RelocatedKeepsValid(db, self, InnerLo(db, self, n0), |db[self].fields|, place.cont, db[self].base, place.addr);
  }

  lemma ShrunkIsMoved(db: Db, self: TypeId, n0: nat, n1: nat, place: Place,
                      members: seq<Field>, r: seq<Field>, tail: seq<Field>)
    requires Valid(db) && IsContainer(db, self) && IsContainer(db, place.cont) && place.cont != self
    requires db[place.cont].kind.Seg? && !db[self].kind.Seg?
    requires n0 < n1 && Loaded(db, self, members, r, tail, n0, n1)
    requires forall i :: 0 <= i < |r| ==> Eligible(db, r[i], place.cont) && Unmasked(db, r[i], place.cont)
    ensures InnerLo(db, self, n0) == |members| && |db[self].fields| == |members| + |r| + |tail|
    ensures CanRelocate(db, self, InnerLo(db, self, n0), |db[self].fields|, place.cont)
    ensures var g := Shrunk(db, self, n0, place);
            && Valid(g) && SameShape(db, g)
            && g == Moved(db, self, |members|, |r|, |r| + |tail|, place.cont, place.addr - db[self].base)
  {
    hide InsertAll, ShiftAll, Moved, Closed, Acyclic, AllSorted;
    ShrinkRange(db, self, members, r, tail, n0, n1);
    ShrinkRun(db, self, place.cont, members, r, tail, n0, n1);
    var g := RelocatedIs(db, self, |members|, |db[self].fields|, place.cont, db[self].base,
                          place.addr, |r|, |r| + |tail|);
  }

  /** What `Shrunk` leaves in the two containers. */
  lemma ShrunkForm(db: Db, self: TypeId, n0: nat, n1: nat, place: Place,
                   members: seq<Field>, r: seq<Field>, tail: seq<Field>,
                   a: seq<Field>, run: seq<Field>, b: seq<Field>)
    requires Valid(db) && IsContainer(db, self) && IsContainer(db, place.cont) && place.cont != self
    requires db[place.cont].kind.Seg? && !db[self].kind.Seg?
    requires n0 < n1 && Loaded(db, self, members, r, tail, n0, n1)
    requires forall i :: 0 <= i < |r| ==> Eligible(db, r[i], place.cont) && Unmasked(db, r[i], place.cont)
    requires db[place.cont].fields == a + b && ShiftAll(r, place.addr - db[self].base) == run
    requires InsertAll(a + b, run) == a + run + b
    ensures CanRelocate(db, self, InnerLo(db, self, n0), |db[self].fields|, place.cont)
    ensures var g := Shrunk(db, self, n0, place);
            && Valid(g) && SameShape(db, g) && Apart(db, g, self, place.cont)
            && g[self].fields == members
            && g[place.cont].fields == a + run + b
  {
    hide InsertAll, ShiftAll, Relocated, Shrunk, Moved, Loaded, Closed, Acyclic, AllSorted, Eligible;
    hide Unmasked, CanRelocate;
    ShrinkRange(db, self, members, r, tail, n0, n1);
    ShrunkIsMoved(db, self, n0, n1, place, members, r, tail);
    ShrinkMoves(db, self, place.cont, place.addr - db[self].base, members, r, |r| + |tail|, a, run, b);
  }

  /** Shrinking, forced or not, gives the loaded fields back and leaves the members. */
  lemma ShrinkBack(db: Db, self: TypeId, n0: nat, n1: nat, place: Place, force: bool,
                   members: seq<Field>, r: seq<Field>, tail: seq<Field>,
                   a: seq<Field>, run: seq<Field>, b: seq<Field>) returns (g: Db)
    requires Valid(db) && IsContainer(db, self) && IsContainer(db, place.cont) && place.cont != self
    requires db[place.cont].kind.Seg? && !db[self].kind.Seg?
    requires db[self].base >= 0 && OldSize(db, self) > n0
    requires n0 < n1 && Loaded(db, self, members, r, tail, n0, n1)
    requires forall i :: 0 <= i < |r| ==> Eligible(db, r[i], place.cont) && Unmasked(db, r[i], place.cont)
    requires db[place.cont].fields == a + b && ShiftAll(r, place.addr - db[self].base) == run
    requires InsertAll(a + b, run) == a + run + b
    ensures CanResize(db, self, n0, Some(place))
    ensures Valid(g) && SameShape(db, g) && Apart(db, g, self, place.cont) && g[self].fields == members
    ensures var db2 := Resized(db, self, n0, Some(place), force);
            && Valid(db2) && SameShape(db, db2) && Apart(db, db2, self, place.cont)
            && db2[place.cont].fields == a + run + b
            && RealFields(db2[self].fields) == members
            && (Size(db2, self) == n0
                <==> force || members == [] || !EndsAt(g, self, |members| - 1, n0) || Size(g, self) == n0)
            && (Size(db2, self) == n0 || Size(db2, self) == Size(g, self))
  {
    hide InsertAll, ShiftAll, SizeSet, Relocated, Closed, Acyclic, AllSorted, Eligible, Unmasked, CanRelocate, Loaded;
    hide Resized, EndsAt, Size, OldSize;
    ShrunkForm(db, self, n0, n1, place, members, r, tail, a, run, b);
    LargerCanShrink(db, self, n0, place);
    ShrinkIsShrunk(db, self, n0, place, force);
    g := Shrunk(db, self, n0, place);
    LoadedMembers(db, self, members, r, tail, n0, n1);
    FixOldSize(g, self, members, n0, force);
    SizeSetValid(g, self, n0, force);
  }

  lemma LargerCanShrink(db: Db, self: TypeId, n0: nat, place: Place)
    requires Valid(db) && IsContainer(db, self) && place.cont != self && OldSize(db, self) > n0
    requires CanRelocate(db, self, InnerLo(db, self, n0), |db[self].fields|, place.cont)
    ensures CanResize(db, self, n0, Some(place))
  {}

  lemma LoadedMembers(db: Db, self: TypeId, members: seq<Field>, r: seq<Field>, tail: seq<Field>, n0: nat, n1: nat)
    requires self in db && Loaded(db, self, members, r, tail, n0, n1)
    ensures Within(members, db[self].base, db[self].base + n0)
  {}

  lemma OuterSplit(db: Db, self: TypeId, n0: nat, n1: nat, place: Place)
    requires RoundTripReady(db, self, n0, n1, place)
    ensures var m, lo, hi := db[place.cont].fields, OuterLo(db, place), OuterHi(db, n1, place);
            InsertAll(m[..lo] + m[hi..], m[lo..hi]) == m[..lo] + m[lo..hi] + m[hi..] == m
  {
    var m, lo, hi := db[place.cont].fields, OuterLo(db, place), OuterHi(db, n1, place);
    var a, run, b := m[..lo], m[lo..hi], m[hi..];
    SortedIn(db, place.cont);
    assert StrictlySorted(run);
    hide RoundTripReady, StrictlySorted, Sorted, InsertAll;
    BoundsApart(m, place.addr, place.addr + n1);
    Reinsert(a, run, b);
  }

  /** Fields up to an address, between it and a larger one, and from there on. */
  lemma BoundsApart(m: seq<Field>, k: int, end: int)
    requires Sorted(m) && UpperBound(m, k) <= LowerBound(m, end)
    ensures var lo, hi := UpperBound(m, k), LowerBound(m, end);
            var a, run, b := m[..lo], m[lo..hi], m[hi..];
            && a + run + b == m
            && (a != [] && run != [] ==> a[|a| - 1].key < run[0].key)
            && (b != [] && run != [] ==> run[|run| - 1].key < b[0].key)
  {
    hide LowerBound, UpperBound, Sorted;
    var lo, hi := UpperBound(m, k), LowerBound(m, end);
    assert m[..lo] + m[lo..hi] + m[hi..] == m;
    assert lo > 0 ==> m[..lo][lo - 1] == m[lo - 1];
    assert lo < hi ==> m[lo..hi][0] == m[lo] && m[lo..hi][hi - lo - 1] == m[hi - 1];
    assert hi < |m| ==> m[hi..][0] == m[hi];
  }

  lemma ArrivedMayGoBack(db: Db, db1: Db, self: TypeId, n0: nat, n1: nat, place: Place)
    requires RoundTripReady(db, self, n0, n1, place)
    requires Valid(db1) && SameShape(db, db1) && Apart(db, db1, place.cont, self)
    ensures forall i :: 0 <= i < |Arrived(db, self, n1, place)| ==>
              var f := Arrived(db, self, n1, place)[i];
              Eligible(db1, f, place.cont) && Unmasked(db1, f, place.cont)
  {
    hide RoundTripReady, InsertAll, ShiftAll, Eligible, Unmasked, Closed, Acyclic, AllSorted, OuterRun, Arrived;
    Ready(db, self, n0, n1, place);
    RunField(db, self, n0, n1, place);
    ArrivedAre(db, self, n1, place);
    var run, r := OuterRun(db, n1, place), Arrived(db, self, n1, place);
    forall i | 0 <= i < |r| ensures Eligible(db1, r[i], place.cont) && Unmasked(db1, r[i], place.cont) {
      MayGoBack(db, db1, self, place.cont, run[i], db[self].base - place.addr);
    }
  }

  // ------------------------------------------------------------------ there and back

  /** Does the structure get its old size back? It does if it is forced to, or has no members, or
      the bare members have that size. Otherwise the test must not be taken in by the last member,
      and the structure must not have been left bare, where the size of its last field's address
      passes for the old one. */
  ghost predicate ReturnFits(db: Db, self: TypeId, n0: nat, n1: nat, place: Place, f1: bool, f2: bool)
    requires Valid(db) && IsContainer(db, self) && place.cont in db && n1 > 0
  {
    BareValid(db, self);
    var m := Members(db, self);
    || f2 || m == [] || Size(Bare(db, self), self) == n0
    || (!EndTest(db, m[|m| - 1], m[|m| - 1].key, n0)
        && !(Stuck(db, self, n0, n1, place) && !f1 && OldSize(Bare(db, self), self) == n0))
  }

  /** The size of the bare members, wherever the segment's fields are. */
  lemma BareSizeSame(db: Db, g: Db, self: TypeId, s: TypeId)
    requires Valid(db) && Valid(g) && SameShape(db, g) && Apart(db, g, s, self)
    requires IsContainer(db, self) && s in db && s != self && db[s].kind.Seg? && g[self].fields == Members(db, self)
    ensures Valid(Bare(db, self)) && Size(g, self) == Size(Bare(db, self), self)
  {
    hide Closed, Acyclic, AllSorted;
    BareValid(db, self);
    var b := Bare(db, self);
    forall u | Reaches(b, self, u)
      ensures u in b && u in g && (g[u] == b[u] || (b[u].kind.Seg? && g[u].kind == b[u].kind)) {
      var p :| PathFromTo(b, p, self, u);
    }
    SizeSame(b, g, self);
  }

  /** On bare members a resize inside the segment only fixes the size. */
  lemma BareResize(db: Db, self: TypeId, n0: nat, n1: nat, place: Place, force: bool)
    requires RoundTripReady(db, self, n0, n1, place) && OuterRun(db, n1, place) == []
    ensures var b := Bare(db, self);
            && Valid(b) && CanResize(b, self, n0, Some(place))
            && Resized(b, self, n0, Some(place), force)
               == if OldSize(b, self) == n0 && !force then b else SizeSet(b, self, n0, force)
  {
    hide Closed, Acyclic, AllSorted, Relocated, SizeSet, SetsSize, InsertUnique, Movable, Size;
    BareValid(db, self);
    var b := Bare(db, self);
    var cur, m := OldSize(b, self), b[self].fields;
    MembersBelow(db, self, n0);
    NoMarkerLeft(db, self, n0);
    BareRange(b, self, n0);
    if n0 < cur {
      EmptyMove(b, self, |m|, place.cont, b[self].base, place.addr);
      BareSame(b, place.cont);
    } else if n0 > cur && n0 > 0 {
      OuterRunEmpty(db, n1, place);
      BareOuter(db, b, self, n0, n1, place);
      EmptyMove(b, place.cont, OuterLo(b, place), self, place.addr, b[self].base);
      BareSame(b, self);
    }
  }

  lemma NoMarkerLeft(db: Db, self: TypeId, n0: nat)
    requires Valid(db) && Compact(db, self, n0)
    ensures !HasMarker(Members(db, self)) && Members(Bare(db, self), self) == Members(db, self)
  {
    var m := Members(db, self);
    assert m != [] ==> m[|m| - 1].Real();
  }

  lemma BareRange(b: Db, self: TypeId, n0: nat)
    requires self in b && Sorted(b[self].fields)
             && forall i :: 0 <= i < |b[self].fields| ==> b[self].fields[i].key < b[self].base + n0
    ensures InnerLo(b, self, n0) == |b[self].fields|
  {
    LowerBoundIs(b[self].fields, b[self].base + n0, |b[self].fields|);
  }

  lemma BareOuter(db: Db, b: Db, self: TypeId, n0: nat, n1: nat, place: Place)
    requires place.cont in db && place.cont in b && b[place.cont].fields == db[place.cont].fields && 0 < n0 < n1
    requires OuterHi(db, n1, place) == OuterLo(db, place)
    ensures OuterLo(b, place) == OuterLo(db, place) == OuterHi(b, n0, place)
  {
    LowerBoundMono(db[place.cont].fields, place.addr + n0, place.addr + n1);
  }

  lemma BareSame(b: Db, d: TypeId)
    requires d in b && Members(b, d) == b[d].fields
    ensures Bare(b, d) == b
    ensures !b[d].kind.Seg? ==> !HasMarker(b[d].fields)
  {}

  lemma MembersAreReal(db: Db, self: TypeId, n0: nat, n1: nat, place: Place)
    requires RoundTripReady(db, self, n0, n1, place)
    ensures RealFields(db[self].fields) == Members(db, self)
  {
    var members := Members(db, self);
    forall f | f in members ensures f.Real() {}
    RealFieldsAll(members);
    RealFieldsStrip(db[self].fields);
  }

  /** The way back from a structure that was left bare. */
  lemma BackFromBare(db: Db, self: TypeId, n0: nat, n1: nat, place: Place, f1: bool, f2: bool)
    requires RoundTripReady(db, self, n0, n1, place)
    requires !f1 && Members(db, self) != [] && Stuck(db, self, n0, n1, place)
    ensures var b := Bare(db, self);
            && CanResize(b, self, n0, Some(place))
            && var db2 := Resized(b, self, n0, Some(place), f2);
            && Valid(db2) && Apart(db, db2, self, place.cont)
            && db2[place.cont].fields == db[place.cont].fields
            && RealFields(db2[self].fields) == Members(db, self)
            && (Size(db2, self) == n0 <==> ReturnFits(db, self, n0, n1, place, f1, f2))
            && (Size(db2, self) == n0 || Size(db2, self) == Size(b, self))
  {
    hide Closed, Acyclic, AllSorted, SizeSet, Resized, CanResize, InsertUnique, EndsAt, EndTest, Movable, Size, OldSize;
    Ready(db, self, n0, n1, place);
    BareValid(db, self);
    var b, m := Bare(db, self), Members(db, self);
    BareResize(db, self, n0, n1, place, f2);
    hide RoundTripReady;
    FixOldSize(b, self, m, n0, f2);
    TestedMember(db, b, self, place.cont, n0);
    RealFieldsAll(m);
  }

  /** The way back from a structure that has grown. */
  lemma BackFromGrown(db: Db, db1: Db, self: TypeId, n0: nat, n1: nat, place: Place,
                      tail: seq<Field>, f1: bool, f2: bool)
    requires RoundTripReady(db, self, n0, n1, place)
    requires Valid(db1) && SameShape(db, db1) && GrownExactly(db, db1, self, n1, place, tail)
    requires OldSize(db1, self) > n0 && !(Stuck(db, self, n0, n1, place) && !f1)
    ensures CanResize(db1, self, n0, Some(place))
    ensures var db2 := Resized(db1, self, n0, Some(place), f2);
            && Valid(db2) && Apart(db, db2, self, place.cont)
            && db2[place.cont].fields == db[place.cont].fields
            && RealFields(db2[self].fields) == Members(db, self)
            && (Size(db2, self) == n0 <==> ReturnFits(db, self, n0, n1, place, f1, f2))
            && Valid(Bare(db, self)) && self in Bare(db, self)
            && (Size(db2, self) == n0 || Size(db2, self) == Size(Bare(db, self), self))
  {
    hide RoundTripReady, Closed, Acyclic, AllSorted, Resized, CanResize, InsertAll, ShiftAll, EndsAt, EndTest, Size;
    hide OldSize, Eligible, Unmasked, Members, Arrived, Stuck, OuterLo, OuterHi, Within;
    Ready(db, self, n0, n1, place);
    var m, lo, hi := db[place.cont].fields, OuterLo(db, place), OuterHi(db, n1, place);
    var members, r := Members(db, self), Arrived(db, self, n1, place);
    ArrivedWithin(db, self, n0, n1, place);
    ArrivedMayGoBack(db, db1, self, n0, n1, place);
    ArrivedIs(db, self, n1, place);
    ShiftBack(m[lo..hi], db[self].base - place.addr);
    OuterSplit(db, self, n0, n1, place);
    var g := ShrinkBack(db1, self, n0, n1, place, f2, members, r, tail, m[..lo], m[lo..hi], m[hi..]);
    if members != [] { TestedMember(db, g, self, place.cont, n0); }
    BareSizeSame(db, g, self, place.cont);
  }

  /** Does the structure have the size it had before, known or open? An open one does exactly if
      the size it was taken for is not fixed on the way back. */
  ghost predicate SizeReturns(db: Db, self: TypeId, n0: nat, n1: nat, place: Place, f1: bool, f2: bool)
    requires Valid(db) && IsContainer(db, self) && place.cont in db && n1 > 0
  {
    if Size(db, self) == n0 then ReturnFits(db, self, n0, n1, place, f1, f2)
    else !ReturnFits(db, self, n0, n1, place, f1, f2)
  }

  lemma OpenIsBare(db: Db, self: TypeId, n0: nat, n1: nat, place: Place)
    requires RoundTripReady(db, self, n0, n1, place) && Size(db, self) != n0
    ensures Bare(db, self) == db && Size(db, self) == -1
  {
    hide Closed, Acyclic, AllSorted, CanResize, Movable, Size, OldSize;
    WithOwnFields(db, self);
  }

  /** There and back, each way forced or not: both containers have their typed or named fields
      back, whatever the flags; each size is reached exactly if it fits; and the structure has
      its own size back, known or open, exactly if that returns. */
  lemma GrowThenShrink(db: Db, self: TypeId, n0: nat, n1: nat, place: Place, f1: bool, f2: bool)
    requires RoundTripReady(db, self, n0, n1, place)
    ensures var db1 := Resized(db, self, n1, Some(place), f1);
            && CanResize(db1, self, n0, Some(place))
            && var db2 := Resized(db1, self, n0, Some(place), f2);
            && Valid(db2) && Apart(db, db2, self, place.cont)
            && db2[place.cont].fields == db[place.cont].fields
            && RealFields(db2[self].fields) == RealFields(db[self].fields)
            && (Size(db1, self) == n1 <==> GrowthFits(db, self, n0, n1, place, f1))
            && (Size(db2, self) == n0 <==> ReturnFits(db, self, n0, n1, place, f1, f2))
            && (Size(db2, self) == Size(db, self) <==> SizeReturns(db, self, n0, n1, place, f1, f2))
  {
    hide Closed, Acyclic, AllSorted, Resized, CanResize, Movable, Size, OldSize, Stuck, Members, Arrived;
    hide RoundTripReady, GrownExactly, GrowthFits, ReturnFits, IsOpen, Bare;
    Ready(db, self, n0, n1, place);
    var db1 := Resized(db, self, n1, Some(place), f1);
    var tail := GrowExact(db, self, n0, n1, place, f1);
    MembersAreReal(db, self, n0, n1, place);
    if Size(db, self) != n0 { OpenIsBare(db, self, n0, n1, place); }
    if tail == [] && Arrived(db, self, n1, place) == [] {
      BackFromBare(db, self, n0, n1, place, f1, f2);
    } else {
      BackFromGrown(db, db1, self, n0, n1, place, tail, f1, f2);
    }
  }

  // ------------------------------------------------------------------ where a size is missed

  /** A structure or procedure at address 4 of a segment, a scalar of two bytes, and code. */
  function Sample(kind: Kind, outer: seq<Field>, inner: seq<Field>): Db {
    map[0 := TypeInfo(Seg(-1, 0, 0), 0, outer), 1 := TypeInfo(kind, 4, inner), 2 := TypeInfo(Simple(2), 0, []),
        3 := TypeInfo(Code, 0, [])]
  }

  lemma SampleRanked(kind: Kind, outer: seq<Field>, inner: seq<Field>)
    requires forall f :: f in outer ==> f.typ == Some(1) || f.typ == Some(2)
    requires forall f :: f in inner ==> f.typ == None || f.typ == Some(2) || f.typ == Some(3)
    requires kind.Struc? || kind.Proc?
    ensures Closed(Sample(kind, outer, inner)) && Acyclic(Sample(kind, outer, inner))
  {
    hide Acyclic;
    var db := Sample(kind, outer, inner);
    forall t | t in db ensures InfoOk(db, t) {}
    AcyclicByRank(db, map[0 := 2, 1 := 1, 2 := 0, 3 := 0]);
  }

  lemma SampleValid(kind: Kind, outer: seq<Field>, inner: seq<Field>)
    requires Sorted(outer) && Sorted(inner)
    requires forall f :: f in outer ==> f.typ == Some(1) || f.typ == Some(2)
    requires forall f :: f in inner ==> f.typ == None || f.typ == Some(2) || f.typ == Some(3)
    requires kind.Struc? || kind.Proc?
    ensures Valid(Sample(kind, outer, inner)) && Size(Sample(kind, outer, inner), 2) == 2
    ensures Size(Sample(kind, outer, inner), 3) == -1
  {
    hide Closed, Acyclic;
    SampleRanked(kind, outer, inner);
    assert Sorted([]);
  }

  lemma SampleMoves(kind: Kind, outer: seq<Field>, inner: seq<Field>, f: Field)
    requires Sorted(outer) && Sorted(inner)
    requires forall f :: f in outer ==> f.typ == Some(1) || f.typ == Some(2)
    requires forall f :: f in inner ==> f.typ == None || f.typ == Some(2) || f.typ == Some(3)
    requires kind.Struc? || kind.Proc?
    requires f.typ == Some(2) && !f.exported
    ensures Valid(Sample(kind, outer, inner))
    ensures Eligible(Sample(kind, outer, inner), f, 1) && Unmasked(Sample(kind, outer, inner), f, 1)
  {
    hide Acyclic;
    SampleValid(kind, outer, inner);
    assert SkipArray(Sample(kind, outer, inner), 2) == 2;
  }

  lemma SampleSize(kind: Kind, outer: seq<Field>, f: Field)
    requires Sorted(outer) && f.key >= 4 && f.typ == Some(2) && (kind.Struc? || kind.Proc?)
    requires forall f :: f in outer ==> f.typ == Some(1) || f.typ == Some(2)
    ensures Valid(Sample(kind, outer, [f])) && Size(Sample(kind, outer, [f]), 1) == f.key - 4 + 2
  {
    hide Closed, Acyclic, AllSorted;
    var db := Sample(kind, outer, [f]);
    SampleValid(kind, outer, [f]);
    assert FieldSize(db, 1, 0) == 2;
    assert GroupSize(db, 1, 1, 0) == GroupSize(db, 1, 0, 2) == 2;
  }

  lemma SampleReady(kind: Kind, outer: seq<Field>, inner: seq<Field>, n0: nat, n1: nat)
    requires Sorted(outer) && Sorted(inner) && n0 < n1
    requires outer != [] && outer[0].key == 4 && outer[0].typ == Some(1)
    requires forall i :: 0 < i < |outer| ==> outer[i].typ == Some(2) && !outer[i].exported
    requires forall i :: 0 < i < |outer| ==> 4 + n0 <= outer[i].key < 4 + n1
    requires StrictlySorted(outer)
    requires forall f :: f in inner ==> f.typ == None || f.typ == Some(2) || f.typ == Some(3)
    requires kind.Struc? || kind.Proc?
    requires Valid(Sample(kind, outer, inner)) && Compact(Sample(kind, outer, inner), 1, n0)
    ensures OuterRun(Sample(kind, outer, inner), n1, Place(0, 4)) == outer[1..]
    ensures RoundTripReady(Sample(kind, outer, inner), 1, n0, n1, Place(0, 4))
  {
    hide Closed, Acyclic, AllSorted, Eligible, Unmasked, Size, RoundTripReady, Compact, Members;
    var db, place := Sample(kind, outer, inner), Place(0, 4);
    SampleRange(outer, n1);
    assert Within(outer[1..], 4 + n0, 4 + n1) && StrictlySorted(outer[1..]);
    hide LowerBound, StrictlySorted, Within;
    assert OuterLo(db, place) == 1 && OuterHi(db, n1, place) == |outer|;
    assert outer[1..|outer|] == outer[1..];
    forall i | 1 <= i < |outer| ensures Eligible(db, outer[i], 1) && Unmasked(db, outer[i], 1) {
      SampleMoves(kind, outer, inner, outer[i]);
    }
    ReadyIf(db, 1, n0, n1, place);
  }

  lemma SampleRange(outer: seq<Field>, n1: nat)
    requires Sorted(outer) && StrictlySorted(outer) && outer != [] && outer[0].key == 4 && n1 > 0
    requires forall i :: 0 < i < |outer| ==> outer[i].key < 4 + n1
    ensures UpperBound(outer, 4) == 1 && LowerBound(outer, 4 + n1) == |outer|
  {
    hide Sorted, LowerBound;
    LowerBoundIs(outer, 5, 1);
    LowerBoundIs(outer, 4 + n1, |outer|);
  }

  lemma ReadyIf(db: Db, self: TypeId, n0: nat, n1: nat, place: Place)
    requires Valid(db) && IsContainer(db, self) && IsContainer(db, place.cont) && self != place.cont
    requires db[place.cont].kind.Seg? && n0 < n1 && Compact(db, self, n0)
    requires forall i :: OuterLo(db, place) <= i < OuterHi(db, n1, place) ==>
               Eligible(db, db[place.cont].fields[i], self) && Unmasked(db, db[place.cont].fields[i], self)
    requires StrictlySorted(OuterRun(db, n1, place))
    requires Within(OuterRun(db, n1, place), place.addr + n0, place.addr + n1)
    ensures RoundTripReady(db, self, n0, n1, place)
  {
    hide Closed, Acyclic, AllSorted, Eligible, Unmasked, Members, OuterLo, OuterHi, HasMarker;
  }

  /** A scalar between the old end and the new one that ends at address 12: unforced growing to
      size 12 at base 4 takes it in and sets no marker. */
  lemma UnforcedGrowthMisses() returns (db: Db)
    ensures RoundTripReady(db, 1, 2, 12, Place(0, 4))
    ensures var db1, db2 := Resized(db, 1, 12, Some(Place(0, 4)), false), Resized(db, 1, 12, Some(Place(0, 4)), true);
            && Valid(db1) && 1 in db1 && Size(db1, 1) != 12
            && Valid(db2) && 1 in db2 && Size(db2, 1) == 12
  {
    hide Closed, Acyclic, RoundTripReady, Resized, OuterRun, Stuck, GrownExactly;
    var outer := [Field(0, 4, Some(1), true, false, false), Field(1, 10, Some(2), true, false, false)];
    var inner := [Field(2, 4, Some(2), true, false, false)];
    db := Sample(Struc, outer, inner);
    SampleValid(Struc, outer, inner);
    SampleSize(Struc, outer, inner[0]);
    SampleReady(Struc, outer, inner, 2, 12);
    var tail := GrowExact(db, 1, 2, 12, Place(0, 4), false);
    tail := GrowExact(db, 1, 2, 12, Place(0, 4), true);
  }

  /** A scalar at base 4 that ends at address 6, in a structure whose marker gives it size 6: the
      marker returns on the way out, and the unforced way back leaves size 2. */
  lemma UnforcedReturnMisses() returns (db: Db)
    ensures RoundTripReady(db, 1, 6, 12, Place(0, 4))
    ensures var db1 := Resized(db, 1, 12, Some(Place(0, 4)), false);
            && CanResize(db1, 1, 6, Some(Place(0, 4)))
            && var db2 := Resized(db1, 1, 6, Some(Place(0, 4)), false);
            Valid(db2) && 1 in db2 && Size(db1, 1) == 12 && Size(db2, 1) != 6
  {
    hide Closed, Acyclic, AllSorted, RoundTripReady, Resized, CanResize, OuterRun, Stuck, GroupSize, MaxSize;
    var outer := [Field(0, 4, Some(1), true, false, false)];
    var f := Field(2, 4, Some(2), true, false, false);
    var inner := [f, Field(3, 10, None, false, false, false)];
    db := Sample(Struc, outer, inner);
    SampleValid(Struc, outer, inner);
    SampleReady(Struc, outer, inner, 6, 12);
    SampleSize(Struc, outer, f);
    assert inner[..1] == [f];
    assert Members(db, 1) == [f];
    assert Bare(db, 1) == Sample(Struc, outer, [f]);
    GrowThenShrink(db, 1, 6, 12, Place(0, 4), false, false);
  }

  /** A procedure that ends in code is open; there and back, whatever the flags, it has the fixed
      size it was taken for. */
  lemma OpenSizeIsFixed(f1: bool, f2: bool) returns (db: Db)
    ensures RoundTripReady(db, 1, 1, 12, Place(0, 4)) && db[1].kind.Proc? && Size(db, 1) == -1
    ensures var db1 := Resized(db, 1, 12, Some(Place(0, 4)), f1);
            && CanResize(db1, 1, 1, Some(Place(0, 4)))
            && var db2 := Resized(db1, 1, 1, Some(Place(0, 4)), f2);
            Valid(db2) && 1 in db2 && Size(db2, 1) == 1
  {
    hide Closed, Acyclic, AllSorted, RoundTripReady, Resized, CanResize, OuterRun;
    var outer := [Field(0, 4, Some(1), true, false, false), Field(1, 10, Some(2), true, false, false)];
    var inner := [Field(2, 4, Some(3), true, false, false)];
    db := Sample(Proc, outer, inner);
    SampleValid(Proc, outer, inner);
    OpenEnd(db, 1);
    SampleReady(Proc, outer, inner, 1, 12);
    GrowThenShrink(db, 1, 1, 12, Place(0, 4), f1, f2);
  }

  lemma OpenEnd(db: Db, t: TypeId)
    requires Closed(db) && Acyclic(db) && t in db && db[t].kind.Proc? && |db[t].fields| == 1
    requires db[t].fields[0].Real() && FieldSize(db, t, 0) == -1
    ensures Size(db, t) == -1 && OldSize(db, t) == db[t].fields[0].key - db[t].base + 1
  {
    hide FieldSize;
    assert GroupSize(db, t, 1, 0) == -1;
  }
}
