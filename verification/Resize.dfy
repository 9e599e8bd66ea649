/** Fixing and changing the size of a structure (`SetStrucSize`, `ResizeStruc`), and absorbing
    labels into a procedure (`SweepProc`). */
module Resize {
  import opened Wrappers
  import opened FieldMaps
  import opened TypeDb
  import opened Relocation

  // ------------------------------------------------------------------ SetStrucSize

  /** The marker a new fixed size creates. */
  function Eos(key: int): Field { Field(0, key, None, false, false, false) }

  /** The last field below the end marker, if any: its index plus one. */
  function BelowEos(db: Db, t: TypeId): (n: nat)
    requires t in db
    ensures n == |Members(db, t)| <= |db[t].fields|
  {
    |Members(db, t)|
  }

  /** Does `SetStrucSize` put (or move) a marker? */
  predicate SetsSize(db: Db, t: TypeId, size: nat, force: bool)
    requires Closed(db) && Acyclic(db) && t in db
  {
    var m, base := db[t].fields, db[t].base;
    var n := BelowEos(db, t);
    if n > 0 && size <= m[n - 1].key - base then false
    else if n < |m| then size != m[n].key - base
    else if !force && n > 0 && EndsAt(db, t, n - 1, size) then false
    else base + size > 0
  }

  /** The old marker re-keyed, or a new one. */
  function NewEos(db: Db, t: TypeId, size: nat): (eos: Field)
    requires t in db
    ensures !eos.Real() && eos.key == db[t].base + size
  {
    var m, n, key := db[t].fields, BelowEos(db, t), db[t].base + size;
    if n < |m| then m[n].(key := key) else Eos(key)
  }

  /** The database after `SetStrucSize`. */
  function SizeSet(db: Db, t: TypeId, size: nat, force: bool): Db
    requires Closed(db) && Acyclic(db) && t in db
  {
    if SetsSize(db, t, size, force)
    then WithFields(db, t, InsertUnique(Members(db, t), NewEos(db, t, size)).0)
    else db
  }

  /** The test that saves a marker: absolute end of the field against the relative size. */
  predicate EndsAt(db: Db, t: TypeId, i: nat, size: nat)
    requires Closed(db) && Acyclic(db) && t in db && i < |db[t].fields|
  {
    var fsz := FieldSize(db, t, i);
    var fsz1 := if fsz == 0 then 1 else fsz;
    fsz1 > 0 && db[t].fields[i].key + fsz1 == size
  }

  lemma AppendEos(m: seq<Field>, eos: Field)
    requires Sorted(m) && (m != [] ==> m[|m| - 1].key < eos.key)
    ensures InsertUnique(m, eos).0 == m + [eos]
  {
    assert m + [] == m;
    InsertBetween(m, eos, []);
  }

  /** The marker goes above all members. */
  lemma SizeSetForm(db: Db, t: TypeId, size: nat, force: bool)
    requires Valid(db) && IsContainer(db, t) && SetsSize(db, t, size, force)
    ensures SizeSet(db, t, size, force) == WithFields(db, t, Members(db, t) + [NewEos(db, t, size)])
    ensures Members(db, t) != [] ==> Members(db, t)[|Members(db, t)| - 1].key < db[t].base + size
  {
    MembersSorted(db, t);
    AppendEos(Members(db, t), NewEos(db, t, size));
  }

  lemma SizeOfMarked(db: Db, t: TypeId, front: seq<Field>, eos: Field)
    requires Closed(db) && Acyclic(db) && IsContainer(db, t) && !db[t].kind.Seg?
    requires db[t].fields == front + [eos] && !eos.Real()
    requires db[t].base < eos.key || front == []
    ensures Size(db, t) == eos.key - db[t].base
  {
  }

  lemma SizeSetValid(db: Db, t: TypeId, size: nat, force: bool)
    requires Valid(db) && IsContainer(db, t)
    ensures Valid(SizeSet(db, t, size, force))
    ensures SameShape(db, SizeSet(db, t, size, force))
  {
    if SetsSize(db, t, size, force) {
      var m, eos := Members(db, t), NewEos(db, t, size);
      MembersSorted(db, t);
      InsertUniqueSorted(m, eos);
      InsertUniqueMembers(m, eos);
      WithFieldsKeeps(db, t, InsertUnique(m, eos).0);
    }
  }

  lemma LastIsTop(m: seq<Field>)
    requires Sorted(m)
    ensures forall f :: f in m ==> f.key <= m[|m| - 1].key
  {
  }

  /** Whenever `SetStrucSize` reports success on a structure, the size is the requested one,
      the fields below the marker are untouched, and the one marker lies above all of them. */
  lemma SetStrucSizeExact(db: Db, t: TypeId, size: nat, force: bool)
    requires Valid(db) && IsContainer(db, t) && !db[t].kind.Seg?
    requires forall f :: f in db[t].fields ==> db[t].base <= f.key
    requires SetsSize(db, t, size, force)
    ensures var db' := SizeSet(db, t, size, force);
            && Valid(db')
            && HasMarker(db'[t].fields)
            && Strip(db'[t].fields) == Members(db, t)
            && (forall f :: f in Members(db, t) ==> f.key < db[t].base + size)
            && Size(db', t) == size
  {
    SizeSetForm(db, t, size, force);
    SizeSetValid(db, t, size, force);
    MembersSorted(db, t);
    LastIsTop(Members(db, t));
    var m, eos := Members(db, t), NewEos(db, t, size);
    assert (m + [eos])[..|m|] == m;
    assert m != [] ==> m[|m| - 1] in db[t].fields;
    SizeOfMarked(SizeSet(db, t, size, force), t, m, eos);
  }

  /** The guards of `SetStrucSize`: the size lies above all fields, and there is a marker to move,
      or force, or the test for the last field's end fails. */
  predicate Takes(db: Db, t: TypeId, size: nat, force: bool)
    requires Closed(db) && Acyclic(db) && t in db
  {
    var m, n := db[t].fields, BelowEos(db, t);
    && (n > 0 ==> size > m[n - 1].key - db[t].base)
    && (n < |m| || force || n == 0 || !EndsAt(db, t, n - 1, size))
  }

  lemma SizeByMarker(db: Db, t: TypeId)
    requires Closed(db) && Acyclic(db) && IsContainer(db, t) && !db[t].kind.Seg? && HasMarker(db[t].fields)
    requires var m := db[t].fields; |m| > 1 ==> db[t].base < m[|m| - 1].key
    ensures Size(db, t) == db[t].fields[|db[t].fields| - 1].key - db[t].base
  {
    hide Closed, Acyclic, Size;
    var m := db[t].fields;
    assert m == m[..|m| - 1] + [m[|m| - 1]];
    SizeOfMarked(db, t, m[..|m| - 1], m[|m| - 1]);
  }

  lemma EmptySize(db: Db, t: TypeId)
    requires Closed(db) && Acyclic(db) && IsContainer(db, t) && !db[t].kind.Seg? && db[t].fields == []
    ensures Size(db, t) == 0
  {}

  /** What the guards let pass and is not set needs no setting. */
  lemma AlreadyThere(db: Db, t: TypeId, size: nat, force: bool)
    requires Valid(db) && IsContainer(db, t) && !db[t].kind.Seg? && db[t].base >= 0
    requires forall f :: f in db[t].fields ==> db[t].base <= f.key
    requires Takes(db, t, size, force) && !SetsSize(db, t, size, force)
    ensures Size(db, t) == size
  {
    hide Closed, Acyclic, AllSorted, EndsAt, Size;
    var m, n := db[t].fields, BelowEos(db, t);
    if n < |m| {
      if n > 0 { assert m[n - 1] in m; }
      SizeByMarker(db, t);
    } else {
      EmptySize(db, t);
    }
  }

  /** A structure has the asked size afterwards exactly if it had it before, or the guards let
      the size pass. */
  lemma SizeReachedIff(db: Db, t: TypeId, size: nat, force: bool)
    requires Valid(db) && IsContainer(db, t) && !db[t].kind.Seg? && db[t].base >= 0
    requires forall f :: f in db[t].fields ==> db[t].base <= f.key
    ensures Valid(SizeSet(db, t, size, force))
    ensures Size(SizeSet(db, t, size, force), t) == size <==> Size(db, t) == size || Takes(db, t, size, force)
  {
    hide Closed, Acyclic, AllSorted, EndsAt, Size, InsertUnique;
    SizeSetValid(db, t, size, force);
    if SetsSize(db, t, size, force) {
      SetStrucSizeExact(db, t, size, force);
    } else if Takes(db, t, size, force) {
      AlreadyThere(db, t, size, force);
    }
  }

  /** Without force, a size beyond the last field's address is reached if and only if the
      field's absolute end differs from it, or the structure has that size already: the code
      compares the absolute end of one field with the relative size. */
  lemma UnforcedSizeIff(db: Db, t: TypeId, size: nat)
    requires Valid(db) && IsContainer(db, t) && !db[t].kind.Seg? && db[t].base >= 0
    requires forall f :: f in db[t].fields ==> db[t].base <= f.key
    requires var m := db[t].fields;
             m != [] && !HasMarker(m) && size > m[|m| - 1].key - db[t].base
    ensures Valid(SizeSet(db, t, size, false))
    ensures Size(SizeSet(db, t, size, false), t) == size
            <==> !EndsAt(db, t, |db[t].fields| - 1, size) || Size(db, t) == size
  {
    hide Closed, Acyclic, AllSorted, EndsAt, Size, SizeSet;
    SizeReachedIff(db, t, size, false);
  }

  /** A last field alone at its address, of known size, ends where the structure does; so there
      the test is wrong exactly at a base other than zero. */
  lemma LoneLastFieldIff(db: Db, t: TypeId, size: nat)
    requires Valid(db) && IsContainer(db, t) && !db[t].kind.Seg? && db[t].base >= 0
    requires forall f :: f in db[t].fields ==> db[t].base <= f.key
    requires var m := db[t].fields;
             && m != [] && !HasMarker(m) && size > m[|m| - 1].key - db[t].base
             && (|m| > 1 ==> m[|m| - 2].key < m[|m| - 1].key) && FieldSize(db, t, |m| - 1) >= 0
    ensures Valid(SizeSet(db, t, size, false))
    ensures Size(SizeSet(db, t, size, false), t) == size
            <==> !EndsAt(db, t, |db[t].fields| - 1, size) || db[t].base == 0
  {
    hide Closed, Acyclic, AllSorted;
    UnforcedSizeIff(db, t, size);
    LoneSize(db, t);
  }

  lemma LoneSize(db: Db, t: TypeId)
    requires Valid(db) && IsContainer(db, t) && !db[t].kind.Seg?
    requires forall f :: f in db[t].fields ==> db[t].base <= f.key
    requires var m := db[t].fields;
             && m != [] && !HasMarker(m)
             && (|m| > 1 ==> m[|m| - 2].key < m[|m| - 1].key) && FieldSize(db, t, |m| - 1) >= 0
    ensures var m, fsz := db[t].fields, FieldSize(db, t, |db[t].fields| - 1);
            Size(db, t) == m[|m| - 1].key - db[t].base + if fsz == 0 then 1 else fsz
  {
    hide AllSorted;
    var m, fsz := db[t].fields, FieldSize(db, t, |db[t].fields| - 1);
    var one := if fsz == 0 then 1 else fsz;
    assert GroupSize(db, t, |m|, 0) == GroupSize(db, t, |m| - 1, one) == one;
    if |m| > 1 { assert m[|m| - 2] in m; }
  }

  /** Fields that share the last address defeat the test at base zero as well: the last of them
      ends at the asked size, but a longer one before it does not. */
  lemma SharedLastAddress() returns (db: Db)
    ensures Valid(db) && IsContainer(db, 0) && db[0].base == 0 && Size(db, 0) == 12
    ensures !SetsSize(db, 0, 6, false) && SetsSize(db, 0, 6, true)
  {
    hide Acyclic;
    var m := [Field(0, 0, Some(1), true, false, false), Field(1, 4, Some(2), true, false, false),
              Field(2, 4, Some(1), true, false, false)];
    db := map[0 := TypeInfo(Struc, 0, m), 1 := TypeInfo(Simple(2), 0, []), 2 := TypeInfo(Simple(8), 0, [])];
    forall t | t in db ensures InfoOk(db, t) && Sorted(db[t].fields) {}
    AcyclicByRank(db, map[0 := 1, 1 := 0, 2 := 0]);
    SharedSize(db, 0);
  }

  lemma SharedSize(db: Db, t: TypeId)
    requires Closed(db) && Acyclic(db) && IsContainer(db, t) && !db[t].kind.Seg? && !HasMarker(db[t].fields)
    requires |db[t].fields| == 3 && db[t].fields[0].key < db[t].fields[1].key == db[t].fields[2].key
    requires FieldSize(db, t, 2) == 2 && FieldSize(db, t, 1) == 8
    ensures Size(db, t) == db[t].fields[1].key - db[t].base + 8
  {
    hide FieldSize;
    assert GroupSize(db, t, 3, 0) == GroupSize(db, t, 2, 2) == GroupSize(db, t, 1, 8) == 8;
  }

  // ------------------------------------------------------------------ ResizeStruc

  /** Where a structure sits: the outer container and the address in it. */
  datatype Place = Place(cont: TypeId, addr: int)

  lemma LowerBoundMono(m: seq<Field>, k: int, k': int)
    requires k <= k'
    ensures LowerBound(m, k) <= LowerBound(m, k')
  {
    if m != [] {
      LowerBoundMono(m[1..], k, k');
    }
  }

  /** The current size, as an unsigned number; an open structure ends one byte after its last
      field's address. */
  function OldSize(db: Db, t: TypeId): int
    requires Closed(db) && Acyclic(db) && t in db
  {
    var sz, m := Size(db, t), db[t].fields;
    if sz == -1 && m != [] then m[|m| - 1].key - db[t].base + 1 else if sz < 0 then sz + ADDR_LIMIT else sz
  }

  /** First outer field above the structure's address. */
  function OuterLo(db: Db, outer: Place): (r: nat)
    requires outer.cont in db
    ensures r <= |db[outer.cont].fields|
  {
    UpperBound(db[outer.cont].fields, outer.addr)
  }

  /** First outer field at or beyond the new end of the structure. */
  function OuterHi(db: Db, newSize: nat, outer: Place): (r: nat)
    requires outer.cont in db && newSize > 0
    ensures OuterLo(db, outer) <= r <= |db[outer.cont].fields|
  {
    LowerBoundMono(db[outer.cont].fields, outer.addr + 1, outer.addr + newSize);
    LowerBound(db[outer.cont].fields, outer.addr + newSize)
  }

  /** First own field at or beyond the new end. */
  function InnerLo(db: Db, self: TypeId, newSize: nat): (r: nat)
    requires self in db
    ensures r <= |db[self].fields|
  {
    LowerBound(db[self].fields, db[self].base + newSize)
  }

  /** Whether the fields that the resize exchanges may go; one of the two containers takes them. */
  ghost predicate CanResize(db: Db, self: TypeId, newSize: nat, outer: Option<Place>) {
    && Valid(db) && IsContainer(db, self)
    && (outer.Some? ==>
          var o, cur := outer.value, OldSize(db, self);
          && o.cont != self && IsContainer(db, o.cont)
          && (newSize > cur && newSize > 0 ==> CanRelocate(db, o.cont, OuterLo(db, o), OuterHi(db, newSize, o), self))
          && (newSize < cur ==> CanRelocate(db, self, InnerLo(db, self, newSize), |db[self].fields|, o.cont)))
  }

  /** Growing: outer fields move in. */
  ghost function Grown(db: Db, self: TypeId, newSize: nat, outer: Place): Db
    requires newSize > 0 && outer.cont in db && self in db
    requires CanRelocate(db, outer.cont, OuterLo(db, outer), OuterHi(db, newSize, outer), self)
  {
    Relocated(db, outer.cont, OuterLo(db, outer), OuterHi(db, newSize, outer), self, outer.addr, db[self].base)
  }

  /** Shrinking: own fields move out. */
  ghost function Shrunk(db: Db, self: TypeId, newSize: nat, outer: Place): Db
    requires outer.cont in db && self in db
    requires CanRelocate(db, self, InnerLo(db, self, newSize), |db[self].fields|, outer.cont)
  {
    Relocated(db, self, InnerLo(db, self, newSize), |db[self].fields|, outer.cont, db[self].base, outer.addr)
  }

  /** The relocation part: outer fields move in when the structure grows, and its own fields
      move out when it shrinks. */
  ghost function Exchanged(db: Db, self: TypeId, newSize: nat, outer: Place): Db
    requires CanResize(db, self, newSize, Some(outer))
  {
    var cur := OldSize(db, self);
    if newSize > cur && newSize > 0 then Grown(db, self, newSize, outer)
    else if newSize < cur then Shrunk(db, self, newSize, outer)
    else db
  }

  /** Has any field (or marker) left its container? */
  ghost predicate Exchanges(db: Db, self: TypeId, newSize: nat, outer: Place)
    requires CanResize(db, self, newSize, Some(outer))
  {
    var cur := OldSize(db, self);
    if newSize > cur && newSize > 0 then
      GoneCount(db, outer.cont, OuterLo(db, outer), OuterHi(db, newSize, outer), self) > 0
    else if newSize < cur then
      GoneCount(db, self, InnerLo(db, self, newSize), |db[self].fields|, outer.cont) > 0
    else false
  }

  lemma ExchangedKeeps(db: Db, self: TypeId, newSize: nat, outer: Place)
    requires CanResize(db, self, newSize, Some(outer))
    ensures Valid(Exchanged(db, self, newSize, outer))
    ensures SameShape(db, Exchanged(db, self, newSize, outer))
  {
    var cur := OldSize(db, self);
    if newSize > cur && newSize > 0 {
      RelocatedKeepsValid(db, outer.cont, OuterLo(db, outer), OuterHi(db, newSize, outer), self,
                          outer.addr, db[self].base);
    } else if newSize < cur {
      RelocatedKeepsValid(db, self, InnerLo(db, self, newSize), |db[self].fields|, outer.cont,
                          db[self].base, outer.addr);
    }
  }

  /** `ResizeStruc` stops at once when the structure already has the requested size. */
  predicate ResizeIdle(db: Db, self: TypeId, newSize: nat, outer: Option<Place>, force: bool)
    requires Closed(db) && Acyclic(db) && self in db
  {
    outer.Some? && newSize == OldSize(db, self) && !force
  }

  /** The database after `ResizeStruc`. */
  ghost function Resized(db: Db, self: TypeId, newSize: nat, outer: Option<Place>, force: bool): Db
    requires CanResize(db, self, newSize, outer)
  {
    if ResizeIdle(db, self, newSize, outer, force) then db
    else if outer.None? then SizeSet(db, self, newSize, force)
    else
      ExchangedKeeps(db, self, newSize, outer.value);
      SizeSet(Exchanged(db, self, newSize, outer.value), self, newSize, force)
  }

  /** What `ResizeStruc` reports. */
  ghost predicate ResizeReports(db: Db, self: TypeId, newSize: nat, outer: Option<Place>, force: bool)
    requires CanResize(db, self, newSize, outer)
  {
    if ResizeIdle(db, self, newSize, outer, force) then false
    else if outer.None? then SetsSize(db, self, newSize, force)
    else
      ExchangedKeeps(db, self, newSize, outer.value);
      || Exchanges(db, self, newSize, outer.value)
      || SetsSize(Exchanged(db, self, newSize, outer.value), self, newSize, force)
  }

  /** Resizing keeps the database valid. */
  lemma ResizedKeepsValid(db: Db, self: TypeId, newSize: nat, outer: Option<Place>, force: bool)
    requires CanResize(db, self, newSize, outer)
    ensures Valid(Resized(db, self, newSize, outer, force))
    ensures SameShape(db, Resized(db, self, newSize, outer, force))
  {
    if outer.None? {
      SizeSetValid(db, self, newSize, force);
    } else if !ResizeIdle(db, self, newSize, outer, force) {
      ExchangedKeeps(db, self, newSize, outer.value);
      SizeSetValid(Exchanged(db, self, newSize, outer.value), self, newSize, force);
    }
  }
}
