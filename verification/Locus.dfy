/** Descent from an address in a segment to the innermost field (`terminalFieldAt`), over the
    list of frames it builds (`Locus_t`), and the way back (`reduce`, `stripToSeg`). */
module LocusDescent {
  import opened Wrappers
  import opened FieldMaps
  import opened TypeDb

  // ------------------------------------------------------------------ frames

  const OFF_LIMIT: nat := 0x1_0000_0000_0000_0000

  /** A piece of the raw file. */
  datatype Block = Block(offs: nat, size: nat) {
    predicate Empty() { size == 0 }

    /** The part from `doffs` on, at most `dsize` bytes; nothing if `doffs` lies outside. A
        negative size is an open one. */
    function Subspace(doffs: nat, dsize: int): Block {
      var room := if dsize < 0 then dsize + OFF_LIMIT else dsize;
      if doffs >= size then Block(0, 0)
      else if size - doffs <= room then Block(offs + doffs, size - doffs)
      else Block(offs + doffs, if room >= 0 then room else 0)
    }
  }

  /** One level of a locus: a container, an address in it, and the field picked there. */
  datatype Frame = Frame(block: Block, cont: TypeId, addr: int, extra: int, field: Option<Field>) {
    function Addrx(): int { addr + extra }

    /** Picks `f`, moves to its address and tells how far beyond it the frame stood. */
    function SetField2(f: Field): (Frame, int) {
      (Frame(block, cont, f.key, 0, Some(f)), if Addrx() > f.key then Addrx() - f.key else 0)
    }
  }

  /** Fields start at or above the base of their container, and no segment is the type of a field,
      an element or what a modifier modifies. */
  ghost predicate LocusOk(db: Db) {
    && Closed(db) && Acyclic(db)
    && (forall t, f {:trigger f in db[t].fields} :: t in db && f in db[t].fields ==> 0 <= f.key && db[t].base <= f.key)
    && (forall t, f {:trigger HasFieldOf(db, t, f)} :: t in db && f in db && HasFieldOf(db, t, f) ==>
          !db[Direct(db, f)].kind.Seg?)
    && (forall t {:trigger db[t].kind.elem} :: t in db && db[t].kind.Array? ==>
          db[t].kind.elem in db && !db[Direct(db, db[t].kind.elem)].kind.Seg?)
    && (forall t {:trigger db[t].kind.target} :: t in db && db[t].kind.Modifier? ==>
          db[t].kind.target in db && !db[Direct(db, db[t].kind.target)].kind.Seg?)
  }

  lemma Knows(db: Db)
    requires LocusOk(db)
    ensures Closed(db) && Acyclic(db)
  {}

  /** Where addresses in a container start; wrappers have no base of their own. */
  function BaseOf(db: Db, t: TypeId): int
    requires t in db
  {
    if db[t].kind.StrucLike() then db[t].base else 0
  }

  /** What a wrapper shows has base zero as well: it has no parent field. */
  ghost predicate WrapsAtZero(db: Db)
    requires Closed(db) && Acyclic(db)
  {
    forall t {:trigger Direct(db, t)} :: t in db && db[t].kind.Wrapper() ==> db[Direct(db, t)].base == 0
  }

  ghost predicate FrameOk(db: Db, f: Frame) {
    && f.cont in db && (db[f.cont].kind.StrucLike() || db[f.cont].kind.Wrapper())
    && BaseOf(db, f.cont) <= f.addr && 0 <= f.extra
    && f.block.size < OFF_LIMIT
  }

  /** A locus stands in a segment: its outermost frame is one, the others are not. */
  ghost predicate InSegment(db: Db, fs: seq<Frame>) {
    && fs != []
    && (forall k :: 0 <= k < |fs| ==> FrameOk(db, fs[k]))
    && db[fs[0].cont].kind.Seg?
    && (forall k :: 1 <= k < |fs| ==> !db[fs[k].cont].kind.Seg?)
  }

  function Top(fs: seq<Frame>): Frame
    requires fs != []
  {
    fs[|fs| - 1]
  }

  function Below(fs: seq<Frame>): seq<Frame>
    requires fs != []
  {
    fs[..|fs| - 1]
  }

  /** Offset of a frame's position in its container. */
  function Offset(db: Db, f: Frame): int
    requires f.cont in db
  {
    f.Addrx() - BaseOf(db, f.cont)
  }

  /** Virtual address: offsets add up until a segment supplies the absolute address. */
  function Va(db: Db, fs: seq<Frame>): int
    requires forall k :: 0 <= k < |fs| ==> fs[k].cont in db
  {
    if fs == [] then 0
    else if db[Top(fs).cont].kind.Seg? then Top(fs).Addrx()
    else Offset(db, Top(fs)) + Va(db, Below(fs))
  }

  /** Raw offset: offsets add up to the innermost segment, whose raw block must cover the sum
      (otherwise the code throws). */
  function Ra(db: Db, fs: seq<Frame>, acc: int): Option<int>
    requires forall k :: 0 <= k < |fs| ==> fs[k].cont in db
  {
    if fs == [] then Some(acc)
    else
      var a := acc + Offset(db, Top(fs));
      var kind := db[Top(fs).cont].kind;
      if kind.Seg? then (if a < kind.rawSize then Some(kind.rawOffs + a) else None)
      else Ra(db, Below(fs), a)
  }

  /** Raw offset of the frame's position in its own block. */
  function RawOff(db: Db, f: Frame): Option<int>
    requires f.cont in db
  {
    if f.block.Empty() then None else Some(f.block.offs + Offset(db, f))
  }

  /** The two sums agree. */
  lemma {:induction false} RaIsVa(db: Db, fs: seq<Frame>, acc: int)
    requires InSegment(db, fs)
    ensures var seg := db[fs[0].cont];
            var a := acc + Va(db, fs) - seg.base;
            Ra(db, fs, acc) == if a < seg.kind.rawSize then Some(seg.kind.rawOffs + a) else None
  {
    if |fs| > 1 {
      RaIsVa(db, Below(fs), acc + Offset(db, Top(fs)));
    }
  }

  // ------------------------------------------------------------------ one step

  /** Result of a step: the frames, and whether there is another level below. */
  datatype StepResult = Step(frames: seq<Frame>, more: bool)

  function WithTop(fs: seq<Frame>, f: Frame): seq<Frame>
    requires fs != []
  {
    Below(fs) + [f]
  }

  /** The first of the fields at the highest address not above `addr`. */
  function FieldAtOrBelow(m: seq<Field>, addr: int): (r: Option<Field>)
    ensures r.Some? ==> r.value in m && r.value.key <= addr
  {
    var u := UpperBound(m, addr);
    if u == 0 then None
    else
      var i := LowerBound(m, m[u - 1].key);
      Some(m[i])
  }

  /** Size used for the overlap test: nothing counts as one byte. */
  function SpanOf(db: Db, t: TypeId): int
    requires Closed(db) && Acyclic(db) && t in db
  {
    var sz := Size(db, t);
    if sz == 0 then 1 else sz
  }

  /** Does the field end at or before the address? A field of open size ends only if it is a
      procedure with contents: at its end marker, or one byte after its last field. */
  predicate Underlaps(db: Db, f: Field, addrx: int)
    requires Closed(db) && Acyclic(db) && f.typ.Some? && f.typ.value in db
  {
    var t := f.typ.value;
    var sz := SpanOf(db, t);
    if sz > 0 then f.key + sz <= addrx
    else
      db[t].kind.Proc? && db[t].fields != [] &&
      var m := db[t].fields;
      var end := m[|m| - 1].key + if HasMarker(m) then 0 else 1;
      addrx >= end
  }

  lemma {:induction false} SizeAtLeastOpen(db: Db, t: TypeId)
    requires LocusOk(db) && t in db && !db[Direct(db, t)].kind.Seg?
    ensures Size(db, t) >= -1
    decreases Rank(db, t), 1, 0
  {
    var info := db[t];
    if info.kind.Array? {
      RankFalls(db, t, info.kind.elem);
      assert Size(db, t) >= -1;
    } else if info.kind.Referring() {
      assert InfoOk(db, t);
      RankFalls(db, t, info.kind.target);
      SizeAtLeastOpen(db, info.kind.target);
    } else if info.kind.StrucLike() && info.fields != [] && !IsUnion(info) {
      var m := info.fields;
      assert m[|m| - 1] in m;
      GroupAtLeastOpen(db, t, |m|, 0);
    }
  }

  lemma {:induction false} GroupAtLeastOpen(db: Db, t: TypeId, n: nat, sz: nat)
    requires LocusOk(db) && t in db && n <= |db[t].fields|
    ensures GroupSize(db, t, n, sz) >= -1
    decreases Rank(db, t), 0, n + 1
  {
    var m := db[t].fields;
    if n > 0 && m[n - 1].key == m[|m| - 1].key {
      var f := m[n - 1];
      if f.typ.Some? {
        assert InfoOk(db, t) && HasFieldOf(db, t, f.typ.value);
        RankFalls(db, t, f.typ.value);
        SizeAtLeastOpen(db, f.typ.value);
      }
      var fsz := FieldSize(db, t, n - 1);
      if fsz >= 0 {
        var one := if fsz == 0 then 1 else fsz;
        GroupAtLeastOpen(db, t, n - 1, if one > sz then one else sz);
      }
    }
  }

  /** Element size, as an unsigned number; nothing counts as one byte. */
  function ElemSize(db: Db, e: TypeId): (r: int)
    requires LocusOk(db) && e in db && !db[Direct(db, e)].kind.Seg?
    ensures r > 0
  {
    SizeAtLeastOpen(db, e);
    var sz := Size(db, e);
    if sz == 0 then 1 else if sz < 0 then sz + ADDR_LIMIT else sz
  }

  /** `x` is a whole number of elements of size `b`. */
  ghost predicate WholeElements(x: int, b: nat) {
    exists q: nat :: Times(q, b) == x
  }

  /** Where the element that contains the offset starts. */
  function ElemStart(over: nat, sz: nat): (r: nat)
    requires sz > 0
    ensures over - r == over % sz && 0 <= over - r < sz
    ensures WholeElements(r, sz)
  {
    assert Times(over / sz, sz) == over / sz * sz;
    over / sz * sz
  }

  /** The field at or below the top frame's address. */
  function Pick(db: Db, top: Frame): (r: Option<Field>)
    requires Closed(db) && Acyclic(db) && top.cont in db
    ensures r.Some? ==> r.value in FieldsOf(db, top.cont) && r.value.key <= top.addr
  {
    FieldAtOrBelow(FieldsOf(db, top.cont), top.addr)
  }

  /** The top frame once a field has been looked at: an exact hit is remembered. */
  function Marked(top: Frame, f: Field): Frame {
    if top.addr == f.key then top.(field := Some(f)) else top
  }

  function KnownType(db: Db, c: TypeId, f: Field): (t: TypeId)
    requires LocusOk(db) && c in db && f in FieldsOf(db, c) && f.typ.Some?
    ensures t == f.typ.value && t in db && !db[Direct(db, t)].kind.Seg?
    ensures Rank(db, t) < Rank(db, c)
    ensures db[Direct(db, c)].base <= f.key && 0 <= f.key
  {
    RankField(db, c, f);
    assert HasFieldOf(db, Direct(db, c), f.typ.value);
    assert f in db[Direct(db, c)].fields;
    f.typ.value
  }

  /** What is inside an import wrapper; other types are left as they are. */
  function Typex(db: Db, t: TypeId): (x: TypeId)
    requires Closed(db) && Acyclic(db) && t in db
    ensures x in db && Direct(db, x) == Direct(db, t) && Rank(db, x) <= Rank(db, t)
  {
    assert InfoOk(db, t);
    if db[t].kind.Import? then
      RankFalls(db, t, db[t].kind.target);
      db[t].kind.target
    else t
  }

  /** Does the descent end on the top frame without moving to the field? */
  predicate Stays(db: Db, top: Frame)
    requires LocusOk(db) && FrameOk(db, top)
  {
    var found := Pick(db, top);
    found.None? || found.value.typ.None? ||
    (var f := found.value;
     var t := KnownType(db, top.cont, f);
     || Underlaps(db, f, top.Addrx())
     || (f.key < top.addr && db[t].kind.Code?))
  }

  /** The element type of an array type. */
  function ElemOf(db: Db, d: TypeId): (e: TypeId)
    requires LocusOk(db) && d in db && db[Direct(db, d)].kind.Array?
    ensures e == SkipArray(db, d)
    ensures e in db && Rank(db, e) < Rank(db, d)
    ensures !db[Direct(db, e)].kind.Array? && !db[Direct(db, e)].kind.Seg?
    decreases Rank(db, d)
  {
    RankElem(db, d);
    var b := db[Direct(db, d)].kind.elem;
    if db[Direct(db, b)].kind.Array? then ElemOf(db, b) else b
  }

  /** The frame inside a structure that the field's type is. */
  function StrucFrame(db: Db, top: Frame, f: Field, t: TypeId, over: int): Frame
    requires LocusOk(db) && top.cont in db && t in db && db[Direct(db, top.cont)].base <= f.key
  {
    var x := Typex(db, t);
    Frame(top.block.Subspace(f.key - db[Direct(db, top.cont)].base, SpanOf(db, t)), x, over + BaseOf(db, x), 0, None)
  }

  /** The frame inside an array element that lies `skip` bytes into the field. */
  function ElemFrame(db: Db, top: Frame, f: Field, e: TypeId, skip: nat, rest: int): Frame
    requires LocusOk(db) && top.cont in db && e in db && !db[Direct(db, e)].kind.Seg?
    requires db[Direct(db, top.cont)].base <= f.key
  {
    Frame(top.block.Subspace(f.key - db[Direct(db, top.cont)].base + skip, ElemSize(db, e)),
          e, rest + BaseOf(db, e), 0, None)
  }

  /** `terminalFieldAt0` on the top frame. */
  function StepDown(db: Db, fs: seq<Frame>): StepResult
    requires LocusOk(db) && InSegment(db, fs)
  {
    var top := Top(fs);
    var found := Pick(db, top);
    if found.None? then Step(fs, false)
    else if Stays(db, top) then Step(WithTop(fs, Marked(top, found.value)), false)
    else
      var f := found.value;
      var t := KnownType(db, top.cont, f);
      var (top2, over) := top.SetField2(f);
      if HasStruc(db, t) then
        Step(WithTop(fs, top2) + [StrucFrame(db, top2, f, t, over)], true)
      else if db[Direct(db, t)].kind.Array? then
        var e := ElemOf(db, t);
        var sz := ElemSize(db, e);
        var skip := ElemStart(over, sz);
        var top3 := top2.(extra := skip);
        if HasStruc(db, e) then
          Step(WithTop(fs, top3) + [ElemFrame(db, top3, f, e, skip, over - skip)], true)
        else Step(WithTop(fs, top3), false)
      else Step(WithTop(fs, top2.(extra := over)), false)
  }

  // ------------------------------------------------------------------ what a step keeps

  /** The descent has ended on an array of things that are not structures. */
  predicate OnScalarArray(db: Db, fr: Frame)
    requires LocusOk(db)
  {
    fr.field.Some? && fr.field.value.typ.Some? &&
    (var t := fr.field.value.typ.value;
     t in db && db[Direct(db, t)].kind.Array? && !HasStruc(db, ElemOf(db, t)))
  }

  /** Size of the elements of that array. */
  function ScalarSize(db: Db, fr: Frame): (r: int)
    requires LocusOk(db) && OnScalarArray(db, fr)
    ensures r > 0
  {
    ElemSize(db, ElemOf(db, fr.field.value.typ.value))
  }

  /** `va` is the start of the element of an array of scalars that contains `from`. */
  ghost predicate RoundedDown(db: Db, fr: Frame, from: int, va: int)
    requires LocusOk(db)
  {
    && OnScalarArray(db, fr)
    && 0 <= from - va < ScalarSize(db, fr)
    && WholeElements(fr.extra, ScalarSize(db, fr))
  }

  /** The container a field leads into. */
  function Inner(db: Db, t: TypeId): (c: TypeId)
    requires LocusOk(db) && t in db
    ensures c in db && Rank(db, c) <= Rank(db, t)
  {
    if db[Direct(db, t)].kind.Array? then ElemOf(db, t) else Typex(db, t)
  }

  /** `lower` is the container behind the field picked in `upper`. */
  ghost predicate LeadsTo(db: Db, upper: Frame, lower: Frame)
    requires LocusOk(db)
  {
    && upper.cont in db && upper.field.Some? && upper.field.value in FieldsOf(db, upper.cont)
    && upper.field.value.typ.Some? && upper.field.value.typ.value in db
    && lower.cont == Inner(db, upper.field.value.typ.value)
    && upper.addr == upper.field.value.key
  }

  lemma {:induction false} VaBelow(db: Db, fs: seq<Frame>, top: Frame)
    requires InSegment(db, fs) && top.cont == Top(fs).cont
    ensures Va(db, WithTop(fs, top)) == Va(db, fs) - Top(fs).Addrx() + top.Addrx()
    ensures |WithTop(fs, top)| == |fs| && Below(WithTop(fs, top)) == Below(fs) && Top(WithTop(fs, top)) == top
    ensures FrameOk(db, top) ==> InSegment(db, WithTop(fs, top))
  {
    assert Below(WithTop(fs, top)) == Below(fs);
  }

  lemma FramesOk(db: Db, fs: seq<Frame>)
    requires InSegment(db, fs)
    ensures fs != [] && FrameOk(db, Top(fs)) && Top(fs).cont in db
  {}

  lemma Pushed(db: Db, fs: seq<Frame>, top: Frame, inner: Frame)
    requires InSegment(db, fs) && top.cont == Top(fs).cont && FrameOk(db, top)
    requires FrameOk(db, inner) && !db[inner.cont].kind.Seg?
    ensures InSegment(db, WithTop(fs, top)) && InSegment(db, WithTop(fs, top) + [inner])
    ensures Va(db, WithTop(fs, top) + [inner]) == Va(db, fs) - Top(fs).Addrx() + top.Addrx() + Offset(db, inner)
    ensures var r := WithTop(fs, top) + [inner];
            |r| == |fs| + 1 && r[..|fs| - 1] == Below(fs) && r[|fs| - 1] == top && Top(r) == inner
  {
    VaBelow(db, fs, top);
    assert Below(WithTop(fs, top) + [inner]) == WithTop(fs, top);
  }

  /** A structure is behind a container or a wrapper. */
  lemma DirectKind(db: Db, t: TypeId)
    requires Closed(db) && Acyclic(db) && t in db && HasStruc(db, t)
    ensures db[t].kind.StrucLike() || db[t].kind.Wrapper()
    ensures db[Typex(db, t)].kind.StrucLike() || db[Typex(db, t)].kind.Wrapper()
    ensures db[t].kind.Seg? || db[Typex(db, t)].kind.Seg? ==> db[Direct(db, t)].kind.Seg?
  {}

  lemma StrucFrameOk(db: Db, top: Frame, f: Field, t: TypeId, over: nat)
    requires LocusOk(db) && FrameOk(db, top) && t in db && HasStruc(db, t) && !db[Direct(db, t)].kind.Seg?
    requires db[Direct(db, top.cont)].base <= f.key && Rank(db, t) < Rank(db, top.cont)
    ensures var r := StrucFrame(db, top, f, t, over);
            && FrameOk(db, r) && !db[r.cont].kind.Seg? && Rank(db, r.cont) < Rank(db, top.cont)
            && Offset(db, r) == over
            && r.block == top.block.Subspace(f.key - db[Direct(db, top.cont)].base, SpanOf(db, t))
  {
    hide Closed, Acyclic, SpanOf;
    Knows(db);
    DirectKind(db, t);
  }

  lemma ElemFrameOk(db: Db, top: Frame, f: Field, e: TypeId, skip: nat, rest: nat)
    requires LocusOk(db) && FrameOk(db, top) && e in db && HasStruc(db, e) && !db[Direct(db, e)].kind.Seg?
    requires db[Direct(db, top.cont)].base <= f.key && Rank(db, e) < Rank(db, top.cont)
    ensures var r := ElemFrame(db, top, f, e, skip, rest);
            && FrameOk(db, r) && !db[r.cont].kind.Seg? && Rank(db, r.cont) < Rank(db, top.cont)
            && Offset(db, r) == rest
            && r.block == top.block.Subspace(f.key - db[Direct(db, top.cont)].base + skip, ElemSize(db, e))
  {
    hide Closed, Acyclic, ElemSize;
    Knows(db);
    DirectKind(db, e);
  }

  /** A field that is picked keeps the frame above its container's base. */
  lemma HitOk(db: Db, top: Frame, f: Field, extra: nat)
    requires LocusOk(db) && FrameOk(db, top) && Pick(db, top) == Some(f) && f.typ.Some?
    ensures var (top2, over) := top.SetField2(f);
            && over == top.Addrx() - f.key >= 0 && FrameOk(db, top2.(extra := extra))
            && db[Direct(db, top.cont)].base <= f.key
  {
    hide Closed, Acyclic, FieldAtOrBelow;
    Knows(db);
    var t := KnownType(db, top.cont, f);
  }

  /** One step: still in the segment, the outer frames untouched, and strictly smaller
      containers further down. */
  lemma StepShape(db: Db, fs: seq<Frame>)
    requires LocusOk(db) && InSegment(db, fs)
    ensures var r := StepDown(db, fs);
            && InSegment(db, r.frames)
            && |r.frames| == |fs| + (if r.more then 1 else 0)
            && r.frames[..|fs| - 1] == Below(fs)
            && r.frames[|fs| - 1].cont == Top(fs).cont
            && (r.more ==> Rank(db, Top(r.frames).cont) < Rank(db, Top(fs).cont))
  {
    hide LocusOk, Closed, Acyclic, Underlaps, FieldAtOrBelow, StrucFrame, ElemFrame, ElemSize, HasStruc, Pick;
    hide FrameOk, InSegment, WithTop, Va;
    Knows(db);
    FramesOk(db, fs);
    var top := Top(fs);
    if Pick(db, top).Some? {
      var f := Pick(db, top).value;
      if Stays(db, top) {
        MarkedOk(db, top, f);
        VaBelow(db, fs, Marked(top, f));
      } else {
        var t := KnownType(db, top.cont, f);
        var (top2, over) := top.SetField2(f);
        HitOk(db, top, f, 0);
        if HasStruc(db, t) {
          StrucFrameOk(db, top2, f, t, over);
          Pushed(db, fs, top2, StrucFrame(db, top2, f, t, over));
        } else if db[Direct(db, t)].kind.Array? {
          var e := ElemOf(db, t);
          var skip := ElemStart(over, ElemSize(db, e));
          HitOk(db, top, f, skip);
          VaBelow(db, fs, top2.(extra := skip));
          if HasStruc(db, e) {
            ElemFrameOk(db, top2.(extra := skip), f, e, skip, over - skip);
            Pushed(db, fs, top2.(extra := skip), ElemFrame(db, top2.(extra := skip), f, e, skip, over - skip));
          }
        } else {
          HitOk(db, top, f, over);
          VaBelow(db, fs, top2.(extra := over));
        }
      }
    }
  }

  lemma MarkedOk(db: Db, top: Frame, f: Field)
    requires FrameOk(db, top)
    ensures FrameOk(db, Marked(top, f))
  {}

  /** One step keeps the virtual address, except for the position inside an element of an array
      of scalars. */
  lemma StepKeepsVa(db: Db, fs: seq<Frame>)
    requires LocusOk(db) && InSegment(db, fs)
    ensures var r := StepDown(db, fs);
            && InSegment(db, r.frames)
            && (r.more ==> Va(db, r.frames) == Va(db, fs))
            && (!r.more ==>
                  || Va(db, r.frames) == Va(db, fs)
                  || RoundedDown(db, Top(r.frames), Va(db, fs), Va(db, r.frames)))
  {
    hide LocusOk, Closed, Acyclic, Underlaps, FieldAtOrBelow, StrucFrame, ElemFrame, ElemSize, HasStruc, Pick;
    hide FrameOk, InSegment, WithTop, Below, Va;
    Knows(db);
    FramesOk(db, fs);
    StepShape(db, fs);
    var top := Top(fs);
    var found := Pick(db, top);
    if found.Some? {
      var f := found.value;
      if Stays(db, top) {
        VaBelow(db, fs, Marked(top, f));
      } else {
        var t := KnownType(db, top.cont, f);
        var (top2, over) := top.SetField2(f);
        HitOk(db, top, f, 0);
        if HasStruc(db, t) {
          StrucFrameOk(db, top2, f, t, over);
          Pushed(db, fs, top2, StrucFrame(db, top2, f, t, over));
        } else if db[Direct(db, t)].kind.Array? {
          var e := ElemOf(db, t);
          var skip := ElemStart(over, ElemSize(db, e));
          var top3 := top2.(extra := skip);
          HitOk(db, top, f, skip);
          VaBelow(db, fs, top3);
          if HasStruc(db, e) {
            ElemFrameOk(db, top3, f, e, skip, over - skip);
            Pushed(db, fs, top3, ElemFrame(db, top3, f, e, skip, over - skip));
          }
        } else {
          VaBelow(db, fs, top2.(extra := over));
        }
      }
    }
  }

  /** The container entered is the one behind the field picked. */
  lemma StepLeads(db: Db, fs: seq<Frame>)
    requires LocusOk(db) && InSegment(db, fs)
    ensures var r := StepDown(db, fs);
            |r.frames| >= |fs| && (r.more ==> |r.frames| == |fs| + 1 && LeadsTo(db, r.frames[|fs| - 1], r.frames[|fs|]))
  {
    var top := Top(fs);
    if Pick(db, top).Some? && !Stays(db, top) {
      var t := KnownType(db, top.cont, Pick(db, top).value);
      assert Inner(db, t) in db;
    }
  }

  // ------------------------------------------------------------------ the raw side

  /** The top frame's block starts where its container starts in the raw file. */
  ghost predicate Aligned(db: Db, fs: seq<Frame>)
    requires InSegment(db, fs)
  {
    var seg := db[fs[0].cont];
    !Top(fs).block.Empty() ==>
      Top(fs).block.offs + Offset(db, Top(fs)) == seg.kind.rawOffs + Va(db, fs) - seg.base
  }

  /** The top frame's block reaches the position. */
  ghost predicate Backed(db: Db, fs: seq<Frame>)
    requires InSegment(db, fs)
  {
    Offset(db, Top(fs)) < Top(fs).block.size
  }

  lemma TopReplaced(db: Db, fs: seq<Frame>, top: Frame)
    requires InSegment(db, fs) && Aligned(db, fs) && Backed(db, fs)
    requires top.cont == Top(fs).cont && top.block == Top(fs).block && FrameOk(db, top)
    requires top.Addrx() <= Top(fs).Addrx()
    ensures InSegment(db, WithTop(fs, top)) && Aligned(db, WithTop(fs, top)) && Backed(db, WithTop(fs, top))
  {
    VaBelow(db, fs, top);
  }

  lemma BlockPushed(db: Db, fs: seq<Frame>, top: Frame, inner: Frame, doffs: nat, dsize: int)
    requires InSegment(db, fs) && Aligned(db, fs) && Backed(db, fs)
    requires top.cont == Top(fs).cont && top.block == Top(fs).block && FrameOk(db, top)
    requires FrameOk(db, inner) && !db[inner.cont].kind.Seg?
    requires inner.block == top.block.Subspace(doffs, dsize)
    requires top.Addrx() + Offset(db, inner) == Top(fs).Addrx()
    requires doffs == Offset(db, top)
    requires 0 <= Offset(db, inner) && (dsize >= 0 ==> Offset(db, inner) < dsize) && dsize >= -1
    ensures var r := WithTop(fs, top) + [inner];
            InSegment(db, r) && Aligned(db, r) && Backed(db, r)
  {
    Pushed(db, fs, top, inner);
  }

  /** With wrapped types at base zero a frame counts from where its fields do. */
  lemma OwnerBase(db: Db, c: TypeId)
    requires Closed(db) && Acyclic(db) && WrapsAtZero(db) && c in db
    requires db[c].kind.StrucLike() || db[c].kind.Wrapper()
    ensures BaseOf(db, c) == db[Direct(db, c)].base
  {}

  lemma RawIntoStruc(db: Db, fs: seq<Frame>, f: Field, t: TypeId)
    requires LocusOk(db) && WrapsAtZero(db) && InSegment(db, fs) && Aligned(db, fs) && Backed(db, fs)
    requires Pick(db, Top(fs)) == Some(f) && f.typ == Some(t) && t in db && !Stays(db, Top(fs)) && HasStruc(db, t)
    ensures var (top2, over) := Top(fs).SetField2(f);
            db[Direct(db, Top(fs).cont)].base <= f.key &&
            var r := WithTop(fs, top2) + [StrucFrame(db, top2, f, t, over)];
            InSegment(db, r) && Aligned(db, r) && Backed(db, r)
  {
    hide LocusOk, Closed, Acyclic, FieldAtOrBelow, WrapsAtZero, Aligned, Backed, StrucFrame, HasStruc, SpanOf, Pick;
    Knows(db);
    var top := Top(fs);
    var (top2, over) := top.SetField2(f);
    assert KnownType(db, top.cont, f) == t;
    HitOk(db, top, f, 0);
    StrucFrameOk(db, top2, f, t, over);
    OwnerBase(db, top.cont);
    CoversPosition(db, top, f);
    SpanAtLeastOpen(db, t);
    BlockPushed(db, fs, top2, StrucFrame(db, top2, f, t, over), f.key - BaseOf(db, top2.cont), SpanOf(db, t));
  }

  lemma SpanAtLeastOpen(db: Db, t: TypeId)
    requires LocusOk(db) && t in db && !db[Direct(db, t)].kind.Seg?
    ensures SpanOf(db, t) == -1 || SpanOf(db, t) > 0
  {
    SizeAtLeastOpen(db, t);
  }

  lemma RawIntoElem(db: Db, fs: seq<Frame>, f: Field, e: TypeId)
    requires LocusOk(db) && WrapsAtZero(db) && InSegment(db, fs) && Aligned(db, fs) && Backed(db, fs)
    requires Pick(db, Top(fs)) == Some(f) && f.typ.Some? && e in db && HasStruc(db, e)
    requires !db[Direct(db, e)].kind.Seg? && Rank(db, e) < Rank(db, Top(fs).cont)
    ensures var (top2, over) := Top(fs).SetField2(f);
            db[Direct(db, Top(fs).cont)].base <= f.key &&
            var top3 := top2.(extra := ElemStart(over, ElemSize(db, e)));
            var r := WithTop(fs, top3) + [ElemFrame(db, top3, f, e, top3.extra, over - top3.extra)];
            InSegment(db, r) && Aligned(db, r) && Backed(db, r)
  {
    hide LocusOk, Closed, Acyclic, FieldAtOrBelow, WrapsAtZero, Aligned, Backed, ElemSize, ElemFrame, HasStruc, Pick;
    Knows(db);
    var top := Top(fs);
    var (top2, over) := top.SetField2(f);
    var sz := ElemSize(db, e);
    var skip := ElemStart(over, sz);
    var top3 := top2.(extra := skip);
    HitOk(db, top, f, skip);
    ElemFrameOk(db, top3, f, e, skip, over - skip);
    OwnerBase(db, top.cont);
    BlockPushed(db, fs, top3, ElemFrame(db, top3, f, e, skip, over - skip),
                f.key - BaseOf(db, top3.cont) + skip, sz);
  }

  /** One step keeps block and position together, and a position backed by raw bytes stays
      backed. */
  lemma StepKeepsRaw(db: Db, fs: seq<Frame>)
    requires LocusOk(db) && WrapsAtZero(db) && InSegment(db, fs) && Aligned(db, fs) && Backed(db, fs)
    ensures var r := StepDown(db, fs).frames;
            InSegment(db, r) && Aligned(db, r) && Backed(db, r)
  {
    hide LocusOk, WrapsAtZero, Closed, Acyclic, Underlaps, FieldAtOrBelow, StrucFrame, ElemFrame, ElemSize, HasStruc;
    hide Aligned, Backed, Pick;
    Knows(db);
    var top := Top(fs);
    var found := Pick(db, top);
    if found.Some? {
      var f := found.value;
      if Stays(db, top) {
        TopReplaced(db, fs, Marked(top, f));
      } else {
        var t := KnownType(db, top.cont, f);
        var (top2, over) := top.SetField2(f);
        HitOk(db, top, f, over);
        if HasStruc(db, t) {
          RawIntoStruc(db, fs, f, t);
        } else if db[Direct(db, t)].kind.Array? {
          var e := ElemOf(db, t);
          if HasStruc(db, e) {
            RawIntoElem(db, fs, f, e);
          } else {
            HitOk(db, top, f, ElemStart(over, ElemSize(db, e)));
            TopReplaced(db, fs, top2.(extra := ElemStart(over, ElemSize(db, e))));
          }
        } else {
          TopReplaced(db, fs, top2.(extra := over));
        }
      }
    }
  }

  // ------------------------------------------------------------------ the whole descent

  /** `terminalFieldAt`: steps until there is nothing below. */
  function Descend(db: Db, fs: seq<Frame>): seq<Frame>
    requires LocusOk(db) && InSegment(db, fs)
    decreases Rank(db, Top(fs).cont)
  {
    var r := StepDown(db, fs);
    StepShape(db, fs);
    if r.more then Descend(db, r.frames) else r.frames
  }

  /** The descent only adds frames below the one it starts from. */
  lemma {:induction false} DescentShape(db: Db, fs: seq<Frame>)
    requires LocusOk(db) && InSegment(db, fs)
    ensures var out := Descend(db, fs);
            && InSegment(db, out)
            && |out| >= |fs| && out[..|fs| - 1] == Below(fs)
            && out[|fs| - 1].cont == Top(fs).cont
    decreases Rank(db, Top(fs).cont)
  {
    hide StepDown, LocusOk, FrameOk;
    var r := StepDown(db, fs);
    StepShape(db, fs);
    if r.more {
      DescentShape(db, r.frames);
      var out := Descend(db, r.frames);
      assert out[..|fs|] == r.frames[..|fs|];
      assert out[|fs| - 1] == out[..|fs|][|fs| - 1];
      assert out[..|fs| - 1] == out[..|fs|][..|fs| - 1];
    }
  }

  /** The descent keeps the virtual address, except that a hit inside an array of scalars is
      rounded down to the start of its element. */
  lemma {:induction false} DescentKeepsVa(db: Db, fs: seq<Frame>)
    requires LocusOk(db) && InSegment(db, fs)
    ensures var out := Descend(db, fs);
            && InSegment(db, out)
            && (Va(db, out) == Va(db, fs) || RoundedDown(db, Top(out), Va(db, fs), Va(db, out)))
    decreases Rank(db, Top(fs).cont)
  {
    hide StepDown, LocusOk, FrameOk;
    var r := StepDown(db, fs);
    StepShape(db, fs);
    StepKeepsVa(db, fs);
    if r.more {
      DescentKeepsVa(db, r.frames);
    }
  }

  lemma {:induction false} DescentKeepsRaw(db: Db, fs: seq<Frame>)
    requires LocusOk(db) && WrapsAtZero(db) && InSegment(db, fs) && Aligned(db, fs) && Backed(db, fs)
    ensures var out := Descend(db, fs);
            InSegment(db, out) && Aligned(db, out) && Backed(db, out)
    decreases Rank(db, Top(fs).cont)
  {
    hide StepDown, LocusOk, FrameOk;
    var r := StepDown(db, fs);
    StepShape(db, fs);
    StepKeepsRaw(db, fs);
    if r.more {
      DescentKeepsRaw(db, r.frames);
    }
  }

  /** Every container the descent enters is the one behind the field picked above it. */
  lemma {:induction false} DescentIsLinked(db: Db, fs: seq<Frame>)
    requires LocusOk(db) && InSegment(db, fs)
    ensures var out := Descend(db, fs);
            |out| >= |fs| && forall k :: |fs| - 1 <= k < |out| - 1 ==> LeadsTo(db, out[k], out[k + 1])
    decreases Rank(db, Top(fs).cont)
  {
    hide StepDown, LocusOk, FrameOk;
    var r := StepDown(db, fs);
    StepShape(db, fs);
    StepLeads(db, fs);
    DescentShape(db, fs);
    if r.more {
      DescentIsLinked(db, r.frames);
      DescentShape(db, r.frames);
      var out := Descend(db, r.frames);
      assert out[..|fs|] == r.frames[..|fs|];
      assert out[|fs| - 1] == out[..|fs|][|fs| - 1];
    }
  }

  /** A frame on an address of a segment. */
  function SegFrame(db: Db, seg: TypeId, addr: int): Frame
    requires seg in db && db[seg].kind.Seg?
  {
    Frame(Block(db[seg].kind.rawOffs, db[seg].kind.rawSize), seg, addr, 0, None)
  }

  /** From an address of a segment with raw bytes behind it, the innermost frame's own raw
      offset is the locus's raw offset, and both are the segment's raw offset plus the distance
      of the (possibly rounded) address from the segment's base. */
  lemma RawOffsetsAgree(db: Db, seg: TypeId, addr: int)
    requires LocusOk(db) && WrapsAtZero(db) && seg in db && db[seg].kind.Seg? && db[seg].kind.rawSize < OFF_LIMIT
    requires db[seg].base <= addr < db[seg].base + db[seg].kind.rawSize
    ensures var out := Descend(db, [SegFrame(db, seg, addr)]);
            && InSegment(db, out)
            && RawOff(db, Top(out)) == Ra(db, out, 0)
            && Ra(db, out, 0) == Some(db[seg].kind.rawOffs + Va(db, out) - db[seg].base)
  {
    hide LocusOk, StepDown;
    var fs := [SegFrame(db, seg, addr)];
    DescentShape(db, fs);
    DescentKeepsVa(db, fs);
    DescentKeepsRaw(db, fs);
    RaIsVa(db, Descend(db, fs), 0);
  }

  // ------------------------------------------------------------------ where the descent ends

  /** The field picked is one of those nearest to the address from below, and the first of them. */
  lemma PickIsNearest(db: Db, top: Frame)
    requires Closed(db) && Acyclic(db) && top.cont in db && Sorted(FieldsOf(db, top.cont))
    ensures var m, found := FieldsOf(db, top.cont), Pick(db, top);
            && (found.None? <==> forall g :: g in m ==> g.key > top.addr)
            && (found.Some? ==>
                  && (forall g :: g in m && g.key <= top.addr ==> g.key <= found.value.key)
                  && exists i :: 0 <= i < |m| && m[i] == found.value
                                 && forall j :: 0 <= j < i ==> m[j].key < found.value.key)
  {
    var m := FieldsOf(db, top.cont);
    var u := UpperBound(m, top.addr);
    if u == 0 {
      forall g | g in m ensures g.key > top.addr {
        var i :| 0 <= i < |m| && m[i] == g;
      }
    } else {
      var k := LowerBound(m, m[u - 1].key);
      forall g | g in m && g.key <= top.addr ensures g.key <= m[u - 1].key {
        var i :| 0 <= i < |m| && m[i] == g;
        assert i < u;
      }
      assert m[k].key == m[u - 1].key;
    }
  }

  /** The frame stands on a field that covers its position and leads no further down. */
  ghost predicate OnTerminalField(db: Db, fr: Frame)
    requires LocusOk(db)
  {
    && fr.cont in db && fr.field.Some? && fr.field.value in FieldsOf(db, fr.cont) && fr.field.value.typ.Some?
    && (var t := KnownType(db, fr.cont, fr.field.value);
        && fr.addr == fr.field.value.key
        && fr.Addrx() >= fr.addr && (SpanOf(db, t) > 0 ==> fr.Addrx() < fr.addr + SpanOf(db, t))
        && !HasStruc(db, Inner(db, t)))
  }

  /** Nothing further down: no typed field is near enough below, or the one that is there covers
      the position and is not a structure, nor an array of structures. */
  ghost predicate Terminal(db: Db, fr: Frame)
    requires LocusOk(db)
  {
    FrameOk(db, fr) && (Stays(db, fr) || OnTerminalField(db, fr))
  }

  lemma StepIsTerminal(db: Db, fs: seq<Frame>)
    requires LocusOk(db) && InSegment(db, fs)
    ensures var r := StepDown(db, fs);
            InSegment(db, r.frames) && (!r.more ==> Terminal(db, Top(r.frames)))
  {
    hide Closed, Acyclic, FieldAtOrBelow, LocusOk, SpanOf;
    Knows(db);
    StepShape(db, fs);
    var top := Top(fs);
    var found := Pick(db, top);
    if found.Some? {
      var f := found.value;
      if Stays(db, top) {
        MarkedStays(db, top, f);
      } else {
        CoversPosition(db, top, f);
      }
    }
  }

  lemma MarkedStays(db: Db, top: Frame, f: Field)
    requires LocusOk(db) && FrameOk(db, top) && Stays(db, top)
    ensures FrameOk(db, Marked(top, f)) && Stays(db, Marked(top, f))
  {
    hide LocusOk, Underlaps, FieldAtOrBelow;
  }

  lemma CoversPosition(db: Db, top: Frame, f: Field)
    requires LocusOk(db) && FrameOk(db, top) && Pick(db, top) == Some(f) && !Stays(db, top)
    ensures f.typ.Some? && f.key <= top.Addrx()
    ensures var t := KnownType(db, top.cont, f);
            SpanOf(db, t) > 0 ==> top.Addrx() < f.key + SpanOf(db, t)
  {
    hide LocusOk, SpanOf, FieldAtOrBelow;
  }

  /** The descent ends where nothing lies further down. */
  lemma {:induction false} DescentIsTerminal(db: Db, fs: seq<Frame>)
    requires LocusOk(db) && InSegment(db, fs)
    ensures Descend(db, fs) != [] && Terminal(db, Top(Descend(db, fs)))
    decreases Rank(db, Top(fs).cont)
  {
    hide StepDown, LocusOk, FrameOk, Terminal;
    DescentShape(db, fs);
    var r := StepDown(db, fs);
    StepShape(db, fs);
    StepIsTerminal(db, fs);
    if r.more {
      DescentIsTerminal(db, r.frames);
    }
  }
}
