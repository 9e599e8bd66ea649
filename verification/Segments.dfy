/** Creating segments inside segments, and the walk from a virtual address to a raw offset over
    what was created. */
module Segments {
  import opened Wrappers

  type SegId = nat

  const OPEN_SIZE: nat := 0xFFFF_FFFF

  /** A piece of the raw file. */
  datatype Raw = Raw(offs: int, size: int)

  /** How a segment hangs in its super-segment: the address of attachment, and the size of the
      trace it left there, if any. */
  datatype Link = Link(super: SegId, at: int, trace: Option<int>)

  /** The module is the one segment without a link. */
  datatype SegInfo = SegInfo(base: int, raw: Raw, link: Option<Link>, subs: seq<SegId>)

  /** Segments are numbered in the order of their creation; number 0 is the module. */
  type Segs = seq<SegInfo>

  function NewModule(fileSize: nat): Segs {
    [SegInfo(0, Raw(0, fileSize), None, [])]
  }

  // ------------------------------------------------------------------ creation

  /** Truncation to a 32-bit address. */
  function Wrap(x: int): int { x % ADDR_LIMIT }

  /** Offset of an address in the super-segment, as a 32-bit number. */
  function SegOffs(s: SegInfo, at: int): int { Wrap(at - s.base) }

  /** Refused: a size is asked for at an offset outside the super-segment's raw block. */
  predicate OutsideRaw(s: SegInfo, at: int, size: int) {
    SegOffs(s, at) >= s.raw.size && size > 0
  }

  /** The size after trimming to the super-segment's raw block; an open size is not trimmed. */
  function Trimmed(s: SegInfo, at: int, size: int): int {
    var o := SegOffs(s, at);
    if size != OPEN_SIZE && Wrap(o + size) > s.raw.size then Wrap(s.raw.size - o) else size
  }

  /** The trace left in the super-segment: an open one is an empty structure. */
  function TraceOf(size: int): Option<int> {
    if size == 0 then None else if size == OPEN_SIZE then Some(0) else Some(size)
  }

  /** Position of a new subsegment: before the first that starts behind it. */
  function SubPos(g: Segs, subs: seq<SegId>, at: int, i: nat): (r: nat)
    requires i <= |subs|
    ensures i <= r <= |subs|
    decreases |subs| - i
  {
    if i == |subs| || at < AtOf(g, subs[i]) then i
    else SubPos(g, subs, at, i + 1)
  }

  function WithSub(g: Segs, s: SegId, at: int, x: SegId): seq<SegId>
    requires s < |g|
  {
    var subs := g[s].subs;
    var p := SubPos(g, subs, at, 0);
    subs[..p] + [x] + subs[p..]
  }

  function NewSegment(g: Segs, s: SegId, at: int, size: int): SegInfo
    requires s < |g|
  {
    var sz := Trimmed(g[s], at, size);
    SegInfo(0, Raw(Wrap(Wrap(g[s].raw.offs) + SegOffs(g[s], at)), sz), Some(Link(s, at, TraceOf(sz))), [])
  }

  /** `harboured` tells whether the super-segment's fields let the trace in. */
  predicate Makes(g: Segs, s: SegId, at: int, size: int, harboured: bool)
    requires s < |g|
  {
    !OutsideRaw(g[s], at, size) && (Trimmed(g[s], at, size) > 0 ==> harboured)
  }

  /** The segments after `MakeSegment`. */
  function Made(g: Segs, s: SegId, at: int, size: int, harboured: bool): Segs
    requires s < |g|
  {
    if Makes(g, s, at, size, harboured)
    then g[s := g[s].(subs := WithSub(g, s, at, |g|))] + [NewSegment(g, s, at, size)]
    else g
  }

  /** A segment is given its virtual base. */
  function Placed(g: Segs, x: SegId, base: int): Segs
    requires x < |g|
  {
    g[x := g[x].(base := base)]
  }

  // ------------------------------------------------------------------ what runs keep

  /** Segment `x` hangs properly in its super-segment: its raw block is the part of the
      super-segment's block behind its trace. */
  predicate LinkOk(g: Segs, x: SegId)
    requires 0 < x < |g|
  {
    && g[x].link.Some? && g[x].link.value.super < x
    && (var s := g[g[x].link.value.super];
        var off := g[x].link.value.at - s.base;
        && 0 <= off && 0 <= g[x].raw.size && off + g[x].raw.size <= s.raw.size
        && g[x].raw.offs == s.raw.offs + off
        && g[x].link.value.trace == if g[x].raw.size == 0 then None else Some(g[x].raw.size))
  }

  predicate HangsIn(g: Segs, x: SegId, s: SegId) {
    x < |g| && g[x].link.Some? && g[x].link.value.super == s
  }

  /** Address at which a segment hangs in its super-segment. */
  function AtOf(g: Segs, x: SegId): int {
    if x < |g| && g[x].link.Some? then g[x].link.value.at else 0
  }

  ghost predicate Ordered(g: Segs, subs: seq<SegId>) {
    forall i, j :: 0 <= i < j < |subs| ==> AtOf(g, subs[i]) <= AtOf(g, subs[j]) && subs[i] != subs[j]
  }

  /** The subsegments of `s` are those that hang in it, each once, in the order of their
      addresses. */
  ghost predicate SubsOk(g: Segs, s: SegId)
    requires s < |g|
  {
    && (forall x :: x in g[s].subs <==> HangsIn(g, x, s))
    && Ordered(g, g[s].subs)
  }

  ghost predicate Inv(g: Segs, fileSize: nat) {
    && g != [] && g[0].base == 0 && g[0].raw == Raw(0, fileSize) && g[0].link.None? && fileSize < OPEN_SIZE
    && (forall x {:trigger g[x]} :: 0 <= x < |g| ==> 0 <= g[x].base < ADDR_LIMIT)
    && (forall x {:trigger LinkOk(g, x)} :: 0 < x < |g| ==> LinkOk(g, x))
    && (forall s {:trigger SubsOk(g, s)} :: 0 <= s < |g| ==> SubsOk(g, s))
  }

  /** Arguments for which the new raw block stays inside the super-segment's: the address is not
      below the base; a size is not open and does not wrap past the end of the address space
      into the block; no size is asked for only inside the block or at its end. */
  predicate Sane(s: SegInfo, at: int, size: int) {
    var o := at - s.base;
    && 0 <= o
    && (size == 0 ==> o <= s.raw.size)
    && size != OPEN_SIZE
    && !(o + size >= ADDR_LIMIT && o + size - ADDR_LIMIT <= s.raw.size)
  }

  /** A created segment hangs properly in its super-segment exactly if the arguments are sane. */
  lemma MadeLinkOkIff(g: Segs, fileSize: nat, s: SegId, at: int, size: int)
    requires Inv(g, fileSize) && s < |g| && Makes(g, s, at, size, true)
    requires 0 <= at < ADDR_LIMIT && 0 <= size < ADDR_LIMIT
    ensures LinkOk(Made(g, s, at, size, true), |g|) <==> Sane(g[s], at, size)
  {
    RawNested(g, fileSize, s);
    var o := at - g[s].base;
    if o >= 0 {
      assert Wrap(o) == o;
    } else {
      assert Wrap(o) == o + ADDR_LIMIT;
    }
    var w := SegOffs(g[s], at);
    assert Wrap(w + size) == if w + size >= ADDR_LIMIT then w + size - ADDR_LIMIT else w + size;
    assert Wrap(g[s].raw.size - w) == if w <= g[s].raw.size then g[s].raw.size - w else g[s].raw.size - w + ADDR_LIMIT;
    assert Wrap(g[s].raw.offs) == g[s].raw.offs;
    var t := g[s].raw.offs + w;
    assert Wrap(t) == if t >= ADDR_LIMIT then t - ADDR_LIMIT else t;
  }

  /** Raw blocks lie inside the file. */
  lemma {:induction false} RawNested(g: Segs, fileSize: nat, x: SegId)
    requires Inv(g, fileSize) && x < |g|
    ensures 0 <= g[x].raw.size <= fileSize
    ensures 0 <= g[x].raw.offs && g[x].raw.offs + g[x].raw.size <= fileSize
    decreases x
  {
    if x > 0 {
      assert LinkOk(g, x);
      RawNested(g, fileSize, g[x].link.value.super);
    }
  }

  /** Where a new subsegment goes in the order. */
  lemma {:induction false} SubPosIs(g: Segs, subs: seq<SegId>, at: int, i: nat)
    requires Ordered(g, subs) && i <= |subs|
    requires forall j :: 0 <= j < i ==> AtOf(g, subs[j]) <= at
    ensures var p := SubPos(g, subs, at, i);
            && p <= |subs|
            && (forall j :: 0 <= j < p ==> AtOf(g, subs[j]) <= at)
            && (forall j :: p <= j < |subs| ==> at < AtOf(g, subs[j]))
    decreases |subs| - i
  {
    if i < |subs| && at >= AtOf(g, subs[i]) {
      SubPosIs(g, subs, at, i + 1);
    }
  }

  lemma InsertedOrdered(g: Segs, subs: seq<SegId>, p: nat, x: SegId)
    requires Ordered(g, subs) && p <= |subs| && x !in subs
    requires forall j :: 0 <= j < p ==> AtOf(g, subs[j]) <= AtOf(g, x)
    requires forall j :: p <= j < |subs| ==> AtOf(g, x) < AtOf(g, subs[j])
    ensures Ordered(g, subs[..p] + [x] + subs[p..])
    ensures forall y :: y in subs[..p] + [x] + subs[p..] <==> y in subs || y == x
  {
    hide AtOf;
    var r := subs[..p] + [x] + subs[p..];
    forall i, j | 0 <= i < j < |r| ensures AtOf(g, r[i]) <= AtOf(g, r[j]) && r[i] != r[j] {
      var i', j' := if i < p then i else i - 1, if j < p then j else j - 1;
      assert i != p ==> r[i] == subs[i'];
      assert j != p ==> r[j] == subs[j'];
    }
    assert subs == subs[..p] + subs[p..];
  }

  /** Putting a new segment at its place keeps the subsegments of `s` complete and in order. */
  lemma OwnSubsOk(g: Segs, g': Segs, s: SegId, at: int)
    requires s < |g| && SubsOk(g, s) && |g'| == |g| + 1
    requires forall y :: 0 <= y < |g| ==> g'[y].link == g[y].link
    requires HangsIn(g', |g|, s) && AtOf(g', |g|) == at
    requires g'[s].subs == WithSub(g, s, at, |g|)
    ensures SubsOk(g', s)
  {
    var subs := g[s].subs;
    forall y | y in subs ensures AtOf(g', y) == AtOf(g, y) {}
    SubPosIs(g, subs, at, 0);
    InsertedOrdered(g', subs, SubPos(g, subs, at, 0), |g|);
  }

  lemma MadeSubsOk(g: Segs, fileSize: nat, s: SegId, at: int, size: int, x: SegId)
    requires Inv(g, fileSize) && s < |g| && Makes(g, s, at, size, true) && x <= |g|
    ensures SubsOk(Made(g, s, at, size, true), x)
  {
    var g' := Made(g, s, at, size, true);
    assert g'[|g|] == NewSegment(g, s, at, size);
    NewSegmentLink(g, s, at, size);
    hide NewSegment, WithSub, Trimmed, OutsideRaw, Ordered;
    if x < |g| { assert SubsOk(g, x); }
    if x == s {
      hide Inv, SubsOk;
      OwnSubsOk(g, g', s, at);
    } else if x < |g| {
      hide Inv;
      SameSubsOk(g, g', x);
    } else {
      hide SubsOk;
      forall y | 0 <= y < |g'| && g'[y].link.Some? ensures g'[y].link.value.super < |g| {
        if 0 < y < |g| { assert LinkOk(g, y); }
      }
      NoSubs(g', x);
    }
  }

  lemma SameSubsOk(g: Segs, g': Segs, x: SegId)
    requires x < |g| && SubsOk(g, x) && |g'| == |g| + 1 && g'[x].subs == g[x].subs
    requires forall y :: 0 <= y < |g| ==> g'[y].link == g[y].link
    requires !HangsIn(g', |g|, x)
    ensures SubsOk(g', x)
  {
    forall y ensures HangsIn(g', y, x) == HangsIn(g, y, x) {}
    forall y | y in g[x].subs ensures AtOf(g', y) == AtOf(g, y) {}
  }

  lemma NoSubs(g: Segs, x: SegId)
    requires x < |g| && g[x].subs == []
    requires forall y :: 0 <= y < |g| && g[y].link.Some? ==> g[y].link.value.super < x
    ensures SubsOk(g, x)
  {}

  lemma NewSegmentLink(g: Segs, s: SegId, at: int, size: int)
    requires s < |g|
    ensures var n := NewSegment(g, s, at, size);
            n.link.Some? && n.link.value.super == s && n.link.value.at == at && n.subs == [] && n.base == 0
  {}

  /** Creation with sane arguments, accepted or not, keeps the invariant. */
  lemma MadeKeepsInv(g: Segs, fileSize: nat, s: SegId, at: int, size: int, harboured: bool)
    requires Inv(g, fileSize) && s < |g| && 0 <= at < ADDR_LIMIT && 0 <= size < ADDR_LIMIT
    requires Makes(g, s, at, size, harboured) ==> Sane(g[s], at, size)
    ensures Inv(Made(g, s, at, size, harboured), fileSize)
  {
    if Makes(g, s, at, size, harboured) {
      hide Sane, NewSegment, WithSub, SubsOk;
      MadeLinkOkIff(g, fileSize, s, at, size);
      NewSegmentLink(g, s, at, size);
      var g' := Made(g, s, at, size, harboured);
      forall x | 0 < x < |g'| ensures LinkOk(g', x) {
        if x < |g| { assert LinkOk(g, x); }
      }
      forall x | 0 <= x < |g'| ensures SubsOk(g', x) {
        MadeSubsOk(g, fileSize, s, at, size, x);
      }
    }
  }

  /** So does placing a segment that has no subsegments yet. */
  lemma PlacedKeepsInv(g: Segs, fileSize: nat, x: SegId, base: int)
    requires Inv(g, fileSize) && 0 < x < |g| && g[x].subs == [] && 0 <= base < ADDR_LIMIT
    ensures Inv(Placed(g, x, base), fileSize)
  {
    var g' := Placed(g, x, base);
    assert SubsOk(g, x);
    forall y | 0 < y < |g'| ensures LinkOk(g', y) {
      assert LinkOk(g, y);
      assert g'[y].link == g[y].link && g'[y].raw == g[y].raw;
      assert !HangsIn(g, y, x);
    }
    forall y | 0 <= y < |g'| ensures SubsOk(g', y) {
      assert SubsOk(g, y);
    }
  }

  // ------------------------------------------------------------------ virtual address to raw offset

  /** `VA2FP`: up through the traces to the module, whose addresses are raw offsets. */
  function Walk(g: Segs, x: SegId, a: int): Option<int>
    requires x < |g|
    decreases x
  {
    match g[x].link
    case None => if 0 <= a < g[x].raw.size then Some(a) else None
    case Some(l) =>
      var a2 := a - g[x].base;
      var span := if l.trace.Some? then l.trace.value else g[x].raw.size;
      if a2 < 0 || a2 > span || l.trace.None? || l.super >= x then None
      else Walk(g, l.super, a2 + l.at)
  }

  /** The walk gives the cached raw offset plus the distance from the base, for the addresses of
      the trace, and for the one behind it while that is still inside the file. */
  lemma {:induction false} WalkIsCached(g: Segs, fileSize: nat, x: SegId, a: int)
    requires Inv(g, fileSize) && x < |g|
    ensures Walk(g, x, a) ==
            (var o := a - g[x].base;
             if 0 <= o <= g[x].raw.size && (x > 0 ==> g[x].raw.size > 0) && g[x].raw.offs + o < fileSize
             then Some(g[x].raw.offs + o) else None)
    decreases x
  {
    if x > 0 {
      assert LinkOk(g, x);
      var l := g[x].link.value;
      if l.super > 0 { assert LinkOk(g, l.super); }
      WalkIsCached(g, fileSize, l.super, a - g[x].base + l.at);
    }
  }

  // ------------------------------------------------------------------ runs

  datatype Op =
    | Make(s: SegId, at: int, size: int, harboured: bool)
    | Place(x: SegId, base: int)

  /** Creation takes 32-bit arguments, sane ones unless it is refused anyway; a base is fixed
      once there are subsegments. */
  predicate CanDo(g: Segs, op: Op) {
    match op
    case Make(s, at, size, harboured) =>
      && s < |g| && 0 <= at < ADDR_LIMIT && 0 <= size < ADDR_LIMIT
      && (Makes(g, s, at, size, harboured) ==> Sane(g[s], at, size))
    case Place(x, base) => 0 < x < |g| && g[x].subs == [] && 0 <= base < ADDR_LIMIT
  }

  function Do(g: Segs, op: Op): Segs
    requires CanDo(g, op)
  {
    match op
    case Make(s, at, size, harboured) => Made(g, s, at, size, harboured)
    case Place(x, base) => Placed(g, x, base)
  }

  ghost predicate IsRun(run: seq<Segs>, ops: seq<Op>) {
    && |run| == |ops| + 1
    && forall i :: 0 <= i < |ops| ==> CanDo(run[i], ops[i]) && run[i + 1] == Do(run[i], ops[i])
  }

  /** After any run from an empty module every segment's raw block lies inside its
      super-segment's, the subsegments are in the order of their addresses, and the walk from
      any address of a segment with contents agrees with its cached raw block. */
  lemma {:induction false} RunsAgree(run: seq<Segs>, ops: seq<Op>, fileSize: nat)
    requires IsRun(run, ops) && run[0] == NewModule(fileSize) && fileSize < OPEN_SIZE
    ensures var g := run[|ops|];
            && Inv(g, fileSize)
            && forall x, a :: 0 <= x < |g| && 0 <= a - g[x].base < g[x].raw.size ==>
                 Walk(g, x, a) == Some(g[x].raw.offs + (a - g[x].base))
  {
    RunKeepsInv(run, ops, fileSize, |ops|);
    var g := run[|ops|];
    forall x, a | 0 <= x < |g| && 0 <= a - g[x].base < g[x].raw.size
      ensures Walk(g, x, a) == Some(g[x].raw.offs + (a - g[x].base))
    {
      RawNested(g, fileSize, x);
      WalkIsCached(g, fileSize, x, a);
    }
  }

  lemma {:induction false} RunKeepsInv(run: seq<Segs>, ops: seq<Op>, fileSize: nat, n: nat)
    requires IsRun(run, ops) && run[0] == NewModule(fileSize) && fileSize < OPEN_SIZE && n <= |ops|
    ensures Inv(run[n], fileSize)
  {
    if n == 0 {
      var g := run[0];
      assert SubsOk(g, 0);
    } else {
      hide Inv, Made, Sane, Makes;
      RunKeepsInv(run, ops, fileSize, n - 1);
      match ops[n - 1] {
        case Make(s, at, size, harboured) => MadeKeepsInv(run[n - 1], fileSize, s, at, size, harboured);
        case Place(x, base) => PlacedKeepsInv(run[n - 1], fileSize, x, base);
      }
    }
  }

  // ------------------------------------------------------------------ the object

  class SegmentTable {
    var segs: Segs

    constructor (fileSize: nat)
      ensures segs == NewModule(fileSize)
    {
      segs := NewModule(fileSize);
    }

    /** Creates a segment at an address of another. */
    method MakeSegment(s: SegId, at: int, size: int, harboured: bool) returns (r: Option<SegId>)
      requires s < |segs| && 0 <= size
      modifies this
      ensures segs == Made(old(segs), s, at, size, harboured)
      ensures r == if Makes(old(segs), s, at, size, harboured) then Some(|old(segs)|) else None
    {
      var main := segs[s];
      var sizeP := size;
      var segOffs := Wrap(at - main.base);
      var fileOffs := Wrap(Wrap(main.raw.offs) + segOffs);
      if !(segOffs < main.raw.size) && sizeP > 0 {
        return None;
      }
      if sizeP != OPEN_SIZE && Wrap(segOffs + sizeP) > main.raw.size {
        sizeP := Wrap(main.raw.size - segOffs);
      }
      var trace := None;
      if sizeP > 0 {
        if !harboured {
          return None;
        }
        trace := Some(if sizeP != OPEN_SIZE then sizeP else 0);
      }
      r := Some(|segs|);
      RegisterSubseg(s, at, |segs|);
      segs := segs + [SegInfo(0, Raw(fileOffs, sizeP), Some(Link(s, at, trace)), [])];
    }

    /** Puts a subsegment into the order of its super-segment. */
    method RegisterSubseg(s: SegId, at: int, x: SegId)
      requires s < |segs|
      modifies this
      ensures segs == old(segs)[s := old(segs)[s].(subs := var p := SubPos(old(segs), old(segs)[s].subs, at, 0);
                                                            old(segs)[s].subs[..p] + [x] + old(segs)[s].subs[p..])]
    {
      var subs := segs[s].subs;
      var i := 0;
      while i < |subs|
        invariant 0 <= i <= |subs|
        invariant SubPos(segs, subs, at, i) == SubPos(segs, subs, at, 0)
        invariant segs == old(segs)
      {
        if at < AtOf(segs, subs[i]) {
          break;
        }
        i := i + 1;
      }
      segs := segs[s := segs[s].(subs := subs[..i] + [x] + subs[i..])];
    }

    /** Walks from a virtual address up to the module. */
    method VA2FP(x: SegId, va: int) returns (r: Option<int>)
      requires x < |segs|
      ensures r == Walk(segs, x, va)
    {
      var c: nat, a := x, va;
      while true
        invariant c < |segs|
        invariant Walk(segs, c, a) == Walk(segs, x, va)
        decreases c
      {
        if segs[c].link.None? {
          return if 0 <= a < segs[c].raw.size then Some(a) else None;
        }
        if a < segs[c].base {
          return None;
        }
        var a2, l := a - segs[c].base, segs[c].link.value;
        if a2 > (if l.trace.Some? then l.trace.value else segs[c].raw.size) {
          return None;
        }
        if l.trace.None? || l.super >= c {
          return None;
        }
        c, a := l.super, a2 + l.at;
      }
      return None;
    }
  }

  /** Arguments that are accepted although the new block is not nested in the super-segment's: an
      open size, no size beyond the end, a sum that wraps around, and an address below the base. */
  lemma InsaneAccepted() returns (g: Segs)
    ensures Inv(g, 16) && |g| == 2 && g[1].base == 12
    ensures forall s, at, size ::
              (s == 0 && ((at == 0 && size == OPEN_SIZE) || (at == 20 && size == 0)
                          || (at == 8 && size == ADDR_LIMIT - 4)))
              || (s == 1 && at == 8 && size == 0) ==>
                Makes(g, s, at, size, true) && !LinkOk(Made(g, s, at, size, true), |g|)
  {
    var m := NewModule(16);
    assert Inv(m, 16) by { assert SubsOk(m, 0); }
    MadeKeepsInv(m, 16, 0, 0, 8, true);
    g := Made(m, 0, 0, 8, true);
    PlacedKeepsInv(g, 16, 1, 12);
    g := Placed(g, 1, 12);
    forall s, at, size |
      (s == 0 && ((at == 0 && size == OPEN_SIZE) || (at == 20 && size == 0) || (at == 8 && size == ADDR_LIMIT - 4)))
      || (s == 1 && at == 8 && size == 0)
      ensures Makes(g, s, at, size, true) && !LinkOk(Made(g, s, at, size, true), |g|)
    {
      MadeLinkOkIff(g, 16, s, at, size);
    }
  }
}
