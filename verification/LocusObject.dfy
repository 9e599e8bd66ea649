/** The locus object: the frame list that the descent extends and the way back shortens, each
    method proved against its specification. */
module LocusObject {
  import opened Wrappers
  import opened FieldMaps
  import opened TypeDb
  import opened LocusDescent

  // ------------------------------------------------------------------ the way back

  /** `stripToSeg`: the inner offsets are added to the address of the frame below, until the
      segment is on top. */
  function Stripped(db: Db, fs: seq<Frame>): (r: seq<Frame>)
    requires forall k :: 0 <= k < |fs| ==> fs[k].cont in db
    ensures |r| <= |fs|
    decreases |fs|
  {
    if fs == [] || db[Top(fs).cont].kind.Seg? then fs
    else Stripped(db, Popped(fs, Offset(db, Top(fs))))
  }

  /** Takes the top frame off and moves the next one on by `off`. */
  function Popped(fs: seq<Frame>, off: int): (r: seq<Frame>)
    requires fs != []
    ensures |r| == |fs| - 1
    ensures forall k :: 0 <= k < |r| ==> r[k].cont == fs[k].cont
  {
    var rest := Below(fs);
    if rest == [] then [] else WithTop(rest, Top(rest).(addr := Top(rest).addr + off))
  }

  /** `reduce`: like one step of the above, but a frame that moves forgets its field. */
  function Reduced(db: Db, fs: seq<Frame>): (r: seq<Frame>)
    requires |fs| > 1 && forall k :: 0 <= k < |fs| ==> fs[k].cont in db
  {
    var o := Offset(db, Top(fs));
    var rest := Below(fs);
    if o > 0 then WithTop(rest, Top(rest).(addr := Top(rest).addr + o, field := None)) else rest
  }

  /** The frame below the top takes over the top's offset. */
  lemma MovedOn(db: Db, fs: seq<Frame>, top: Frame)
    requires InSegment(db, fs) && |fs| > 1 && FrameOk(db, top)
    requires top.cont == Top(Below(fs)).cont && top.Addrx() == Top(Below(fs)).Addrx() + Offset(db, Top(fs))
    ensures InSegment(db, WithTop(Below(fs), top))
    ensures Va(db, WithTop(Below(fs), top)) == Va(db, fs)
  {
    hide FrameOk, Offset;
    BelowInSegment(db, fs);
    VaBelow(db, Below(fs), top);
  }

  lemma BelowInSegment(db: Db, fs: seq<Frame>)
    requires InSegment(db, fs) && |fs| > 1
    ensures InSegment(db, Below(fs)) && FrameOk(db, Top(fs)) && FrameOk(db, Top(Below(fs)))
    ensures Top(fs).cont in db && !db[Top(fs).cont].kind.Seg?
  {}

  lemma PoppedKeepsVa(db: Db, fs: seq<Frame>)
    requires InSegment(db, fs) && |fs| > 1 && Offset(db, Top(fs)) >= 0
    ensures InSegment(db, Popped(fs, Offset(db, Top(fs))))
    ensures Va(db, Popped(fs, Offset(db, Top(fs)))) == Va(db, fs)
  {
    hide Va, Offset;
    var rest := Below(fs);
    MovedOn(db, fs, Top(rest).(addr := Top(rest).addr + Offset(db, Top(fs))));
  }

  /** The way back always ends on the segment's frame, at the locus's virtual address. */
  lemma {:induction false} StrippedIsVa(db: Db, fs: seq<Frame>)
    requires InSegment(db, fs)
    ensures var r := Stripped(db, fs);
            && |r| == 1 && r[0].cont == fs[0].cont && r[0].field == fs[0].field && r[0].extra == fs[0].extra
            && r[0].Addrx() == Va(db, fs)
    decreases |fs|
  {
    if |fs| > 1 {
      PoppedKeepsVa(db, fs);
      StrippedIsVa(db, Popped(fs, Offset(db, Top(fs))));
    } else {
      assert Top(fs) == fs[0];
    }
  }

  lemma ReducedKeepsVa(db: Db, fs: seq<Frame>)
    requires InSegment(db, fs) && |fs| > 1
    ensures InSegment(db, Reduced(db, fs)) && |Reduced(db, fs)| == |fs| - 1
    ensures Va(db, Reduced(db, fs)) == Va(db, fs)
  {
    hide Va, Offset, FrameOk;
    BelowInSegment(db, fs);
    var o, rest := Offset(db, Top(fs)), Below(fs);
    OffsetOk(db, Top(fs));
    if o > 0 {
      FrameMoves(db, Top(rest), o);
      MovedOn(db, fs, Top(rest).(addr := Top(rest).addr + o, field := None));
    } else {
      assert WithTop(rest, Top(rest)) == rest;
      MovedOn(db, fs, Top(rest));
    }
  }

  lemma OffsetOk(db: Db, f: Frame)
    requires FrameOk(db, f)
    ensures Offset(db, f) >= 0
  {}

  lemma FrameMoves(db: Db, f: Frame, o: nat)
    requires FrameOk(db, f)
    ensures FrameOk(db, f.(addr := f.addr + o, field := None))
  {}

  /** Down and back again: from an address of a segment the descent followed by the way back
      returns to the segment, at the address itself or at the start of the scalar array element
      that contains it. */
  lemma DownAndBack(db: Db, seg: TypeId, addr: int)
    requires LocusOk(db) && seg in db && db[seg].kind.Seg? && db[seg].kind.rawSize < OFF_LIMIT && db[seg].base <= addr
    ensures var out := Descend(db, [SegFrame(db, seg, addr)]);
            && InSegment(db, out)
            && |Stripped(db, out)| == 1 && Stripped(db, out)[0].cont == seg
            && (|| Stripped(db, out)[0].Addrx() == addr
                || RoundedDown(db, Top(out), addr, Stripped(db, out)[0].Addrx()))
  {
    hide LocusOk, StepDown;
    var fs := [SegFrame(db, seg, addr)];
    DescentShape(db, fs);
    DescentKeepsVa(db, fs);
    StrippedIsVa(db, Descend(db, fs));
  }

  /** The step, case by case. */
  lemma StepDownAt(db: Db, fs: seq<Frame>)
    requires LocusOk(db) && InSegment(db, fs)
    ensures fs != [] && Top(fs).cont in db && Closed(db) && Acyclic(db)
    ensures Pick(db, Top(fs)).None? ==> StepDown(db, fs) == Step(fs, false)
    ensures var top, found := Top(fs), Pick(db, Top(fs));
            && (found.Some? && Stays(db, top) ==>
                  StepDown(db, fs) == Step(WithTop(fs, Marked(top, found.value)), false))
            && (found.Some? && !Stays(db, top) ==>
                  var f := found.value;
                  var t := KnownType(db, top.cont, f);
                  var (top2, over) := top.SetField2(f);
                  && (HasStruc(db, t) ==>
                        StepDown(db, fs) == Step(WithTop(fs, top2) + [StrucFrame(db, top2, f, t, over)], true))
                  && (!HasStruc(db, t) && db[Direct(db, t)].kind.Array? ==>
                        var e := ElemOf(db, t);
                        var skip := ElemStart(over, ElemSize(db, e));
                        var top3 := top2.(extra := skip);
                        StepDown(db, fs)
                        == if HasStruc(db, e)
                           then Step(WithTop(fs, top3) + [ElemFrame(db, top3, f, e, skip, over - skip)], true)
                           else Step(WithTop(fs, top3), false))
                  && (!HasStruc(db, t) && !db[Direct(db, t)].kind.Array? ==>
                        StepDown(db, fs) == Step(WithTop(fs, top2.(extra := over)), false)))
  {
    hide LocusOk, Underlaps, UpperBound, LowerBound, ElemSize, SpanOf, StrucFrame, ElemFrame;
    Knows(db);
  }

  lemma AboveBase(db: Db, c: TypeId, f: Field)
    requires LocusOk(db) && c in db && f in FieldsOf(db, c)
    ensures db[Direct(db, c)].base <= f.key && 0 <= f.key
    ensures f.typ.Some? ==> f.typ.value in db
  {}

  // ------------------------------------------------------------------ the object

  class Locus {
    var frames: seq<Frame>

    constructor (f: Frame)
      ensures frames == [f]
    {
      frames := [f];
    }

    /** Strips the arrays of an array type. */
    method AbsBaseType(db: Db, d: TypeId) returns (e: TypeId)
      requires LocusOk(db) && d in db && db[Direct(db, d)].kind.Array?
      ensures e == ElemOf(db, d)
    {
      e := d;
      while db[Direct(db, e)].kind.Array?
        invariant e in db && (db[Direct(db, e)].kind.Array? ==> ElemOf(db, e) == ElemOf(db, d))
        invariant !db[Direct(db, e)].kind.Array? ==> e == ElemOf(db, d)
        decreases Rank(db, e)
      {
        RankElem(db, e);
        e := db[Direct(db, e)].kind.elem;
      }
    }

    /** Edits the top frame and pushes the one inside it, if there is one. */
    method TerminalFieldAt0(db: Db) returns (more: bool)
      requires LocusOk(db) && InSegment(db, frames)
      modifies this
      ensures Step(frames, more) == StepDown(db, old(frames))
    {
      hide LocusOk, Closed, Acyclic, Underlaps, UpperBound, LowerBound, ElemOf, ElemSize, SpanOf, Size;
      hide StrucFrame, ElemFrame, StepDown, InSegment;
      StepDownAt(db, frames);
      FramesOk(db, frames);
      var fs := frames;
      var n := |fs| - 1;
      var top := frames[n];
      var m := FieldsOf(db, top.cont);
      var u := UpperBound(m, top.addr);
      if u == 0 {
        return false;
      }
      var f := m[LowerBound(m, m[u - 1].key)];
      assert Pick(db, top) == Some(f);
      AboveBase(db, top.cont, f);
      if top.addr == f.key {
        frames := fs[..n] + [top.(field := Some(f))];
      }
      assert frames == WithTop(fs, Marked(top, f));
      if f.typ.None? {
        return false;
      }
      var t := KnownType(db, top.cont, f);
      if Underlaps(db, f, top.Addrx()) {
        return false;
      }
      var (hit, over) := top.SetField2(f);
      if HasStruc(db, t) {
        frames := fs[..n] + [hit];
        frames := frames + [StrucFrame(db, hit, f, t, over)];
        assert frames == WithTop(fs, hit) + [StrucFrame(db, hit, f, t, over)];
        return true;
      }
      if db[Direct(db, t)].kind.Array? {
        var e := AbsBaseType(db, t);
        var sz := ElemSize(db, e);
        var skip := ElemStart(over, sz);
        hit := hit.(extra := skip);
        frames := fs[..n] + [hit];
        if !HasStruc(db, e) {
          return false;
        }
        frames := frames + [ElemFrame(db, hit, f, e, skip, over - skip)];
        assert frames == WithTop(fs, hit) + [ElemFrame(db, hit, f, e, skip, over - skip)];
        return true;
      }
      if f.key < top.addr && db[t].kind.Code? {
        return false;
      }
      frames := fs[..n] + [hit.(extra := over)];
      return false;
    }

    /** Descends until nothing lies below. The containers grow smaller, since containment is
        acyclic. */
    method TerminalFieldAt(db: Db)
      requires LocusOk(db) && InSegment(db, frames)
      modifies this
      ensures frames == Descend(db, old(frames))
    {
      hide LocusOk, StepDown;
      StepShape(db, frames);
      var more := TerminalFieldAt0(db);
      while more
        invariant InSegment(db, frames)
        invariant Descend(db, old(frames)) == if more then Descend(db, frames) else frames
        decreases Rank(db, Top(frames).cont), more
      {
        StepShape(db, frames);
        more := TerminalFieldAt0(db);
      }
    }

    /** Adds up the offsets from the top frame to the innermost segment. */
    method VirtualAddress(db: Db) returns (a: int)
      requires forall k :: 0 <= k < |frames| ==> frames[k].cont in db
      ensures a == Va(db, frames)
    {
      a := 0;
      var i := |frames|;
      assert frames[..i] == frames;
      while i > 0
        invariant 0 <= i <= |frames|
        invariant a + Va(db, frames[..i]) == Va(db, frames)
      {
        i := i - 1;
        var f := frames[i];
        assert Top(frames[..i + 1]) == f && Below(frames[..i + 1]) == frames[..i];
        a := a + f.Addrx();
        if db[f.cont].kind.Seg? {
          return;
        }
        a := a - BaseOf(db, f.cont);
      }
    }

    /** The same for the raw offset, which must lie inside the segment's raw block. */
    method RawAddress(db: Db) returns (r: Option<int>)
      requires forall k :: 0 <= k < |frames| ==> frames[k].cont in db
      ensures r == Ra(db, frames, 0)
    {
      var a := 0;
      var i := |frames|;
      assert frames[..i] == frames;
      while i > 0
        invariant 0 <= i <= |frames|
        invariant Ra(db, frames[..i], a) == Ra(db, frames, 0)
      {
        i := i - 1;
        var f := frames[i];
        assert Top(frames[..i + 1]) == f && Below(frames[..i + 1]) == frames[..i];
        a := a + (f.Addrx() - BaseOf(db, f.cont));
        if db[f.cont].kind.Seg? {
          if !(a < db[f.cont].kind.rawSize) {
            return None;
          }
          return Some(a + db[f.cont].kind.rawOffs);
        }
      }
      return Some(a);
    }

    /** Pops frames until a segment is on top. */
    method StripToSeg(db: Db) returns (found: bool)
      requires forall k :: 0 <= k < |frames| ==> frames[k].cont in db
      modifies this
      ensures frames == Stripped(db, old(frames))
      ensures found <==> frames != []
    {
      while frames != []
        invariant forall k :: 0 <= k < |frames| ==> frames[k].cont in db
        invariant Stripped(db, frames) == Stripped(db, old(frames))
        decreases |frames|
      {
        var f := frames[|frames| - 1];
        if db[f.cont].kind.Seg? {
          return true;
        }
        var off := f.Addrx() - BaseOf(db, f.cont);
        ghost var fs := frames;
        frames := frames[..|frames| - 1];
        if frames != [] {
          var b := frames[|frames| - 1];
          frames := frames[..|frames| - 1] + [b.(addr := b.addr + off)];
        }
        assert frames == Popped(fs, off);
      }
      return false;
    }

    /** Pops the top frame; a frame that moves by this forgets its field. */
    method Reduce(db: Db)
      requires InSegment(db, frames) && |frames| > 1
      modifies this
      ensures frames == Reduced(db, old(frames))
      ensures InSegment(db, frames) && Va(db, frames) == Va(db, old(frames))
    {
      ReducedKeepsVa(db, frames);
      var f := frames[|frames| - 1];
      var o := f.Addrx() - BaseOf(db, f.cont);
      frames := frames[..|frames| - 1];
      if o > 0 {
        var b := frames[|frames| - 1];
        frames := frames[..|frames| - 1] + [b.(addr := b.addr + o, field := None)];
      }
    }
  }
}
