/** Display of a bit set: the named fields that are not zero, and the bits left over. */
module BitFields {
  // ------------------------------------------------------------------ words

  // The operations on words are named, so that proofs can treat them as symbols.
  function And(x: bv64, y: bv64): bv64 { x & y }

  function Or(x: bv64, y: bv64): bv64 { x | y }

  function Not(x: bv64): bv64 { !x }

  function Twice(x: bv64): bv64 { x << 1 }

  function Half(x: bv64): bv64 { x >> 1 }

  /** Shifts, one bit at a time. */
  function Up(x: bv64, n: nat): bv64 {
    if n == 0 then x else Twice(Up(x, n - 1))
  }

  function Down(x: bv64, n: nat): bv64 {
    if n == 0 then x else Down(Half(x), n - 1)
  }

  // ------------------------------------------------------------------ fields

  /** A field of a bit set: its first bit and its width. */
  datatype BitField = BitField(offs: nat, size: nat)

  /** What is shown of a field: the field and its value. */
  datatype Shown = Shown(field: BitField, value: bv64)

  /** The field lies in the word, and is narrower than the 32-bit constant its mask is made
      from. */
  predicate Narrow(f: BitField) {
    f.size < 32 && f.offs + f.size <= 64
  }

  /** The bits of the field. */
  function Mask(f: BitField): bv64 {
    Up(Not(Up(0xFFFF_FFFF_FFFF_FFFF, f.size)), f.offs)
  }

  /** The field's bits in the word, at their place. */
  function Part(u: bv64, f: BitField): bv64 { And(u, Mask(f)) }

  /** The word a list of shown values stands for. */
  function Joined(shown: seq<Shown>): bv64 {
    if shown == [] then 0
    else
      var last := shown[|shown| - 1];
      Or(Joined(shown[..|shown| - 1]), Up(last.value, last.field.offs))
  }

  lemma HalfAnd(u: bv64, k: bv64)
    ensures Half(And(u, Twice(k))) == And(Half(u), k)
    ensures Twice(And(Half(u), k)) == And(u, Twice(k))
  {}

  /** Shifting a field's bits down and up again loses nothing. */
  lemma {:induction false} PartRestored(u: bv64, m: bv64, n: nat)
    ensures Up(Down(And(u, Up(m, n)), n), n) == And(u, Up(m, n))
    decreases n
  {
    hide And, Twice, Half;
    if n > 0 {
      HalfAnd(u, Up(m, n - 1));
      PartRestored(Half(u), m, n - 1);
    }
  }

  lemma JoinedMore(shown: seq<Shown>, f: BitField, u: bv64)
    ensures Joined(shown + [Shown(f, Down(Part(u, f), f.offs))]) == Or(Joined(shown), Part(u, f))
  {
    hide And, Or, Not, Up, Down;
    PartRestored(u, Not(Up(0xFFFF_FFFF_FFFF_FFFF, f.size)), f.offs);
    var more := shown + [Shown(f, Down(Part(u, f), f.offs))];
    assert more[..|more| - 1] == shown;
  }

  /** Shown and left-over bits make up the word and share no bit. */
  predicate Splits(u: bv64, j: bv64, v: bv64) { Or(j, v) == u && And(j, v) == 0 }

  lemma SplitsStart(u: bv64)
    ensures Splits(u, 0, u)
  {}

  /** One round of the loop moves a field's bits over. */
  lemma Round(u: bv64, j: bv64, v: bv64, m: bv64)
    requires Splits(u, j, v)
    ensures Splits(u, Or(j, And(u, m)), And(v, Not(m)))
  {
    hide Splits, Or, And, Not;
    RoundJoined(u, j, v, m);
    RoundApart(u, j, v, m);
    SplitsIs(u, Or(j, And(u, m)), And(v, Not(m)));
  }

  lemma SplitsIs(u: bv64, j: bv64, v: bv64)
    ensures Splits(u, j, v) <==> Or(j, v) == u && And(j, v) == 0
  {
    hide Or, And;
  }

  lemma RoundJoined(u: bv64, j: bv64, v: bv64, m: bv64)
    requires Splits(u, j, v)
    ensures Or(Or(j, And(u, m)), And(v, Not(m))) == u
  {}

  lemma RoundApart(u: bv64, j: bv64, v: bv64, m: bv64)
    requires Splits(u, j, v)
    ensures And(Or(j, And(u, m)), And(v, Not(m))) == 0
  {}

  lemma Cleared(v: bv64, m: bv64)
    ensures And(And(v, Not(m)), m) == 0
  {}

  /** Left-over bits are bits of the word. */
  lemma LeftOver(u: bv64, j: bv64, v: bv64)
    requires Splits(u, j, v)
    ensures And(v, Not(u)) == 0
  {}

  lemma NothingLeft(u: bv64, v: bv64, m: bv64)
    requires And(v, Not(u)) == 0 && And(u, m) == 0
    ensures And(v, m) == 0
  {}

  lemma StillClear(v: bv64, m: bv64, n: bv64)
    requires And(v, n) == 0
    ensures And(And(v, Not(m)), n) == 0
  {}

  /** The display is lossless for any fields narrower than 32 bits, even overlapping ones: the
      shown values at their places and the bits left over make up the word, and share no bit;
      the bits left over belong to no field; and a field is shown exactly if it is not zero,
      with its bits moved down as its value. */
  method DrawBitset(fields: seq<BitField>, u: bv64) returns (shown: seq<Shown>, v: bv64)
    requires forall f :: f in fields ==> Narrow(f)
    ensures Splits(u, Joined(shown), v)
    ensures forall f :: f in fields ==> And(v, Mask(f)) == 0
    ensures forall f :: f in fields && Part(u, f) != 0 ==> Shown(f, Down(Part(u, f), f.offs)) in shown
    ensures forall s :: s in shown ==>
              s.field in fields && Part(u, s.field) != 0 && s.value == Down(Part(u, s.field), s.field.offs)
  {
    hide And, Or, Not, Up, Down, Mask, Splits, Joined;
    SplitsStart(u);
    shown, v := [], u;
    JoinedNone();
    var i := 0;
    while i < |fields|
      invariant 0 <= i <= |fields|
      invariant Splits(u, Joined(shown), v)
      invariant forall f :: f in fields[..i] ==> And(v, Mask(f)) == 0
      invariant forall f :: f in fields[..i] && Part(u, f) != 0 ==> Shown(f, Down(Part(u, f), f.offs)) in shown
      invariant forall s :: s in shown ==>
                  s.field in fields && Part(u, s.field) != 0 && s.value == Down(Part(u, s.field), s.field.offs)
    {
      var f := fields[i];
      var mask := Mask(f);
      var part := And(u, mask);
      if part != 0 {
        Round(u, Joined(shown), v, mask);
        Cleared(v, mask);
        forall g | g in fields[..i] ensures And(And(v, Not(mask)), Mask(g)) == 0 {
          StillClear(v, mask, Mask(g));
        }
        JoinedMore(shown, f, u);
        v := And(v, Not(mask));
        shown := shown + [Shown(f, Down(part, f.offs))];
      } else {
        LeftOver(u, Joined(shown), v);
        NothingLeft(u, v, mask);
      }
      i := i + 1;
    }
    assert fields[..i] == fields;
  }

  lemma JoinedNone()
    ensures Joined([]) == 0
  {}
}
