/** Names: the code for names of several parts, the duplicate suffix, and the namespace that
    keeps names and objects in one-to-one correspondence. */
module Naming {
  import opened Wrappers

  // ------------------------------------------------------------------ numbers

  function Digit(d: nat): char
    requires d < 10
  {
    '0' + d as char
  }

  predicate IsDigit(c: char) { '0' <= c <= '9' }

  function Value(c: char): nat
    requires IsDigit(c)
  {
    (c - '0') as nat
  }

  function Dec(n: nat): (s: string)
    ensures s != [] && forall c :: c in s ==> IsDigit(c)
    ensures n > 0 ==> s[0] != '0'
  {
    if n < 10 then [Digit(n)] else Dec(n / 10) + [Digit(n % 10)]
  }

  /** Reads the leading digits, on top of what has been read before. */
  function Atoi(s: string, acc: nat): nat {
    if s == [] || !IsDigit(s[0]) then acc else Atoi(s[1..], acc * 10 + Value(s[0]))
  }

  lemma {:induction false} AtoiDigits(s: string, t: string, acc: nat)
    requires forall c :: c in s ==> IsDigit(c)
    ensures Atoi(s + t, acc) == Atoi(t, Atoi(s, acc))
  {
    if s == [] {
      assert s + t == t;
    } else {
      assert (s + t)[1..] == s[1..] + t;
      AtoiDigits(s[1..], t, acc * 10 + Value(s[0]));
    }
  }

  /** Reading a written number back. */
  lemma {:induction false} AtoiDec(n: nat, t: string)
    requires t == [] || !IsDigit(t[0])
    ensures Atoi(Dec(n) + t, 0) == n
    decreases n
  {
    if n < 10 {
      AtoiDigits([Digit(n)], t, 0);
      assert Dec(n) == [Digit(n)];
    } else {
      AtoiDec(n / 10, []);
      assert Dec(n / 10) + [] == Dec(n / 10);
      AtoiDigits(Dec(n / 10), [Digit(n % 10)] + t, 0);
      assert Dec(n) + t == Dec(n / 10) + ([Digit(n % 10)] + t);
      assert ([Digit(n % 10)] + t)[1..] == t;
    }
  }

  // ------------------------------------------------------------------ the duplicate suffix

  const SEPARATOR := '\t'
  const TERMINATOR := '\r'

  /** A name with a duplicate number. */
  function Dup(s: string, i: nat): (r: string)
    ensures r != []
  {
    s + [SEPARATOR] + Dec(i) + [TERMINATOR]
  }

  /** Place of the last occurrence of `c`, searched downwards from `n`. */
  function LastIndex(s: string, c: char, n: nat): (r: Option<nat>)
    requires n <= |s|
    ensures r.Some? ==> r.value < n && s[r.value] == c && forall k :: r.value < k < n ==> s[k] != c
    ensures r.None? ==> forall k :: 0 <= k < n ==> s[k] != c
  {
    if n == 0 then None else if s[n - 1] == c then Some(n - 1) else LastIndex(s, c, n - 1)
  }

  /** `ChopName`: splits the duplicate number off; with a replacement symbol the number is put
      back behind that instead. */
  function ChopName(s: string, symbol: Option<char>): (string, nat) {
    if symbol == Some(SEPARATOR) || s == [] || s[|s| - 1] != TERMINATOR then (s, 0)
    else
      match LastIndex(s, SEPARATOR, |s|)
      case None => (s, 0)
      case Some(n) =>
        var u := Atoi(s[n + 1..], 0);
        if u > 0 && symbol.Some? then (s[..n] + [symbol.value] + Dec(u), 0) else (s[..n], u)
  }

  /** Chopping gives back the exact base and number, whatever the base, even if it carries a
      suffix of its own. */
  lemma ChopDup(s: string, i: nat)
    requires i > 0
    ensures ChopName(Dup(s, i), None) == (s, i)
    ensures forall c :: c != SEPARATOR ==> ChopName(Dup(s, i), Some(c)) == (s + [c] + Dec(i), 0)
  {
    var r, d := Dup(s, i), Dec(i);
    assert r[|s|] == SEPARATOR;
    assert r[|s| + 1..] == d + [TERMINATOR];
    forall k | |s| < k < |r| ensures r[k] != SEPARATOR {
      assert r[k] == (d + [TERMINATOR])[k - |s| - 1];
      if k - |s| - 1 < |d| { assert d[k - |s| - 1] in d; }
    }
    assert LastIndex(r, SEPARATOR, |r|) == Some(|s|);
    assert r[..|s|] == s;
    AtoiDec(i, [TERMINATOR]);
  }

  /** A name without a suffix is left alone. */
  lemma ChopPlain(s: string)
    requires s == [] || s[|s| - 1] != TERMINATOR
    ensures ChopName(s, None) == (s, 0)
  {}

  // ------------------------------------------------------------------ names of several parts

  /** Behind the length prefix, and the length it tells; -1 without a prefix. */
  function SkipPrefix(s: string): (string, int) {
    if s == [] || s[0] != '[' then (s, -1) else SkipLength(s[1..], 0)
  }

  /** Every character counts as a digit, by its distance from '0'. */
  function SkipLength(s: string, n: int): (string, int) {
    if s == [] then ([], n)
    else if s[0] == ']' then (s[1..], n)
    else SkipLength(s[1..], n * 10 + (s[0] as int - '0' as int))
  }

  /** The part of a name that orders and identifies it. */
  function Key(s: string): string { SkipPrefix(s).0 }

  /** Tag, and module behind a separator. */
  function Tail(parts: seq<string>): string
    requires |parts| >= 2
  {
    if |parts| > 2 then parts[1] + ("|" + parts[2]) else parts[1]
  }

  function Length(s: string): string {
    if s == "" then "" else Dec(|s|)
  }

  /** `FromCompoundName`: a name of one part is itself; otherwise the length of the first part
      goes ahead of it, and tag and module follow. */
  function FromCompound(parts: seq<string>): string {
    if |parts| < 2 then (if parts == [] then "" else parts[0])
    else "[" + Length(parts[0]) + "]" + (parts[0] + ("#" + Tail(parts)))
  }

  /** Place of the first occurrence of `c`; the length if there is none. */
  function FirstIndex(s: string, c: char): (r: nat)
    ensures r <= |s| && (r < |s| ==> s[r] == c) && forall k :: 0 <= k < r ==> s[k] != c
  {
    if s == [] || s[0] == c then 0 else 1 + FirstIndex(s[1..], c)
  }

  /** The parts behind the first one: the tag, and the module if a separator follows. */
  function TagParts(s: string): seq<string> {
    if s == [] || s[0] != '#' then []
    else
      var t := s[1..];
      var k := FirstIndex(t, '|');
      if k < |t| then [t[..k], t[k + 1..]] else [t]
  }

  /** `ToCompoundName`. */
  function ToCompound(s: string): seq<string> {
    var (rest, n) := SkipPrefix(s);
    if 0 <= n <= |rest| then [rest[..n]] + TagParts(rest[n..]) else [rest]
  }

  lemma {:induction false} SkipDigits(d: string, t: string, n: nat)
    requires forall c :: c in d ==> IsDigit(c)
    ensures SkipLength(d + "]" + t, n) == (t, Atoi(d, n))
  {
    if d == "" {
      assert (d + "]" + t)[1..] == t;
    } else {
      assert (d + "]" + t)[1..] == d[1..] + "]" + t;
      SkipDigits(d[1..], t, n * 10 + Value(d[0]));
    }
  }

  /** What a coded name looks like behind its prefix. */
  lemma CodedPrefix(parts: seq<string>)
    requires |parts| >= 2
    ensures SkipPrefix(FromCompound(parts)) == (parts[0] + ("#" + Tail(parts)), |parts[0]|)
  {
    hide Dec, Tail, SkipLength;
    var d, t := Length(parts[0]), parts[0] + ("#" + Tail(parts));
    var s := FromCompound(parts);
    assert s[0] == '[' && s[1..] == d + "]" + t;
    SkipDigits(d, t, 0);
    if parts[0] != "" {
      AtoiDec(|parts[0]|, "");
      assert d + "" == d;
    }
  }

  lemma FirstIndexJoined(a: string, c: char, b: string)
    requires c !in a
    ensures FirstIndex(a, c) == |a| && FirstIndex(a + [c] + b, c) == |a|
  {
    var s := a + [c] + b;
    assert s[|a|] == c;
    forall k | 0 <= k < |a| ensures s[k] != c { assert s[k] == a[k]; }
  }

  lemma Decoded(parts: seq<string>)
    requires |parts| >= 2
    ensures ToCompound(FromCompound(parts)) == [parts[0]] + TagParts("#" + Tail(parts))
  {
    hide SkipPrefix, FromCompound, TagParts, Tail;
    CodedPrefix(parts);
    var rest := parts[0] + ("#" + Tail(parts));
    assert rest[..|parts[0]|] == parts[0] && rest[|parts[0]|..] == "#" + Tail(parts);
  }

  /** The tail is split at the first separator. */
  lemma TailSplit(parts: seq<string>)
    requires 2 <= |parts| <= 3
    ensures TagParts("#" + Tail(parts)) == parts[1..] <==> '|' !in parts[1]
  {
    var tag, tail := parts[1], Tail(parts);
    assert ("#" + tail)[1..] == tail;
    var k := FirstIndex(tail, '|');
    if '|' !in tag {
      if |parts| > 2 {
        assert tail == tag + ['|'] + parts[2];
        FirstIndexJoined(tag, '|', parts[2]);
        assert tail[..k] == tag && tail[k + 1..] == parts[2];
      } else {
        FirstIndexJoined(tag, '|', "");
      }
    } else {
      var j :| 0 <= j < |tag| && tag[j] == '|';
      assert tail[j] == '|';
      assert |TagParts("#" + tail)[0]| == k <= j;
    }
  }

  /** Decoding inverts coding on every name of two or three parts exactly if the tag has no
      module separator; names may hold any characters, and be empty. */
  lemma CompoundRoundTripIff(parts: seq<string>)
    requires 2 <= |parts| <= 3
    ensures ToCompound(FromCompound(parts)) == parts <==> '|' !in parts[1]
  {
    hide ToCompound, FromCompound, TagParts, Tail;
    Decoded(parts);
    TailSplit(parts);
    assert parts == [parts[0]] + parts[1..];
    assert ([parts[0]] + TagParts("#" + Tail(parts)))[1..] == TagParts("#" + Tail(parts));
  }

  /** Two coded names are the same key exactly if their joined parts are the same string: the
      prefix takes no part in it, and tells them apart only if no name has a tag separator. */
  lemma KeyOfCompound(parts: seq<string>, other: seq<string>)
    requires |parts| == 2 && |other| == 2
    ensures Key(FromCompound(parts)) == Key(FromCompound(other)) <==>
              parts[0] + ("#" + parts[1]) == other[0] + ("#" + other[1])
    ensures '#' !in parts[0] && '#' !in other[0] && Key(FromCompound(parts)) == Key(FromCompound(other)) ==>
              parts == other
  {
    hide SkipPrefix, FromCompound, FirstIndex;
    CodedPrefix(parts);
    CodedPrefix(other);
    if '#' !in parts[0] && '#' !in other[0] && Key(FromCompound(parts)) == Key(FromCompound(other)) {
      FirstSplit(parts[0], parts[1], other[0], other[1]);
      assert parts == [parts[0], parts[1]] == other;
    }
  }

  /** Where the first separator is, is where two equal joined strings were joined. */
  lemma FirstSplit(a: string, b: string, c: string, d: string)
    requires '#' !in a && '#' !in c && a + ("#" + b) == c + ("#" + d)
    ensures a == c && b == d
  {
    hide FirstIndex;
    var s := a + ['#'] + b;
    assert s == a + ("#" + b) && c + ['#'] + d == c + ("#" + d);
    FirstIndexJoined(a, '#', b);
    FirstIndexJoined(c, '#', d);
    assert a == s[..|a|] && c == s[..|c|];
    assert b == s[|a| + 1..] && d == s[|c| + 1..];
  }

  /** Two different names that are one key. */
  lemma KeysCollide()
    ensures FromCompound(["a#b", "c"]) != FromCompound(["a", "b#c"])
    ensures Key(FromCompound(["a#b", "c"])) == Key(FromCompound(["a", "b#c"]))
  {
    var p, q := ["a#b", "c"], ["a", "b#c"];
    KeyOfCompound(p, q);
    CompoundRoundTripIff(p);
    CompoundRoundTripIff(q);
    assert p[0] + ("#" + p[1]) == q[0] + ("#" + q[1]);
    assert p[0] != q[0];
  }

  /** The scan that skips a length prefix. */
  method SkipLenPfx(s: string) returns (rest: string, n: int)
    ensures (rest, n) == SkipPrefix(s)
  {
    if s == [] || s[0] != '[' {
      return s, -1;
    }
    var i: nat := 1;
    n := 0;
    while i < |s| && s[i] != ']'
      invariant 1 <= i <= |s|
      invariant SkipLength(s[i..], n) == SkipPrefix(s)
    {
      assert s[i..][1..] == s[i + 1..];
      n := n * 10 + (s[i] as int - '0' as int);
      i := i + 1;
    }
    if i < |s| {
      assert s[i..][1..] == s[i + 1..];
      i := i + 1;
    }
    return s[i..], n;
  }

  /** A module separator inside a tag is taken for the one that ends it. */
  lemma SeparatorInTag()
    ensures ToCompound(FromCompound(["f", "a|b"])) != ["f", "a|b"]
  {
    CompoundRoundTripIff(["f", "a|b"]);
    assert "a|b"[1] == '|';
  }
}
