/** Well-formed UTF-8, as section 4 of RFC 3629 defines it. */
module Utf8 {
  import opened Numbers

  type Bytes = seq<byte>

  predicate IsTail(s: Bytes, i: nat) {
    i < |s| && 0x80 <= s[i] <= 0xBF
  }

  predicate InRange(s: Bytes, i: nat, low: byte, high: byte) {
    i < |s| && low <= s[i] <= high
  }

  // The length of the first character, 0 if there is no well-formed one.
  function CharLength(s: Bytes): (n: nat)
    ensures n <= |s|
  {
    if s == [] then 0
    else if s[0] < 0x80 then 1
    else if 0xC2 <= s[0] <= 0xDF && IsTail(s, 1) then 2
    else if SecondOfThree(s) && IsTail(s, 2) then 3
    else if SecondOfFour(s) && IsTail(s, 2) && IsTail(s, 3) then 4
    else 0
  }

  predicate SecondOfThree(s: Bytes)
    requires s != []
  {
    || (s[0] == 0xE0 && InRange(s, 1, 0xA0, 0xBF))
    || ((0xE1 <= s[0] <= 0xEC || 0xEE <= s[0] <= 0xEF) && IsTail(s, 1))
    || (s[0] == 0xED && InRange(s, 1, 0x80, 0x9F))
  }

  predicate SecondOfFour(s: Bytes)
    requires s != []
  {
    || (s[0] == 0xF0 && InRange(s, 1, 0x90, 0xBF))
    || (0xF1 <= s[0] <= 0xF3 && IsTail(s, 1))
    || (s[0] == 0xF4 && InRange(s, 1, 0x80, 0x8F))
  }

  predicate IsUtf8(s: Bytes)
    decreases |s|
  {
    s == [] || (CharLength(s) > 0 && IsUtf8(s[CharLength(s)..]))
  }

  lemma {:induction false} AsciiIsUtf8(s: Bytes)
    requires forall b | b in s :: b < 0x80
    ensures IsUtf8(s)
    decreases |s|
  {
    if s != [] {
      assert s[0] in s && forall b | b in s[1..] :: b in s;
      AsciiIsUtf8(s[1..]);
    }
  }

  lemma FirstOfConcat(a: Bytes, b: Bytes)
    requires CharLength(a) > 0
    ensures CharLength(a + b) == CharLength(a) && (a + b)[CharLength(a)..] == a[CharLength(a)..] + b
  {
  }

  lemma {:induction false} ConcatIsUtf8(a: Bytes, b: Bytes)
    requires IsUtf8(a) && IsUtf8(b)
    ensures IsUtf8(a + b)
    decreases |a|
  {
    if a == [] {
      assert a + b == b;
    } else {
      FirstOfConcat(a, b);
      ConcatIsUtf8(a[CharLength(a)..], b);
    }
  }

  lemma SliceOfSlice(s: Bytes, n: nat, i: nat)
    requires n <= i < |s|
    ensures s[n..][..i - n] == s[..i][n..] && s[n..][i - n + 1..] == s[i + 1..]
  {
  }

  lemma CutBeyondFirst(s: Bytes, i: nat)
    requires 0 < CharLength(s) <= i < |s|
    ensures CharLength(s[..i]) == CharLength(s)
  {
  }

  // A text may be cut out at an ASCII byte: no other character holds one.
  lemma {:induction false} CutIsUtf8(s: Bytes, i: nat)
    requires IsUtf8(s) && i < |s| && s[i] < 0x80
    ensures IsUtf8(s[..i]) && IsUtf8(s[i + 1..])
    decreases |s|
  {
    var n := CharLength(s);
    if i < n {
      assert i == 0 && n == 1;
    } else {
      CutIsUtf8(s[n..], i - n);
      SliceOfSlice(s, n, i);
      CutBeyondFirst(s, i);
    }
  }

  /* ---- the texts are the encodings ---- */

  // A Unicode scalar value.
  predicate IsScalar(c: nat) {
    c < 0xD800 || 0xE000 <= c < 0x110000
  }

  // The bytes of one character, section 3 of RFC 3629.
  function Encode(c: nat): (bytes: Bytes)
    requires IsScalar(c)
    ensures 1 <= |bytes| <= 4
  {
    if c < 0x80 then [c as byte]
    else if c < 0x800 then [(0xC0 + c / 64) as byte, Tail(c)]
    else if c < 0x10000 then [(0xE0 + c / 4096) as byte, Tail(c / 64), Tail(c)]
    else [(0xF0 + c / 262144) as byte, Tail(c / 4096), Tail(c / 64), Tail(c)]
  }

  // The lowest six bits.
  function Tail(c: nat): (b: byte)
    ensures 0x80 <= b <= 0xBF
  {
    (0x80 + c % 64) as byte
  }

  function EncodeAll(cs: seq<nat>): Bytes
    requires forall c | c in cs :: IsScalar(c)
  {
    if cs == [] then [] else Encode(cs[0]) + EncodeAll(cs[1..])
  }

  lemma SixBits(high: nat, low: nat)
    requires low < 64
    ensures (64 * high + low) / 64 == high && (64 * high + low) % 64 == low
  {
  }

  // Sixes of bits are taken off one after the other.
  lemma Shifts(c: nat)
    ensures c / 4096 == c / 64 / 64 && c / 262144 == c / 64 / 64 / 64
  {
  }

  lemma EncodedIsRead(c: nat, rest: Bytes)
    requires IsScalar(c)
    ensures CharLength(Encode(c) + rest) == |Encode(c)|
  {
    Shifts(c);
    var s := Encode(c) + rest;
    assert forall i | 0 <= i < |Encode(c)| :: s[i] == Encode(c)[i];
  }

  lemma {:induction false} EncodedIsUtf8(cs: seq<nat>)
    requires forall c | c in cs :: IsScalar(c)
    ensures IsUtf8(EncodeAll(cs))
  {
    if cs != [] {
      EncodedIsUtf8(cs[1..]);
      EncodedIsRead(cs[0], EncodeAll(cs[1..]));
    }
  }

  lemma ThreeAreEncoded(s: Bytes) returns (c: nat)
    requires CharLength(s) == 3
    ensures IsScalar(c) && Encode(c) == s[..3]
  {
    var high := s[0] as nat - 0xE0;
    var middle := 64 * high + (s[1] as nat - 0x80);
    c := 64 * middle + (s[2] as nat - 0x80);
    SixBits(high, s[1] as nat - 0x80);
    SixBits(middle, s[2] as nat - 0x80);
    Shifts(c);
  }

  lemma FourAreEncoded(s: Bytes) returns (c: nat)
    requires CharLength(s) == 4
    ensures IsScalar(c) && Encode(c) == s[..4]
  {
    var high := s[0] as nat - 0xF0;
    var upper := 64 * high + (s[1] as nat - 0x80);
    var middle := 64 * upper + (s[2] as nat - 0x80);
    c := 64 * middle + (s[3] as nat - 0x80);
    SixBits(high, s[1] as nat - 0x80);
    SixBits(upper, s[2] as nat - 0x80);
    SixBits(middle, s[3] as nat - 0x80);
    Shifts(c);
  }

  lemma FirstIsEncoded(s: Bytes) returns (c: nat)
    requires CharLength(s) > 0
    ensures IsScalar(c) && Encode(c) == s[..CharLength(s)]
  {
    var n := CharLength(s);
    if n == 1 {
      c := s[0] as nat;
    } else if n == 2 {
      c := 64 * (s[0] as nat - 0xC0) + (s[1] as nat - 0x80);
      SixBits(s[0] as nat - 0xC0, s[1] as nat - 0x80);
    } else if n == 3 {
      c := ThreeAreEncoded(s);
    } else {
      c := FourAreEncoded(s);
    }
  }

  ghost predicate IsEncoded(s: Bytes) {
    exists cs: seq<nat> | (forall c | c in cs :: IsScalar(c)) :: EncodeAll(cs) == s
  }

  lemma OneMoreEncoded(c: nat, rest: seq<nat>)
    requires IsScalar(c) && forall d | d in rest :: IsScalar(d)
    ensures (forall d | d in [c] + rest :: IsScalar(d)) && EncodeAll([c] + rest) == Encode(c) + EncodeAll(rest)
  {
    assert ([c] + rest)[1..] == rest;
  }

  lemma {:induction false} Decoded(s: Bytes) returns (cs: seq<nat>)
    requires IsUtf8(s)
    ensures (forall c | c in cs :: IsScalar(c)) && EncodeAll(cs) == s
    decreases |s|
  {
    if s == [] {
      cs := [];
    } else {
      var c := FirstIsEncoded(s);
      var rest := Decoded(s[CharLength(s)..]);
      cs := [c] + rest;
      OneMoreEncoded(c, rest);
      assert s == s[..CharLength(s)] + s[CharLength(s)..];
    }
  }

  // A text is well-formed iff it is the encoding of some sequence of characters.
  lemma WellFormedIffEncoded(s: Bytes)
    ensures IsUtf8(s) <==> IsEncoded(s)
  {
    if IsUtf8(s) {
      var cs := Decoded(s);
    }
    if IsEncoded(s) {
      var cs: seq<nat> :| (forall c | c in cs :: IsScalar(c)) && EncodeAll(cs) == s;
      EncodedIsUtf8(cs);
    }
  }
}
