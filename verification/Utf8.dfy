/** Well-formed UTF-8, section 4 of RFC 3629. */
module Utf8 {
  import opened Prelude
  import opened Seqs

  predicate IsTail(c: byte) { 0x80 <= c <= 0xBF }

  /** The length of the character at the head of `s`, or 0 when none is well formed there. */
  function CharLength(s: Bytes): (n: nat)
    requires s != []
    ensures n <= |s|
  {
    if s[0] < 0x80 then 1
    else if |s| >= 2 && 0xC2 <= s[0] <= 0xDF && IsTail(s[1]) then 2
    else if |s| >= 3 && 0xE0 <= s[0] <= 0xEF && IsTail(s[1]) && IsTail(s[2])
            && (s[0] == 0xE0 ==> 0xA0 <= s[1]) && (s[0] == 0xED ==> s[1] <= 0x9F) then 3
    else if |s| >= 4 && 0xF0 <= s[0] <= 0xF4 && IsTail(s[1]) && IsTail(s[2]) && IsTail(s[3])
            && (s[0] == 0xF0 ==> 0x90 <= s[1]) && (s[0] == 0xF4 ==> s[1] <= 0x8F) then 4
    else 0
  }

  predicate IsUtf8(s: Bytes)
  {
    s == [] || (CharLength(s) > 0 && IsUtf8(s[CharLength(s)..]))
  }

  // ---- The encoder, and the texts it makes ----

  /** A Unicode scalar value: a code point that is no surrogate. */
  type Scalar = c: nat | c <= 0x10FFFF && !(0xD800 <= c <= 0xDFFF)

  /** A tail byte: the bits 10, then six bits. */
  function Tail(n: nat): byte { (0x80 + n % 64) as byte }

  /** The bit layout of section 3 of RFC 3629. */
  function EncodeScalar(c: Scalar): (e: Bytes)
    ensures 1 <= |e| <= 4
  {
    if c < 0x80 then [c as byte]
    else if c < 0x800 then [(0xC0 + c / 64) as byte, Tail(c)]
    else if c < 0x1_0000 then [(0xE0 + c / 0x1000) as byte, Tail(c / 64), Tail(c)]
    else [(0xF0 + c / 0x4_0000) as byte, Tail(c / 0x1000), Tail(c / 64), Tail(c)]
  }

  function EncodeScalars(scalars: seq<Scalar>): Bytes
  {
    if scalars == [] then [] else EncodeScalar(scalars[0]) + EncodeScalars(scalars[1..])
  }

  /** An encoded scalar is read as one character, whatever follows. */
  lemma EncodedIsOneCharacter(c: Scalar, rest: Bytes)
    ensures CharLength(EncodeScalar(c) + rest) == |EncodeScalar(c)|
  {
    var s := EncodeScalar(c) + rest;
    assert forall i | 0 <= i < |EncodeScalar(c)| :: s[i] == EncodeScalar(c)[i];
  }

  /** The scalar of the character at the head of `s`, put together from its bits. */
  function HeadScalar(s: Bytes): Scalar
    requires s != [] && CharLength(s) > 0
  {
    match CharLength(s)
    case 1 => s[0] as nat
    case 2 => (s[0] as nat - 0xC0) * 64 + (s[1] as nat - 0x80)
    case 3 => (s[0] as nat - 0xE0) * 0x1000 + (s[1] as nat - 0x80) * 64 + (s[2] as nat - 0x80)
    case _ =>
      (s[0] as nat - 0xF0) * 0x4_0000 + (s[1] as nat - 0x80) * 0x1000 + (s[2] as nat - 0x80) * 64 + (s[3] as nat - 0x80)
  }

  /** Six bits appended to a number come off it again, one group at a time. */
  lemma LastSix(n: nat, d: nat)
    requires d < 64
    ensures (n * 64 + d) / 64 == n && (n * 64 + d) % 64 == d
  {}

  lemma ShiftTwice(n: nat)
    ensures n / 0x1000 == n / 64 / 64
  {}

  lemma ShiftThrice(n: nat)
    ensures n / 0x4_0000 == n / 64 / 64 / 64
  {}

  lemma HeadOfTwo(s: Bytes)
    requires s != [] && CharLength(s) == 2
    ensures EncodeScalar(HeadScalar(s)) == s[..2]
  {
    LastSix(s[0] as nat - 0xC0, s[1] as nat - 0x80);
  }

  lemma HeadOfThree(s: Bytes)
    requires s != [] && CharLength(s) == 3
    ensures EncodeScalar(HeadScalar(s)) == s[..3]
  {
    var a, b, c := s[0] as nat - 0xE0, s[1] as nat - 0x80, s[2] as nat - 0x80;
    var n := HeadScalar(s);
    assert n == (a * 64 + b) * 64 + c >= 0x800;
    LastSix(a * 64 + b, c);
    LastSix(a, b);
    ShiftTwice(n);
    assert n / 0x1000 == a && n / 64 % 64 == b && n % 64 == c;
    assert EncodeScalar(n) == [s[0], s[1], s[2]];
  }

  lemma HeadOfFour(s: Bytes)
    requires s != [] && CharLength(s) == 4
    ensures EncodeScalar(HeadScalar(s)) == s[..4]
  {
    var a, b, c, d := s[0] as nat - 0xF0, s[1] as nat - 0x80, s[2] as nat - 0x80, s[3] as nat - 0x80;
    var n := HeadScalar(s);
    assert n == ((a * 64 + b) * 64 + c) * 64 + d >= 0x1_0000;
    LastSix((a * 64 + b) * 64 + c, d);
    LastSix(a * 64 + b, c);
    LastSix(a, b);
    ShiftTwice(n);
    ShiftThrice(n);
    assert n / 0x4_0000 == a && n / 0x1000 % 64 == b && n / 64 % 64 == c && n % 64 == d;
    assert EncodeScalar(n) == [s[0], s[1], s[2], s[3]];
  }

  lemma HeadIsEncoded(s: Bytes)
    requires s != [] && CharLength(s) > 0
    ensures EncodeScalar(HeadScalar(s)) == s[..CharLength(s)]
  {
    match CharLength(s)
    case 1 =>
    case 2 => HeadOfTwo(s);
    case 3 => HeadOfThree(s);
    case _ => HeadOfFour(s);
  }

  lemma {:induction false} EncodedIsUtf8(scalars: seq<Scalar>)
    ensures IsUtf8(EncodeScalars(scalars))
  {
    if scalars != [] {
      var e, rest := EncodeScalar(scalars[0]), EncodeScalars(scalars[1..]);
      EncodedIsOneCharacter(scalars[0], rest);
      EncodedIsUtf8(scalars[1..]);
      assert (e + rest)[|e|..] == rest;
    }
  }

  lemma {:induction false} Utf8IsEncoded(s: Bytes) returns (scalars: seq<Scalar>)
    requires IsUtf8(s)
    ensures s == EncodeScalars(scalars)
  {
    scalars := [];
    if s != [] {
      var n := CharLength(s);
      HeadIsEncoded(s);
      var rest := Utf8IsEncoded(s[n..]);
      scalars := [HeadScalar(s)] + rest;
      hide CharLength, IsUtf8, EncodeScalar, HeadScalar;
      Join(s, n);
    }
  }

  /** Well-formed texts are exactly the encodings of sequences of scalar values. */
  lemma Utf8IsWhatEncodes(s: Bytes)
    ensures IsUtf8(s) <==> exists scalars: seq<Scalar> :: s == EncodeScalars(scalars)
  {
    if IsUtf8(s) {
      var scalars := Utf8IsEncoded(s);
    }
    if scalars: seq<Scalar> :| s == EncodeScalars(scalars) {
      EncodedIsUtf8(scalars);
    }
  }

  // ---- Cutting a text ----

  /** An ASCII byte never lies inside a longer character, so a text may be cut on either side of it. */
  lemma {:induction false} SplitAtAscii(a: Bytes, c: byte, b: Bytes)
    requires c < 0x80
    ensures IsUtf8(a + [c] + b) <==> IsUtf8(a) && IsUtf8(b)
  {
    var s := a + [c] + b;
    if a == [] {
      assert s[1..] == b;
    } else {
      assert s[0] == a[0] && s[|a|] == c;
      assert forall i | 0 <= i < |a| :: s[i] == a[i];
      var n := CharLength(a);
      assert CharLength(s) == n;
      if n > 0 {
        SplitAtAscii(a[n..], c, b);
        assert s[n..] == a[n..] + [c] + b;
      }
    }
  }
}
