/** Hexadecimal text, section 8 of RFC 4648: keys, candidate tokens and session ids on the wire. */
module Hex {
  import opened Prelude
  import opened Seqs

  function Digit(n: nat): byte
    requires n < 16
  {
    if n < 10 then (48 + n) as byte else (87 + n) as byte
  }

  /** The value of one hexadecimal character; both cases are accepted. */
  function Value(c: byte): (r: Option<nat>)
    ensures r.Some? ==> r.value < 16
  {
    if 48 <= c <= 57 then Some((c - 48) as nat)
    else if 97 <= c <= 102 then Some((c - 87) as nat)
    else if 65 <= c <= 70 then Some((c - 55) as nat)
    else None
  }

  function Encode(b: Bytes): Bytes
  {
    if b == [] then [] else [Digit(b[0] as nat / 16), Digit(b[0] as nat % 16)] + Encode(b[1..])
  }

  function Decode(s: Bytes): Option<Bytes>
  {
    if s == [] then Some([])
    else if |s| == 1 then None
    else
      match (Value(s[0]), Value(s[1]), Decode(s[2..]))
      case (Some(hi), Some(lo), Some(rest)) => Some([(16 * hi + lo) as byte] + rest)
      case _ => None
  }

  const DIGITS := "0123456789abcdef"

  /** Each byte becomes two digits, the high one first. */
  lemma {:induction false} EncodeAt(b: Bytes, i: nat)
    requires i < |b|
    ensures |Encode(b)| == 2 * |b|
    ensures Encode(b)[2 * i] as char == DIGITS[b[i] / 16] && Encode(b)[2 * i + 1] as char == DIGITS[b[i] % 16]
  {
    if i > 0 {
      EncodeAt(b[1..], i - 1);
      assert Encode(b)[2 * i] == Encode(b[1..])[2 * (i - 1)] && Encode(b)[2 * i + 1] == Encode(b[1..])[2 * (i - 1) + 1];
    } else {
      EncodeLength(b);
    }
  }

  lemma {:induction false} EncodeLength(b: Bytes)
    ensures |Encode(b)| == 2 * |b|
  {
    if b != [] {
      EncodeLength(b[1..]);
    }
  }

  predicate IsUpper(c: byte) { 65 <= c <= 70 }

  lemma {:induction false} DecodeInvertsEncode(b: Bytes)
    ensures Decode(Encode(b)) == Some(b)
  {
    if b != [] {
      var e := Encode(b);
      assert e[2..] == Encode(b[1..]);
      DecodeInvertsEncode(b[1..]);
      assert b == [b[0]] + b[1..];
    }
  }

  lemma EncodeInjective(a: Bytes, b: Bytes)
    requires Encode(a) == Encode(b)
    ensures a == b
  {
    DecodeInvertsEncode(a);
    DecodeInvertsEncode(b);
  }

  lemma DigitOfValue(c: byte)
    requires Value(c).Some?
    ensures Digit(Value(c).value) == c <==> !IsUpper(c)
  {}

  lemma PairInverts(c: byte, d: byte)
    requires Value(c).Some? && Value(d).Some?
    ensures var v := 16 * Value(c).value + Value(d).value;
            v < 256 && [Digit(v / 16), Digit(v % 16)] == [c, d] <==> !IsUpper(c) && !IsUpper(d)
  {
    DigitOfValue(c);
    DigitOfValue(d);
    var v := 16 * Value(c).value + Value(d).value;
    assert v / 16 == Value(c).value && v % 16 == Value(d).value;
    assert [Digit(v / 16), Digit(v % 16)] == [c, d] <==> Digit(v / 16) == c && Digit(v % 16) == d by {
      assert [Digit(v / 16), Digit(v % 16)][0] == Digit(v / 16) && [Digit(v / 16), Digit(v % 16)][1] == Digit(v % 16);
    }
  }

  /** Re-encoding what was decoded gives the text back exactly when it had no upper-case digit. */
  lemma {:induction false} EncodeInvertsDecode(s: Bytes)
    requires Decode(s).Some?
    ensures |s| == 2 * |Decode(s).value|
    ensures Encode(Decode(s).value) == s <==> forall c :: c in s ==> !IsUpper(c)
  {
    if s != [] {
      var rest, b := s[2..], Decode(s).value;
      EncodeInvertsDecode(rest);
      PairInverts(s[0], s[1]);
      assert b[1..] == Decode(rest).value;
      assert s == [s[0], s[1]] + rest;
      var pair := [Digit(b[0] as nat / 16), Digit(b[0] as nat % 16)];
      assert Encode(b) == pair + Encode(b[1..]);
      JoinEqual(pair, Encode(b[1..]), [s[0], s[1]], rest);
      assert forall c :: c in s <==> c == s[0] || c == s[1] || c in rest;
    }
  }

  /** Text of n upper-case digit pairs "AA" decodes, to n bytes 0xAA. */
  lemma {:induction false} UpperCaseDecodes(n: nat)
    ensures Decode(seq(2 * n, _ => 65)) == Some(seq(n, _ => 0xAA))
  {
    var s: Bytes := seq(2 * n, _ => 65);
    if n > 0 {
      UpperCaseDecodes(n - 1);
      assert s[2..] == seq(2 * (n - 1), _ => 65);
      assert Value(s[0]) == Some(10) && Value(s[1]) == Some(10);
      assert [0xAA as byte] + seq(n - 1, _ => 0xAA) == seq(n, _ => 0xAA);
    } else {
      assert s == [] && Decode(s) == Some([]);
      assert seq(n, _ => 0xAA as byte) == [];
    }
  }
}
