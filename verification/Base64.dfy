/**
 The padded standard alphabet of section 4 of RFC 4648, decoded strictly: the padding must be the
 canonical one and the bits it leaves over must be zero.
 */
module Base64 {
  import opened Prelude
  import opened Seqs

  const PAD: byte := 61

  function Char(n: nat): (c: byte)
    requires n < 64
    ensures c != PAD
  {
    if n < 26 then (65 + n) as byte
    else if n < 52 then (71 + n) as byte
    else if n < 62 then (n - 4) as byte
    else if n == 62 then 43
    else 47
  }

  function Value(c: byte): (r: Option<nat>)
    ensures r.Some? ==> r.value < 64 && Char(r.value) == c
    ensures r.None? ==> forall n: nat | n < 64 :: Char(n) != c
  {
    if 65 <= c <= 90 then Some((c - 65) as nat)
    else if 97 <= c <= 122 then Some((c - 71) as nat)
    else if 48 <= c <= 57 then Some((c + 4) as nat)
    else if c == 43 then Some(62)
    else if c == 47 then Some(63)
    else None
  }

  /** One group of four characters for three, two or one bytes. */
  function Group(x: byte, y: byte, z: byte): (g: Bytes)
    ensures |g| == 4 && g[3] != PAD
  {
    [Char(x as nat / 4), Char(x as nat % 4 * 16 + y as nat / 16), Char(y as nat % 16 * 4 + z as nat / 64),
     Char(z as nat % 64)]
  }

  function Group2(x: byte, y: byte): (g: Bytes)
    ensures |g| == 4 && g[3] == PAD && g[2] != PAD
  {
    [Char(x as nat / 4), Char(x as nat % 4 * 16 + y as nat / 16), Char(y as nat % 16 * 4), PAD]
  }

  function Group1(x: byte): (g: Bytes)
    ensures |g| == 4 && g[3] == PAD && g[2] == PAD
  {
    [Char(x as nat / 4), Char(x as nat % 4 * 16), PAD, PAD]
  }

  function Encode(b: Bytes): Bytes
  {
    if b == [] then []
    else if |b| == 1 then Group1(b[0])
    else if |b| == 2 then Group2(b[0], b[1])
    else Group(b[0], b[1], b[2]) + Encode(b[3..])
  }

  /** The inverse of each group; the bits a padded group leaves over must be zero. */
  function Ungroup(g: Bytes): (r: Option<Bytes>)
    requires |g| == 4
    ensures r.Some? ==> |r.value| == 3
  {
    match (Value(g[0]), Value(g[1]), Value(g[2]), Value(g[3]))
    case (Some(p), Some(q), Some(r), Some(t)) =>
      Some([(p * 4 + q / 16) as byte, (q % 16 * 16 + r / 4) as byte, (r % 4 * 64 + t) as byte])
    case _ => None
  }

  function Ungroup2(g: Bytes): (r: Option<Bytes>)
    requires |g| == 4
    ensures r.Some? ==> |r.value| == 2
  {
    match (Value(g[0]), Value(g[1]), Value(g[2]))
    case (Some(p), Some(q), Some(r)) =>
      if r % 4 == 0 then Some([(p * 4 + q / 16) as byte, (q % 16 * 16 + r / 4) as byte]) else None
    case _ => None
  }

  function Ungroup1(g: Bytes): (r: Option<Bytes>)
    requires |g| == 4
    ensures r.Some? ==> |r.value| == 1
  {
    match (Value(g[0]), Value(g[1]))
    case (Some(p), Some(q)) => if q % 16 == 0 then Some([(p * 4 + q / 16) as byte]) else None
    case _ => None
  }

  function Decode(s: Bytes): Option<Bytes>
  {
    if s == [] then Some([])
    else if |s| < 4 then None
    else if |s| == 4 && s[3] == PAD then
      if s[2] == PAD then Ungroup1(s) else Ungroup2(s)
    else
      match (Ungroup(s[..4]), Decode(s[4..]))
      case (Some(b), Some(rest)) => Some(b + rest)
      case _ => None
  }

  /** The alphabet: A to Z, a to z, 0 to 9, + and /. */
  lemma CharIsStandard(n: nat)
    requires n < 64
    ensures n < 26 ==> Char(n) as int == 'A' as int + n
    ensures 26 <= n < 52 ==> Char(n) as int == 'a' as int + n - 26
    ensures 52 <= n < 62 ==> Char(n) as int == '0' as int + n - 52
    ensures n == 62 ==> Char(n) as char == '+'
    ensures n == 63 ==> Char(n) as char == '/'
    ensures PAD as char == '='
  {}

  lemma LastSextet(a: nat, b: nat, a': nat, b': nat)
    requires b < 64 && b' < 64 && a * 64 + b == a' * 64 + b'
    ensures a == a' && b == b'
  {}

  lemma NumberOfBytes(x: nat, y: nat, z: nat)
    ensures ((x / 4 * 64 + (x % 4 * 16 + y / 16)) * 64 + (y % 16 * 4 + z / 64)) * 64 + z % 64 ==
            x * 0x1_0000 + y * 0x100 + z
  {
    assert x == x / 4 * 4 + x % 4 && y == y / 16 * 16 + y % 16 && z == z / 64 * 64 + z % 64;
  }

  lemma SextetsOfNumber(x: nat, y: nat, z: nat, p: nat, q: nat, r: nat, t: nat)
    requires x < 256 && y < 256 && z < 256 && p < 64 && q < 64 && r < 64 && t < 64
    requires x * 0x1_0000 + y * 0x100 + z == p * 0x4_0000 + q * 0x1000 + r * 0x40 + t
    ensures p == x / 4 && q == x % 4 * 16 + y / 16 && r == y % 16 * 4 + z / 64 && t == z % 64
  {
    var p', q', r', t' := x / 4, x % 4 * 16 + y / 16, y % 16 * 4 + z / 64, z % 64;
    NumberOfBytes(x, y, z);
    LastSextet((p * 64 + q) * 64 + r, t, (p' * 64 + q') * 64 + r', t');
    LastSextet(p * 64 + q, r, p' * 64 + q', r');
    LastSextet(p, q, p', q');
  }

  /** A group spells the 24 bits of its bytes, the highest six first; a short group spells zeros for what is missing. */
  lemma GroupIsBigEndian(x: byte, y: byte, z: byte, p: nat, q: nat, r: nat, t: nat)
    requires p < 64 && q < 64 && r < 64 && t < 64
    requires x as nat * 0x1_0000 + y as nat * 0x100 + z as nat == p * 0x4_0000 + q * 0x1000 + r * 0x40 + t
    ensures Group(x, y, z) == [Char(p), Char(q), Char(r), Char(t)]
    ensures z == 0 ==> Group2(x, y) == [Char(p), Char(q), Char(r), PAD]
    ensures y == 0 && z == 0 ==> Group1(x) == [Char(p), Char(q), PAD, PAD]
  {
    SextetsOfNumber(x as nat, y as nat, z as nat, p, q, r, t);
  }

  lemma ValueOfChar(n: nat)
    requires n < 64
    ensures Value(Char(n)) == Some(n)
  {}

  lemma SextetsOfBytes(x: nat, y: nat, z: nat)
    requires x < 256 && y < 256 && z < 256
    ensures var p, q, r, t := x / 4, x % 4 * 16 + y / 16, y % 16 * 4 + z / 64, z % 64;
            p * 4 + q / 16 == x && q % 16 * 16 + r / 4 == y && r % 4 * 64 + t == z
  {}

  lemma UngroupInvertsGroup(x: byte, y: byte, z: byte)
    ensures Ungroup(Group(x, y, z)) == Some([x, y, z])
  {
    var p, q, r, t := x as nat / 4, x as nat % 4 * 16 + y as nat / 16, y as nat % 16 * 4 + z as nat / 64, z as nat % 64;
    assert Group(x, y, z) == [Char(p), Char(q), Char(r), Char(t)];
    SextetsOfBytes(x as nat, y as nat, z as nat);
    ValueOfChar(p);
    ValueOfChar(q);
    ValueOfChar(r);
    ValueOfChar(t);
  }

  lemma UngroupInvertsPaddedGroup(x: byte, y: byte)
    ensures Ungroup2(Group2(x, y)) == Some([x, y])
    ensures Ungroup1(Group1(x)) == Some([x])
  {
    SextetsOfBytes(x as nat, y as nat, 0);
    SextetsOfBytes(x as nat, 0, 0);
    ValueOfChar(x as nat / 4);
    ValueOfChar(x as nat % 4 * 16 + y as nat / 16);
    ValueOfChar(x as nat % 4 * 16);
    ValueOfChar(y as nat % 16 * 4);
  }

  lemma BytesOfSextets(p: nat, q: nat, r: nat, t: nat)
    requires p < 64 && q < 64 && r < 64 && t < 64
    ensures var x, y, z := p * 4 + q / 16, q % 16 * 16 + r / 4, r % 4 * 64 + t;
            x / 4 == p && x % 4 * 16 + y / 16 == q && y % 16 * 4 + z / 64 == r && z % 64 == t
  {}

  lemma GroupInvertsUngroup(g: Bytes)
    requires |g| == 4
    ensures Ungroup(g).Some? ==> var b := Ungroup(g).value; Group(b[0], b[1], b[2]) == g
  {
    if Ungroup(g).Some? {
      BytesOfSextets(Value(g[0]).value, Value(g[1]).value, Value(g[2]).value, Value(g[3]).value);
    }
  }

  lemma PaddedGroupInvertsUngroup(g: Bytes)
    requires |g| == 4 && g[3] == PAD
    ensures Ungroup2(g).Some? ==> Group2(Ungroup2(g).value[0], Ungroup2(g).value[1]) == g
    ensures g[2] == PAD && Ungroup1(g).Some? ==> Group1(Ungroup1(g).value[0]) == g
  {
    if Ungroup2(g).Some? {
      BytesOfSextets(Value(g[0]).value, Value(g[1]).value, Value(g[2]).value, 0);
    }
    if Ungroup1(g).Some? {
      BytesOfSextets(Value(g[0]).value, Value(g[1]).value, 0, 0);
    }
  }

  lemma {:induction false} DecodeInvertsEncode(b: Bytes)
    ensures Decode(Encode(b)) == Some(b)
  {
    hide Ungroup, Ungroup1, Ungroup2, Group, Group1, Group2;
    if |b| >= 3 {
      var g := Group(b[0], b[1], b[2]);
      UngroupInvertsGroup(b[0], b[1], b[2]);
      DecodeInvertsEncode(b[3..]);
      assert Encode(b)[..4] == g && Encode(b)[4..] == Encode(b[3..]);
      assert Encode(b)[3] == g[3];
      assert b == [b[0], b[1], b[2]] + b[3..];
    } else if |b| == 2 {
      UngroupInvertsPaddedGroup(b[0], b[1]);
      assert b == [b[0], b[1]];
    } else if |b| == 1 {
      UngroupInvertsPaddedGroup(b[0], 0);
      assert b == [b[0]];
    }
  }

  /** Decoding is canonical: a text that decodes is the only text that decodes to those bytes. */
  lemma {:induction false} EncodeInvertsDecode(s: Bytes)
    requires Decode(s).Some?
    ensures Encode(Decode(s).value) == s
  {
    if s == [] {
    } else if |s| == 4 && s[3] == PAD {
      PaddedGroupInvertsUngroup(s);
    } else {
      var b := Decode(s).value;
      GroupInvertsUngroup(s[..4]);
      EncodeInvertsDecode(s[4..]);
      Cut(Ungroup(s[..4]).value, Decode(s[4..]).value);
      Join(s, 4);
    }
  }
}
