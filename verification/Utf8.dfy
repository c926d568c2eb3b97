/** UTF-8 by section 4 of RFC 3629, and its inverse. */
module Utf8 {
  import opened Wrappers
  import opened ByteStrings

  /** A Unicode scalar value: a code point that is not a surrogate. */
  type Scalar = c: int | 0 <= c < 0x11_0000 && !(0xD800 <= c < 0xE000)

  predicate Tail(b: byte) {
    0x80 <= b <= 0xBF
  }

  function EncodeScalar(c: Scalar): (r: Bytes)
    ensures 1 <= |r| <= 4
  {
    if c < 0x80 then [c]
    else if c < 0x800 then [0xC0 + c / 0x40, 0x80 + c % 0x40]
    else if c < 0x1_0000 then [0xE0 + c / 0x1000, 0x80 + c / 0x40 % 0x40, 0x80 + c % 0x40]
    else [0xF0 + c / 0x4_0000, 0x80 + c / 0x1000 % 0x40, 0x80 + c / 0x40 % 0x40, 0x80 + c % 0x40]
  }

  function Encode(s: seq<Scalar>): Bytes {
    if s == [] then [] else EncodeScalar(s[0]) + Encode(s[1..])
  }

  /** The scalar whose base-64 digits are the given ones. */
  function Digits(x: nat, y: nat, z: nat, w: nat): nat {
    ((x * 0x40 + y) * 0x40 + z) * 0x40 + w
  }

  /** UTF8-2, UTF8-3 and UTF8-4 of the grammar. */
  predicate Starts2(b: Bytes) {
    |b| >= 2 && 0xC2 <= b[0] <= 0xDF && Tail(b[1])
  }

  predicate Starts3(b: Bytes) {
    && |b| >= 3 && 0xE0 <= b[0] <= 0xEF && Tail(b[1]) && Tail(b[2])
    && (b[0] == 0xE0 ==> b[1] >= 0xA0) && (b[0] == 0xED ==> b[1] <= 0x9F)
  }

  predicate Starts4(b: Bytes) {
    && |b| >= 4 && 0xF0 <= b[0] <= 0xF4 && Tail(b[1]) && Tail(b[2]) && Tail(b[3])
    && (b[0] == 0xF0 ==> b[1] >= 0x90) && (b[0] == 0xF4 ==> b[1] <= 0x8F)
  }

  function Scalar2(b: Bytes): Scalar
    requires Starts2(b)
  {
    Digits(0, 0, (b[0] as int) - 0xC0, (b[1] as int) - 0x80)
  }

  function Scalar3(b: Bytes): Scalar
    requires Starts3(b)
  {
    Digits(0, (b[0] as int) - 0xE0, (b[1] as int) - 0x80, (b[2] as int) - 0x80)
  }

  function Scalar4(b: Bytes): Scalar
    requires Starts4(b)
  {
    Digits((b[0] as int) - 0xF0, (b[1] as int) - 0x80, (b[2] as int) - 0x80, (b[3] as int) - 0x80)
  }

  /** The first scalar of b and the octets after it. */
  function DecodeScalar(b: Bytes): (r: Option<(Scalar, Bytes)>)
    ensures r.Some? ==> |r.value.1| < |b|
  {
    if b == [] then None
    else if b[0] < 0x80 then Some((b[0], b[1..]))
    else if Starts2(b) then Some((Scalar2(b), b[2..]))
    else if Starts3(b) then Some((Scalar3(b), b[3..]))
    else if Starts4(b) then Some((Scalar4(b), b[4..]))
    else None
  }

  function Decode(b: Bytes): Option<seq<Scalar>>
    decreases |b|
  {
    if b == [] then Some([])
    else
      var (c, rest) :- DecodeScalar(b);
      var cs :- Decode(rest);
      Some([c] + cs)
  }

  /** What Go's utf8.Valid accepts. */
  predicate Valid(b: Bytes) {
    Decode(b).Some?
  }

  lemma DigitsOf(c: nat)
    requires c < 0x40_0000
    ensures c == Digits(c / 0x4_0000, c / 0x1000 % 0x40, c / 0x40 % 0x40, c % 0x40)
  {
    var q := c / 0x40;
    var p := q / 0x40;
    assert c / 0x1000 == p && c / 0x4_0000 == p / 0x40;
  }

  lemma DigitsUnique(x: nat, y: nat, z: nat, w: nat)
    requires y < 0x40 && z < 0x40 && w < 0x40
    ensures var c := Digits(x, y, z, w);
      c % 0x40 == w && c / 0x40 % 0x40 == z && c / 0x1000 % 0x40 == y && c / 0x4_0000 == x
      && c / 0x1000 == x * 0x40 + y && c / 0x40 == (x * 0x40 + y) * 0x40 + z
  {
  }

  lemma Encoded2(c: Scalar)
    requires 0x80 <= c < 0x800
    ensures var e := EncodeScalar(c); |e| == 2 && Starts2(e) && Scalar2(e) == c
  {
    DigitsOf(c);
  }

  /** The table of section 3 of RFC 3629: how many octets, their leading bits, and the scalar they carry. */
  lemma ScalarOctets(c: Scalar)
    ensures var e := EncodeScalar(c);
      && (c <= 0x7F ==> e == [c])
      && (0x80 <= c <= 0x7FF ==> |e| == 2 && 0xC0 <= e[0] < 0xE0 && c + 0x3080 == (e[0] as int) * 0x40 + e[1])
      && (0x800 <= c <= 0xFFFF ==> |e| == 3 && 0xE0 <= e[0] < 0xF0 && c + 0xE_2080 == (e[0] as int) * 0x1000 + (e[1] as int) * 0x40 + e[2])
      && (0x1_0000 <= c ==>
           |e| == 4 && 0xF0 <= e[0] < 0xF8 && c + 0x3C8_2080 == (e[0] as int) * 0x4_0000 + (e[1] as int) * 0x1000 + (e[2] as int) * 0x40 + e[3])
      && forall i :: 1 <= i < |e| ==> 0x80 <= e[i] < 0xC0
  {
    hide *;
    OctetsBelow(c);
    OctetsAbove(c);
  }

  lemma OctetsBelow(c: Scalar)
    ensures var e := EncodeScalar(c);
      && (c <= 0x7F ==> e == [c])
      && (0x80 <= c <= 0x7FF ==> |e| == 2 && 0xC0 <= e[0] < 0xE0 && 0x80 <= e[1] < 0xC0 && c + 0x3080 == (e[0] as int) * 0x40 + e[1])
  {
  }

  lemma OctetsAbove(c: Scalar)
    ensures var e := EncodeScalar(c);
      && (0x800 <= c <= 0xFFFF ==>
           |e| == 3 && 0xE0 <= e[0] < 0xF0 && 0x80 <= e[1] < 0xC0 && 0x80 <= e[2] < 0xC0
           && c + 0xE_2080 == (e[0] as int) * 0x1000 + (e[1] as int) * 0x40 + e[2])
      && (0x1_0000 <= c ==>
           |e| == 4 && 0xF0 <= e[0] < 0xF8 && (forall i :: 1 <= i < 4 ==> 0x80 <= e[i] < 0xC0)
           && c + 0x3C8_2080 == (e[0] as int) * 0x4_0000 + (e[1] as int) * 0x1000 + (e[2] as int) * 0x40 + e[3])
  {
    DigitsOf(c);
  }

  lemma Encoded3(c: Scalar)
    requires 0x800 <= c < 0x1_0000
    ensures var e := EncodeScalar(c); |e| == 3 && Starts3(e) && Scalar3(e) == c
  {
    DigitsOf(c);
    assert c / 0x1000 < 0x40;
  }

  lemma Encoded4(c: Scalar)
    requires 0x1_0000 <= c
    ensures var e := EncodeScalar(c); |e| == 4 && Starts4(e) && Scalar4(e) == c
  {
    DigitsOf(c);
  }

  lemma ScalarRoundTrip(c: Scalar, rest: Bytes)
    ensures DecodeScalar(EncodeScalar(c) + rest) == Some((c, rest))
  {
    var e := EncodeScalar(c);
    var b := e + rest;
    assert b[|e|..] == rest;
    if c < 0x80 {
    } else {
      if c < 0x800 {
        Encoded2(c);
      } else if c < 0x1_0000 {
        Encoded3(c);
      } else {
        Encoded4(c);
      }
      assert forall i :: 0 <= i < |e| ==> b[i] == e[i];
      hide EncodeScalar, Digits;
    }
  }

  lemma Decoded2(b: Bytes)
    requires Starts2(b)
    ensures EncodeScalar(Scalar2(b)) == [b[0], b[1]]
  {
    DigitsUnique(0, 0, (b[0] as int) - 0xC0, (b[1] as int) - 0x80);
  }

  lemma Decoded3(b: Bytes)
    requires Starts3(b)
    ensures EncodeScalar(Scalar3(b)) == [b[0], b[1], b[2]]
  {
    DigitsUnique(0, (b[0] as int) - 0xE0, (b[1] as int) - 0x80, (b[2] as int) - 0x80);
  }

  lemma Decoded4(b: Bytes)
    requires Starts4(b)
    ensures EncodeScalar(Scalar4(b)) == [b[0], b[1], b[2], b[3]]
  {
    DigitsUnique((b[0] as int) - 0xF0, (b[1] as int) - 0x80, (b[2] as int) - 0x80, (b[3] as int) - 0x80);
  }

  lemma ScalarInverse(b: Bytes)
    requires DecodeScalar(b).Some?
    ensures b == EncodeScalar(DecodeScalar(b).value.0) + DecodeScalar(b).value.1
  {
    if b[0] < 0x80 {
    } else {
      hide EncodeScalar, Digits;
      if Starts2(b) {
        Decoded2(b);
        assert b == [b[0], b[1]] + b[2..];
      } else if Starts3(b) {
        Decoded3(b);
        assert b == [b[0], b[1], b[2]] + b[3..];
      } else {
        Decoded4(b);
        assert b == [b[0], b[1], b[2], b[3]] + b[4..];
      }
    }
  }

  /** Decoding inverts encoding on every sequence of scalars. */
  lemma {:induction false} DecodeEncode(s: seq<Scalar>)
    ensures Decode(Encode(s)) == Some(s)
  {
    if s != [] {
      ScalarRoundTrip(s[0], Encode(s[1..]));
      DecodeEncode(s[1..]);
      assert s == [s[0]] + s[1..];
    }
  }

  /** Every accepted octet string is the encoding of what it decodes to. */
  lemma {:induction false} EncodeDecode(b: Bytes)
    requires Valid(b)
    ensures Encode(Decode(b).value) == b
    decreases |b|
  {
    if b != [] {
      ScalarInverse(b);
      EncodeDecode(DecodeScalar(b).value.1);
      var s := Decode(b).value;
      assert s[1..] == Decode(DecodeScalar(b).value.1).value;
    }
  }

  lemma {:induction false} AsciiIsValid(b: Bytes)
    requires forall x <- b :: x < 0x80
    ensures Valid(b)
  {
    if b != [] {
      assert b[0] in b && forall x <- b[1..] :: x in b;
      AsciiIsValid(b[1..]);
    }
  }

  lemma {:induction false} AfterAscii(a: Bytes, b: Bytes)
    requires forall x <- a :: x < 0x80
    ensures Valid(a + b) <==> Valid(b)
  {
    if a == [] {
      assert a + b == b;
    } else {
      assert a[0] in a && forall x <- a[1..] :: x in a;
      assert (a + b)[1..] == a[1..] + b;
      AfterAscii(a[1..], b);
    }
  }
}
