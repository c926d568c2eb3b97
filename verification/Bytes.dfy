/** Octets, fixed-width integers and big-endian encodings (section 1 of spec/ALGORITHMS.md). */
module ByteStrings {

  type byte = b: int | 0 <= b < 0x100
  type Bytes = seq<byte>

  const TWO_32: nat := 0x1_0000_0000
  const TWO_64: nat := 0x1_0000_0000_0000_0000

  type u64 = x: int | 0 <= x < 0x1_0000_0000_0000_0000

  /** 256^k. */
  function Pow256(k: nat): (r: nat)
    ensures r > 0
  {
    if k == 0 then 1 else 0x100 * Pow256(k - 1)
  }

  /** The low k octets of x, most significant first. */
  function BigEndian(x: nat, k: nat): (r: Bytes)
    ensures |r| == k
  {
    if k == 0 then [] else BigEndian(x / 0x100, k - 1) + [x % 0x100]
  }

  /** The number a big-endian octet string denotes. */
  function FromBigEndian(b: Bytes): (r: nat)
    ensures r < Pow256(|b|)
  {
    if b == [] then 0 else FromBigEndian(b[..|b| - 1]) * 0x100 + b[|b| - 1]
  }

  lemma {:induction false} FromToBigEndian(x: nat, k: nat)
    requires x < Pow256(k)
    ensures FromBigEndian(BigEndian(x, k)) == x
  {
    if k > 0 {
      FromToBigEndian(x / 0x100, k - 1);
      var b := BigEndian(x, k);
      assert b[..k - 1] == BigEndian(x / 0x100, k - 1);
    }
  }

  lemma {:induction false} ToFromBigEndian(b: Bytes)
    ensures BigEndian(FromBigEndian(b), |b|) == b
  {
    if b != [] {
      ToFromBigEndian(b[..|b| - 1]);
      assert b == b[..|b| - 1] + [b[|b| - 1]];
    }
  }

  /** Octet i of a big-endian number counts the powers of 256 above the k - 1 - i lower octets. */
  lemma {:induction false} BigEndianAt(x: nat, k: nat, i: nat)
    requires i < k
    ensures BigEndian(x, k)[i] == x / Pow256(k - 1 - i) % 0x100
  {
    if i < k - 1 {
      BigEndianAt(x / 0x100, k - 1, i);
      QuotientOfQuotient(x, Pow256(k - 2 - i));
    }
  }

  lemma QuotientOfQuotient(x: nat, d: nat)
    requires d > 0
    ensures x / 0x100 / d == x / (0x100 * d)
  {
    var q := x / (0x100 * d);
    var r := x - q * (0x100 * d);
    assert x / 0x100 == q * d + r / 0x100;
    assert r / 0x100 < d;
    QuotientIs(q, d, r / 0x100);
  }

  lemma QuotientIs(q: nat, d: nat, r: nat)
    requires r < d
    ensures (q * d + r) / d == q
  {
    var m := (q * d + r) / d;
    assert m * d <= q * d + r < m * d + d;
    assert (q - m) * d == q * d - m * d;
    MultiplesApart(q - m, d);
  }

  lemma MultiplesApart(k: int, d: nat)
    ensures (k >= 1 ==> k * d >= d) && (k <= -1 ==> k * d <= -(d as int))
  {
  }

  lemma Powers()
    ensures Pow256(1) == 0x100
    ensures Pow256(2) == 0x1_0000
    ensures Pow256(4) == TWO_32
    ensures Pow256(8) == TWO_64
  {
    assert Pow256(2) == 0x1_0000;
    assert Pow256(4) == 0x100 * (0x100 * Pow256(2));
    assert Pow256(6) == 0x100 * (0x100 * Pow256(4));
    assert Pow256(8) == 0x100 * (0x100 * Pow256(6));
  }

  /** The shifts and masks by which the C and TypeScript writers lay out a 32-bit number. */
  lemma FourOctets(n: nat)
    ensures BigEndian(n, 4) ==
      [n / 0x100_0000 % 0x100, n / 0x1_0000 % 0x100, n / 0x100 % 0x100, n % 0x100]
  {
    var a, b, c := n / 0x100, n / 0x1_0000, n / 0x100_0000;
    assert b == a / 0x100 && c == b / 0x100;
    assert BigEndian(c, 1) == [c % 0x100] by {
      assert BigEndian(c / 0x100, 0) == [];
    }
    assert BigEndian(b, 2) == BigEndian(c, 1) + [b % 0x100];
    assert BigEndian(a, 3) == BigEndian(b, 2) + [a % 0x100];
    assert BigEndian(n, 4) == BigEndian(a, 3) + [n % 0x100];
  }
}
