/** The padding of the digests byte by byte (library/crypt/crypt_md5.c, crypt_sha256.c, crypt_sha512.c;
    sections 3.1 and 3.2 of RFC 1321, section 5.1 of FIPS 180-4). */
module DigestPadding {
  import opened Arith
  import opened Common
  import opened Digest

  function Power256(i: nat): (p: nat)
    ensures p > 0
  {
    if i == 0 then 1 else 256 * Power256(i - 1)
  }

  lemma DivideOnce(n: nat, m: nat)
    requires m > 0
    ensures n / 256 / m == n / (256 * m)
  {
    var q, r := n / 256 / m, n / 256 % m;
    assert n / 256 == m * q + r;
    assert n == (256 * m) * q + (256 * r + n % 256) by {
      assert 256 * (m * q + r) == 256 * (m * q) + 256 * r;
      assert 256 * (m * q) == (256 * m) * q;
    }
    IsQuotient(n, 256 * m, q, 256 * r + n % 256);
  }

  /** Byte i of a number stands at place i, or at place i from the end. */
  lemma {:induction false} BytesAt(n: nat, k: nat, i: nat)
    requires i < k
    ensures Bytes(n, k, false)[i] == n / Power256(i) % 256
    ensures Bytes(n, k, true)[k - 1 - i] == n / Power256(i) % 256
    decreases k
  {
    if i > 0 {
      BytesAt(n / 256, k - 1, i - 1);
      DivideOnce(n, Power256(i - 1));
    }
  }

  /** p is m with its padding: a one bit, zeros, and the number of bits modulo 2^64 in the last eight
      bytes, in the order of the algorithm; p fills whole blocks and is as short as can be. */
  ghost predicate IsPadded<H>(alg: Alg<H>, m: seq<byte>, p: seq<byte>)
    requires alg.Sound()
  {
    && |p| % alg.block == 0 && |m| + 1 + alg.lengthSize <= |p| < |m| + 1 + alg.lengthSize + alg.block
    && m <= p && p[|m|] == 0x80 && (forall i :: |m| < i < |p| - 8 ==> p[i] == 0)
    && forall i :: 0 <= i < 8 ==> p[|p| - 8 + LengthPlace(alg, i)] == 8 * |m| % TWO64 / Power256(i) % 256
  }

  function LengthPlace<H>(alg: Alg<H>, i: nat): (j: nat)
    requires i < 8
    ensures j < 8
  {
    if alg.bigEndian then 7 - i else i
  }

  lemma PaddedLength<H>(alg: Alg<H>, m: seq<byte>, i: nat)
    requires alg.Sound() && i < 8
    ensures var p := Padding(alg, m); |p| >= 8 && p[|p| - 8 + LengthPlace(alg, i)] == 8 * |m| % TWO64 / Power256(i) % 256
  {
    BytesAt(8 * |m| % TWO64, 8, i);
  }

  /** md is what the blocks of the padded message give. */
  ghost predicate IsHash<H>(alg: Alg<H>, m: seq<byte>, md: seq<byte>)
    requires alg.Sound()
  {
    exists p :: IsPadded(alg, m, p) && md == Output(alg, Fold(alg, alg.init, p))
  }

  lemma HashIs<H>(alg: Alg<H>, m: seq<byte>)
    requires alg.Sound()
    ensures IsHash(alg, m, Hash(alg, m))
  {
    var p := m + Padding(alg, m);
    PaddingFits(alg, m);
    forall i | 0 <= i < 8
      ensures p[|p| - 8 + LengthPlace(alg, i)] == 8 * |m| % TWO64 / Power256(i) % 256
    {
      PaddedLength(alg, m, i);
    }
    assert IsPadded(alg, m, p);
  }

  lemma SameBoundary(a: nat, b: nat, low: nat, block: nat)
    requires (block == 64 || block == 128) && a % block == 0 && b % block == 0
    requires low <= a < low + block && low <= b < low + block
    ensures a == b
  {
  }

  /** A message has one padding. */
  lemma PaddedOnce<H>(alg: Alg<H>, m: seq<byte>, p: seq<byte>, q: seq<byte>)
    requires alg.Sound() && IsPadded(alg, m, p) && IsPadded(alg, m, q)
    ensures p == q
  {
    SameBoundary(|p|, |q|, |m| + 1 + alg.lengthSize, alg.block);
    forall i | 0 <= i < |p|
      ensures p[i] == q[i]
    {
      if i >= |p| - 8 {
        var j := i - (|p| - 8);
        var k := LengthPlace(alg, j);
        assert LengthPlace(alg, k) == j;
        assert p[|p| - 8 + LengthPlace(alg, k)] == q[|q| - 8 + LengthPlace(alg, k)];
      }
    }
  }

  /** The last block is compressed last, on what the blocks before it gave. */
  lemma FoldLast<H>(alg: Alg<H>, h: H, s: seq<byte>, b: seq<byte>)
    requires alg.block > 0 && Tail(alg, s) == [] && |b| == alg.block
    ensures Fold(alg, h, []) == h && Fold(alg, h, s + b) == Compress(alg, Fold(alg, h, s), b)
  {
    Absorbed(alg, h, s, b);
    assert [] + b == b;
    OneBlock(alg, Fold(alg, h, s), b);
  }
}
