/** The streaming hash contexts of libcrypt (library/crypt/crypt_md5.c, crypt_sha256.c,
    crypt_sha512.c): struct { len, h, buf }, update, pad and sum are the same code three
    times over block size, length field and compression function. */
module Digest {
  import opened Arith
  import opened Common

  const TWO64: nat := 0x1_0000_0000_0000_0000

  /** One of the three hashes.  `lengthSize` is the size of the length field at the end of
      the last block: 8 bytes, or 16 for SHA-512, of which the first 8 are always zero.  `size`
      is the size of the digest. */
  datatype Alg<!H> = Alg(
    block: nat, lengthSize: nat, bigEndian: bool, size: nat,
    init: H, compress: (H, seq<byte>) -> H, output: H -> seq<byte>)
  {
    ghost predicate Sound() {
      (block == 64 && lengthSize == 8) || (block == 128 && lengthSize == 16)
    }
  }

  function Compress<H>(alg: Alg<H>, h: H, s: seq<byte>): H {
    alg.compress(h, s)
  }

  function Output<H>(alg: Alg<H>, h: H): seq<byte> {
    alg.output(h)
  }

  ghost predicate Sized<H(!new)>(alg: Alg<H>) {
    alg.Sound() && alg.size >= 16 && forall h :: |Output(alg, h)| == alg.size
  }

  // ------------------------------------------------------- the hash, in one go

  function Zeros(n: nat): (s: seq<byte>)
    ensures |s| == n && forall i :: 0 <= i < n ==> s[i] == 0
  {
    seq(n, _ => 0)
  }

  /** The low k bytes of a number, least or most significant first. */
  function Bytes(n: nat, k: nat, bigEndian: bool): (s: seq<byte>)
    ensures |s| == k
  {
    if k == 0 then []
    else if bigEndian then Bytes(n / 256, k - 1, true) + [n % 256]
    else [n % 256] + Bytes(n / 256, k - 1, false)
  }

  /** The part of a message that does not fill a block. */
  function Tail<H>(alg: Alg<H>, m: seq<byte>): (t: seq<byte>)
    requires alg.block > 0
    ensures |t| < alg.block
    decreases |m|
  {
    if |m| < alg.block then m else Tail(alg, m[alg.block..])
  }

  /** A one bit, as few zero bits as possible, and the length field, after a tail of r bytes. */
  function Pad<H>(alg: Alg<H>, r: nat, length: seq<byte>): seq<byte>
    requires alg.Sound() && r < alg.block && |length| == 8
  {
    var end := if r + 1 + alg.lengthSize <= alg.block then alg.block else 2 * alg.block;
    [0x80] + Zeros(end - r - 9) + length
  }

  /** The padding of a message (sections 3.1 and 3.2 of RFC 1321, section 5.1 of FIPS 180-4). */
  function Padding<H>(alg: Alg<H>, m: seq<byte>): seq<byte>
    requires alg.Sound()
  {
    Pad(alg, |Tail(alg, m)|, Bytes(8 * |m| % TWO64, 8, alg.bigEndian))
  }

  /** The compression function folded over whole blocks. */
  function Fold<H>(alg: Alg<H>, h: H, s: seq<byte>): H
    requires alg.block > 0
    decreases |s|
  {
    if |s| < alg.block then h else Fold(alg, Compress(alg, h, s[..alg.block]), s[alg.block..])
  }

  function Hash<H>(alg: Alg<H>, m: seq<byte>): seq<byte>
    requires alg.Sound()
  {
    Output(alg, Fold(alg, alg.init, m + Padding(alg, m)))
  }

  // ------------------------------------------------------------------ lemmas

  lemma {:induction false} TailLength<H>(alg: Alg<H>, m: seq<byte>)
    requires alg.Sound()
    ensures |Tail(alg, m)| == |m| % alg.block
    decreases |m|
  {
    if |m| >= alg.block {
      TailLength(alg, m[alg.block..]);
      ModMinus(|m|, alg.block);
    }
  }

  /** The padding leads to the next block boundary after room for the bit and the length. */
  lemma PaddingFits<H>(alg: Alg<H>, m: seq<byte>)
    requires alg.Sound()
    ensures (|m| + |Padding(alg, m)|) % alg.block == 0
    ensures 1 + alg.lengthSize <= |Padding(alg, m)| < 1 + alg.lengthSize + alg.block
  {
    TailLength(alg, m);
    Boundary(|m|, alg.block, |Padding(alg, m)|);
  }

  lemma Boundary(n: nat, block: nat, p: nat)
    requires block == 64 || block == 128
    requires p == block - n % block || p == 2 * block - n % block
    ensures (n + p) % block == 0
  {
  }

  /** The length of the tail is what the C code computes from its wrapped byte count. */
  lemma Remainder<H>(alg: Alg<H>, m: seq<byte>)
    requires alg.Sound()
    ensures (|m| % TWO64) % alg.block == |Tail(alg, m)|
  {
    TailLength(alg, m);
    WrapAround(|m|, alg.block);
  }

  /** Appending to a message only concerns its tail. */
  lemma {:induction false} Absorbed<H>(alg: Alg<H>, h: H, m: seq<byte>, x: seq<byte>)
    requires alg.block > 0
    ensures Fold(alg, h, m + x) == Fold(alg, Fold(alg, h, m), Tail(alg, m) + x)
    ensures Tail(alg, m + x) == Tail(alg, Tail(alg, m) + x)
    decreases |m|
  {
    var n := alg.block;
    if |m| >= n {
      assert (m + x)[..n] == m[..n] && (m + x)[n..] == m[n..] + x;
      Absorbed(alg, Compress(alg, h, m[..n]), m[n..], x);
    }
  }

  /** Topping the tail up to a block first. */
  lemma ToppedUp<H>(alg: Alg<H>, h: H, t: seq<byte>, x: seq<byte>)
    requires |t| < alg.block <= |t| + |x|
    ensures var p := alg.block - |t|;
      && Fold(alg, h, t + x) == Fold(alg, Compress(alg, h, t + x[..p]), x[p..])
      && Tail(alg, t + x) == Tail(alg, x[p..])
  {
    var p := alg.block - |t|;
    assert (t + x)[..alg.block] == t + x[..p] && (t + x)[alg.block..] == x[p..];
  }

  /** The byte count wraps at 2^64, which no block size notices. */
  lemma WrapAround(n: nat, block: nat)
    requires block == 64 || block == 128
    ensures (n % TWO64) % block == n % block
  {
    var q, r := n / TWO64, n % TWO64;
    if block == 64 {
      Drop64(0x0400_0000_0000_0000 * q, r);
    } else {
      Drop128(0x0200_0000_0000_0000 * q, r);
    }
  }

  lemma Drop64(k: nat, r: nat)
    ensures (64 * k + r) % 64 == r % 64
  {
  }

  lemma Drop128(k: nat, r: nat)
    ensures (128 * k + r) % 128 == r % 128
  {
  }

  lemma WrapBits(n: nat)
    ensures 8 * (n % TWO64) % TWO64 == 8 * n % TWO64
  {
    var q := n / TWO64;
    assert 8 * n == TWO64 * (8 * q) + 8 * (n % TWO64);
  }

  lemma WrapSum(n: nat, k: nat)
    ensures (n % TWO64 + k) % TWO64 == (n + k) % TWO64
  {
  }

  lemma OneBlock<H>(alg: Alg<H>, h: H, s: seq<byte>)
    requires alg.block == |s| > 0
    ensures Fold(alg, h, s) == Compress(alg, h, s)
  {
    assert s[..alg.block] == s;
  }

  lemma TwoBlocks<H>(alg: Alg<H>, h: H, s: seq<byte>, s': seq<byte>)
    requires alg.block == |s| == |s'| > 0
    ensures Fold(alg, h, s + s') == Compress(alg, Compress(alg, h, s), s')
  {
    assert (s + s')[..alg.block] == s && (s + s')[alg.block..] == s';
    OneBlock(alg, Compress(alg, h, s), s');
  }

  lemma SplitZeros(t: seq<byte>, a: nat, b: nat, x: seq<byte>)
    ensures t + ([0x80] + Zeros(a + b) + x) == (t + [0x80] + Zeros(a)) + (Zeros(b) + x)
  {
    assert Zeros(a + b) == Zeros(a) + Zeros(b);
  }

  lemma Flatten(a: seq<byte>, b: seq<byte>, c: seq<byte>, d: seq<byte>)
    ensures a + (b + c + d) == a + b + c + d
  {
  }

  /** What sum compresses: the tail filled up to one block, or to two when the length does
      not fit. */
  function Finish<H>(alg: Alg<H>, h: H, t: seq<byte>, length: seq<byte>): H
    requires alg.Sound() && |t| < alg.block && |length| == 8
  {
    var z := alg.block - |t| - 1;
    if |t| + 1 > alg.block - alg.lengthSize
    then Compress(alg, Compress(alg, h, t + [0x80] + Zeros(z)), Zeros(alg.block - 8) + length)
    else Compress(alg, h, t + [0x80] + Zeros(z - 8) + length)
  }

  lemma Finished<H>(alg: Alg<H>, h: H, t: seq<byte>, length: seq<byte>)
    requires alg.Sound() && |t| < alg.block && |length| == 8
    ensures Fold(alg, h, t + Pad(alg, |t|, length)) == Finish(alg, h, t, length)
  {
    var z := alg.block - |t| - 1;
    if |t| + 1 > alg.block - alg.lengthSize {
      var first, second := t + [0x80] + Zeros(z), Zeros(alg.block - 8) + length;
      assert Pad(alg, |t|, length) == [0x80] + Zeros(z + (alg.block - 8)) + length;
      SplitZeros(t, z, alg.block - 8, length);
      TwoBlocks(alg, h, first, second);
    } else {
      var last := t + [0x80] + Zeros(z - 8) + length;
      assert Pad(alg, |t|, length) == [0x80] + Zeros(z - 8) + length;
      Flatten(t, [0x80], Zeros(z - 8), length);
      OneBlock(alg, h, last);
    }
  }

  lemma HashFinished<H>(alg: Alg<H>, m: seq<byte>)
    requires alg.Sound()
    ensures |Tail(alg, m)| == (|m| % TWO64) % alg.block
    ensures Hash(alg, m) == Output(alg, Finish(alg, Fold(alg, alg.init, m), Tail(alg, m),
                                              Bytes(8 * (|m| % TWO64) % TWO64, 8, alg.bigEndian)))
  {
    Remainder(alg, m);
    WrapBits(|m|);
    Absorbed(alg, alg.init, m, Padding(alg, m));
    Finished(alg, Fold(alg, alg.init, m), Tail(alg, m), Bytes(8 * |m| % TWO64, 8, alg.bigEndian));
  }

  // ----------------------------------------------------------------- contexts

  lemma Appended<H>(alg: Alg<H>, m: seq<byte>, x: seq<byte>)
    requires alg.Sound()
    ensures Fold(alg, alg.init, m + x) == Fold(alg, Fold(alg, alg.init, m), Tail(alg, m) + x)
    ensures Tail(alg, m + x) == Tail(alg, Tail(alg, m) + x)
    ensures (|m| % TWO64 + |x|) % TWO64 == |m + x| % TWO64
  {
    Absorbed(alg, alg.init, m, x);
    WrapSum(|m|, |x|);
  }

  /** memcpy. */
  method Copy(a: array<byte>, at: nat, s: seq<byte>)
    requires at + |s| <= a.Length
    modifies a
    ensures a[..at + |s|] == old(a[..at]) + s && a[at + |s|..] == old(a[at + |s|..])
  {
    forall i | 0 <= i < |s| {
      a[at + i] := s[i];
    }
  }

  /** The loop over whole blocks; what it leaves starts at m[p]. */
  method Absorb<H>(alg: Alg<H>, h0: H, m: seq<byte>) returns (h: H, p: nat)
    requires alg.block > 0
    ensures h == Fold(alg, h0, m) && p <= |m| && m[p..] == Tail(alg, m)
  {
    h, p := h0, 0;
    assert m[p..] == m;
    while |m| - p >= alg.block
      invariant p <= |m|
      invariant Fold(alg, h, m[p..]) == Fold(alg, h0, m) && Tail(alg, m[p..]) == Tail(alg, m)
    {
      assert m[p..][..alg.block] == m[p..p + alg.block] && m[p..][alg.block..] == m[p + alg.block..];
      h := Compress(alg, h, m[p..p + alg.block]);
      p := p + alg.block;
    }
  }

  class Context<H> {
    const alg: Alg<H>
    var len: nat
    var h: H
    const buf: array<byte>
    ghost var msg: seq<byte>

    /** h holds the whole blocks of the message so far, buf the bytes after them. */
    ghost predicate Valid()
      reads this, buf
    {
      && Ready() && len == |msg| % TWO64
      && h == Fold(alg, alg.init, msg) && buf[..|Tail(alg, msg)|] == Tail(alg, msg)
    }

    constructor (alg: Alg<H>)
      requires alg.Sound()
      ensures Valid() && fresh(buf) && this.alg == alg && msg == []
    {
      this.alg, len, h, msg := alg, 0, alg.init, [];
      buf := new byte[alg.block];
    }

    ghost predicate Ready() {
      alg.Sound() && buf.Length == alg.block
    }

    method Init()
      requires Ready()
      modifies this
      ensures Valid() && msg == []
    {
      len, h, msg := 0, alg.init, [];
    }

    /** The number of bytes in use in the buffer. */
    method Used() returns (r: nat)
      requires Valid()
      ensures r == |Tail(alg, msg)|
    {
      Remainder(alg, msg);
      r := len % alg.block;
    }

    /** update: any cut of a message into calls leaves the same state. */
    method Update(m: seq<byte>)
      requires Valid()
      modifies this, buf
      ensures Valid() && msg == old(msg) + m
    {
      Appended(alg, msg, m);
      ghost var t := Tail(alg, msg);
      var r := Used();
      len, msg := (len + |m|) % TWO64, msg + m;
      var p := 0;
      if r != 0 {
        if |m| < alg.block - r {
          Copy(buf, r, m);
          return;
        }
        p := alg.block - r;
        Copy(buf, r, m[..p]);
        h := Compress(alg, h, buf[..alg.block]);
        ToppedUp(alg, old(h), t, m);
      }
      assert r == 0 ==> t + m == m[p..];
      var left;
      h, left := Absorb(alg, h, m[p..]);
      var rest := m[p..][left..];
      Copy(buf, 0, rest);
      assert buf[..|rest|] == rest;
    }

    /** sum: pads, compresses the last one or two blocks and puts out the digest. */
    method Sum() returns (md: seq<byte>)
      requires Valid()
      modifies this, buf
      ensures md == Hash(alg, old(msg))
    {
      HashFinished(alg, msg);
      ghost var t := Tail(alg, msg);
      var r := len % alg.block;
      buf[r] := 0x80;
      r := r + 1;
      assert buf[..r] == t + [0x80];
      if r > alg.block - alg.lengthSize {
        Copy(buf, r, Zeros(alg.block - r));
        h := Compress(alg, h, buf[..alg.block]);
        assert h == Compress(alg, old(h), t + [0x80] + Zeros(alg.block - r));
        r := 0;
      }
      ghost var start := buf[..r];
      Copy(buf, r, Zeros(alg.block - 8 - r));
      assert start == [] ==> buf[..alg.block - 8] == Zeros(alg.block - 8);
      len := 8 * len % TWO64;
      Copy(buf, alg.block - 8, Bytes(len, 8, alg.bigEndian));
      h := Compress(alg, h, buf[..alg.block]);
      assert h == Finish(alg, old(h), t, Bytes(len, 8, alg.bigEndian));
      md := Output(alg, h);
    }
  }

  function Concat(chunks: seq<seq<byte>>): seq<byte> {
    if chunks == [] then [] else Concat(chunks[..|chunks| - 1]) + chunks[|chunks| - 1]
  }

  /** However a message is cut into update calls, the digest is that of the whole. */
  method SumOfChunks<H>(alg: Alg<H>, chunks: seq<seq<byte>>) returns (md: seq<byte>)
    requires alg.Sound()
    ensures md == Hash(alg, Concat(chunks))
  {
    var ctx := new Context(alg);
    for i := 0 to |chunks|
      invariant ctx.Valid() && ctx.msg == Concat(chunks[..i])
    {
      assert chunks[..i + 1][..i] == chunks[..i];
      ctx.Update(chunks[i]);
    }
    assert chunks[..|chunks|] == chunks;
    md := ctx.Sum();
  }
}
