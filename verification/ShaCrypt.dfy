/** The key stretching of SHA-crypt and MD5-crypt (library/crypt/crypt_sha256.c,
    crypt_sha512.c, crypt_md5.c). */
module ShaCrypt {
  import opened Arith
  import opened Common
  import opened Digest

  // ------------------------------------------------------------ specification

  /** The first n bytes of a digest repeated for ever. */
  function Repeated(md: seq<byte>, n: nat): (s: seq<byte>)
    requires |md| > 0
    ensures |s| == n
    decreases n
  {
    if n <= |md| then md[..n] else md + Repeated(md, n - |md|)
  }

  lemma {:induction false} RepeatedAt(md: seq<byte>, n: nat, i: nat)
    requires |md| > 0 && i < n
    ensures Repeated(md, n)[i] == md[i % |md|]
    decreases n
  {
    if n > |md| && i >= |md| {
      RepeatedAt(md, n - |md|, i - |md|);
      ModMinus(i, |md|);
    } else {
      assert i % |md| == i by { Exceeds(i / |md|, |md|, i - i % |md|); }
    }
  }

  function Times(s: seq<byte>, n: nat): seq<byte> {
    if n == 0 then [] else Times(s, n - 1) + s
  }

  /** One string for each bit of n, least significant first. */
  function PerBit(n: nat, one: seq<byte>, zero: seq<byte>): seq<byte> {
    if n == 0 then [] else (if n % 2 == 1 then one else zero) + PerBit(n / 2, one, zero)
  }

  /** What round i hashes, from the last digest and two strings. */
  function RoundInput(i: nat, a: seq<byte>, p: seq<byte>, s: seq<byte>): seq<byte> {
    (if i % 2 != 0 then p else a) + (if i % 3 != 0 then s else []) + (if i % 7 != 0 then p else [])
    + (if i % 2 != 0 then a else p)
  }

  function Rounds<H>(alg: Alg<H>, n: nat, a: seq<byte>, p: seq<byte>, s: seq<byte>): seq<byte>
    requires alg.Sound()
  {
    if n == 0 then a else Hash(alg, RoundInput(n - 1, Rounds(alg, n - 1, a, p, s), p, s))
  }

  ghost function DigestB<H(!new)>(alg: Alg<H>, key: seq<byte>, salt: seq<byte>): (b: seq<byte>)
    requires Sized(alg)
    ensures |b| == alg.size
  {
    Hash(alg, key + salt + key)
  }

  ghost function DigestA<H(!new)>(alg: Alg<H>, key: seq<byte>, salt: seq<byte>): (a: seq<byte>)
    requires Sized(alg)
    ensures |a| == alg.size
  {
    var b := DigestB(alg, key, salt);
    Hash(alg, key + salt + Repeated(b, |key|) + PerBit(|key|, b, key))
  }

  ghost function DigestP<H(!new)>(alg: Alg<H>, key: seq<byte>): (p: seq<byte>)
    requires Sized(alg)
    ensures |p| == alg.size
  {
    Hash(alg, Times(key, |key|))
  }

  ghost function DigestS<H(!new)>(alg: Alg<H>, key: seq<byte>, salt: seq<byte>): (s: seq<byte>)
    requires Sized(alg)
    ensures |s| == alg.size
  {
    var a0: int := DigestA(alg, key, salt)[0];
    Hash(alg, Times(salt, 16 + a0))
  }

  /** The SHA-crypt digest of a key and a salt. */
  ghost function ShaDigest<H(!new)>(alg: Alg<H>, key: seq<byte>, salt: seq<byte>, rounds: nat): (md: seq<byte>)
    requires Sized(alg) && |salt| <= 16
    ensures |md| == alg.size
  {
    var p := Repeated(DigestP(alg, key), |key|);
    var s := DigestS(alg, key, salt)[..|salt|];
    Rounds(alg, rounds, DigestA(alg, key, salt), p, s)
  }

  /** The MD5-crypt digest; prefix is "$1$". */
  ghost function Md5Digest<H(!new)>(alg: Alg<H>, prefix: seq<byte>, key: seq<byte>, salt: seq<byte>): (md: seq<byte>)
    requires Sized(alg)
    ensures |md| == alg.size
  {
    var first := if key == [] then [] else key[..1];
    var b := DigestB(alg, key, salt);
    var a := Hash(alg, key + prefix + salt + Repeated(b, |key|) + PerBit(|key|, [0], first));
    Rounds(alg, 1000, a, key, salt)
  }

  // ------------------------------------------------------------- what is hashed

  /** The text of round i, piece by piece: it starts with p and ends with a if i is odd, the other
      way round if i is even; s stands after the first piece unless 3 divides i, and p once more
      before the last unless 7 divides i. */
  ghost predicate IsRound(i: nat, a: seq<byte>, p: seq<byte>, s: seq<byte>, text: seq<byte>) {
    var n, first, last := |text|, if i % 2 == 1 then |p| else |a|, if i % 2 == 1 then |a| else |p|;
    && n == |a| + |p| + (if i % 3 == 0 then 0 else |s|) + (if i % 7 == 0 then 0 else |p|)
    && (i % 2 == 1 ==> text[..first] == p && text[n - last..] == a)
    && (i % 2 == 0 ==> text[..first] == a && text[n - last..] == p)
    && (i % 3 != 0 ==> text[first..first + |s|] == s)
    && (i % 7 != 0 ==> text[n - last - |p|..n - last] == p)
  }

  lemma Slices(a: seq<byte>, b: seq<byte>, c: seq<byte>, d: seq<byte>)
    ensures var t := a + b + c + d;
      && t[..|a|] == a && t[|a|..|a| + |b|] == b && t[|t| - |d| - |c|..|t| - |d|] == c && t[|t| - |d|..] == d
  {
  }

  lemma RoundInputIs(i: nat, a: seq<byte>, p: seq<byte>, s: seq<byte>)
    ensures IsRound(i, a, p, s, RoundInput(i, a, p, s))
  {
    Slices(if i % 2 != 0 then p else a, if i % 3 != 0 then s else [], if i % 7 != 0 then p else [], if i % 2 != 0 then a else p);
  }

  lemma Parts(text: seq<byte>, i: nat, j: nat, k: nat)
    requires i <= j <= k <= |text|
    ensures text == text[..i] + text[i..j] + text[j..k] + text[k..]
  {
  }

  lemma RoundOnce(i: nat, a: seq<byte>, p: seq<byte>, s: seq<byte>, text: seq<byte>)
    requires IsRound(i, a, p, s, text)
    ensures text == RoundInput(i, a, p, s)
  {
    var n, first, last := |text|, if i % 2 == 1 then |p| else |a|, if i % 2 == 1 then |a| else |p|;
    Parts(text, first, first + if i % 3 == 0 then 0 else |s|, n - last);
  }

  /** md is the digest of the text of round i. */
  ghost predicate IsRoundDigest<H>(alg: Alg<H>, i: nat, a: seq<byte>, p: seq<byte>, s: seq<byte>, md: seq<byte>)
    requires alg.Sound()
  {
    exists text :: IsRound(i, a, p, s, text) && md == Hash(alg, text)
  }

  lemma RoundDigestIs<H>(alg: Alg<H>, i: nat, a: seq<byte>, p: seq<byte>, s: seq<byte>)
    requires alg.Sound()
    ensures IsRoundDigest(alg, i, a, p, s, Hash(alg, RoundInput(i, a, p, s)))
  {
    RoundInputIs(i, a, p, s);
  }

  function Power2(k: nat): (p: nat)
    ensures p > 0
  {
    if k == 0 then 1 else 2 * Power2(k - 1)
  }

  /** Bit k of n chooses piece k, and n has that many bits. */
  ghost predicate IsPerBit(n: nat, one: seq<byte>, zero: seq<byte>, pieces: seq<seq<byte>>) {
    && n < Power2(|pieces|) && (pieces != [] ==> Power2(|pieces| - 1) <= n)
    && forall k :: 0 <= k < |pieces| ==> pieces[k] == if n / Power2(k) % 2 == 1 then one else zero
  }

  lemma HalveOnce(n: nat, m: nat)
    requires m > 0
    ensures n / 2 / m == n / (2 * m)
  {
    var q, r := n / 2 / m, n / 2 % m;
    assert n == (2 * m) * q + (2 * r + n % 2) by {
      assert n / 2 == m * q + r;
      assert 2 * (m * q) == (2 * m) * q;
    }
    IsQuotient(n, 2 * m, q, 2 * r + n % 2);
  }

  lemma {:induction false} ConcatFirst(x: seq<byte>, pieces: seq<seq<byte>>)
    ensures Concat([x] + pieces) == x + Concat(pieces)
    decreases |pieces|
  {
    var s := [x] + pieces;
    if pieces == [] {
      assert s[..0] == [];
    } else {
      var front, last := pieces[..|pieces| - 1], pieces[|pieces| - 1];
      assert s[..|s| - 1] == [x] + front && s[|s| - 1] == last;
      ConcatFirst(x, front);
      Associate(x, Concat(front), last);
    }
  }

  lemma NextBit(n: nat, one: seq<byte>, zero: seq<byte>, pieces: seq<seq<byte>>, k: nat)
    requires n > 0 && IsPerBit(n / 2, one, zero, pieces) && k <= |pieces|
    ensures var x := if n % 2 == 1 then one else zero;
      ([x] + pieces)[k] == if n / Power2(k) % 2 == 1 then one else zero
  {
    if k > 0 {
      HalveOnce(n, Power2(k - 1));
    }
  }

  lemma {:induction false} PerBitIs(n: nat, one: seq<byte>, zero: seq<byte>) returns (pieces: seq<seq<byte>>)
    ensures IsPerBit(n, one, zero, pieces) && PerBit(n, one, zero) == Concat(pieces)
    decreases n
  {
    if n == 0 {
      pieces := [];
    } else {
      var x := if n % 2 == 1 then one else zero;
      var rest := PerBitIs(n / 2, one, zero);
      pieces := [x] + rest;
      ConcatFirst(x, rest);
      forall k | 0 <= k < |pieces|
        ensures pieces[k] == if n / Power2(k) % 2 == 1 then one else zero
      {
        NextBit(n, one, zero, rest, k);
      }
    }
  }

  /** n copies of s. */
  ghost predicate IsTimes(s: seq<byte>, n: nat, pieces: seq<seq<byte>>) {
    |pieces| == n && forall k :: 0 <= k < n ==> pieces[k] == s
  }

  lemma {:induction false} TimesIs(s: seq<byte>, n: nat) returns (pieces: seq<seq<byte>>)
    ensures IsTimes(s, n, pieces) && Times(s, n) == Concat(pieces)
  {
    if n == 0 {
      pieces := [];
    } else {
      var front := TimesIs(s, n - 1);
      pieces := front + [s];
      assert pieces[..n - 1] == front;
    }
  }

  // ---------------------------------------------------------------- transcripts

  /** key salt key. */
  ghost predicate IsTextB(key: seq<byte>, salt: seq<byte>, text: seq<byte>) {
    |text| == 2 * |key| + |salt| && text[..|key|] == key && text[|key|..|key| + |salt|] == salt && text[|key| + |salt|..] == key
  }

  /** s is made of n bytes of a digest that is repeated. */
  ghost predicate IsRepeated(md: seq<byte>, n: nat, s: seq<byte>) {
    |md| > 0 && |s| == n && forall i :: 0 <= i < n ==> s[i] == md[i % |md|]
  }

  /** The key, the string after it, as much of b as the key is long, and the bits of that length. */
  ghost predicate IsTextA(key: seq<byte>, middle: seq<byte>, b: seq<byte>, pieces: seq<seq<byte>>, text: seq<byte>) {
    var k, m := |key|, |middle|;
    && |text| == 2 * k + m + |Concat(pieces)|
    && text[..k] == key && text[k..k + m] == middle && IsRepeated(b, k, text[k + m..2 * k + m]) && text[2 * k + m..] == Concat(pieces)
  }

  lemma TextAIs(key: seq<byte>, middle: seq<byte>, b: seq<byte>, pieces: seq<seq<byte>>)
    requires |b| > 0
    ensures IsTextA(key, middle, b, pieces, key + middle + Repeated(b, |key|) + Concat(pieces))
  {
    var text := key + middle + Repeated(b, |key|) + Concat(pieces);
    Slices(key, middle, Repeated(b, |key|), Concat(pieces));
    RepeatedIs(b, |key|);
  }

  lemma RepeatedIs(md: seq<byte>, n: nat)
    requires |md| > 0
    ensures IsRepeated(md, n, Repeated(md, n))
  {
    forall i | 0 <= i < n
      ensures Repeated(md, n)[i] == md[i % |md|]
    {
      RepeatedAt(md, n, i);
    }
  }

  /** One digest after the other, each of the text of its round. */
  ghost predicate IsChain<H>(alg: Alg<H>, p: seq<byte>, s: seq<byte>, digests: seq<seq<byte>>)
    requires alg.Sound()
  {
    digests != [] && forall i: nat {:trigger digests[i]} :: i < |digests| - 1 ==> IsRoundDigest(alg, i, digests[i], p, s, digests[i + 1])
  }

  lemma {:induction false} ChainIs<H>(alg: Alg<H>, n: nat, a: seq<byte>, p: seq<byte>, s: seq<byte>) returns (digests: seq<seq<byte>>)
    requires alg.Sound()
    ensures |digests| == n + 1 && digests[0] == a && digests[n] == Rounds(alg, n, a, p, s) && IsChain(alg, p, s, digests)
  {
    if n == 0 {
      digests := [a];
    } else {
      var front := ChainIs(alg, n - 1, a, p, s);
      var last := Rounds(alg, n, a, p, s);
      RoundDigestIs(alg, n - 1, front[n - 1], p, s);
      digests := front + [last];
      forall i: nat {:trigger digests[i]} | i < n
        ensures IsRoundDigest(alg, i, digests[i], p, s, digests[i + 1])
      {
        if i < n - 1 {
          assert IsRoundDigest(alg, i, front[i], p, s, front[i + 1]);
        }
      }
    }
  }

  /** The texts that are hashed on the way to a digest: those of B and A, the pieces of A's end, of
      DP and of DS, the two strings of the rounds, and the digest before and after each round. */
  datatype Transcript = Transcript(b: seq<byte>, a: seq<byte>, bits: seq<seq<byte>>, keys: seq<seq<byte>>,
                                   salts: seq<seq<byte>>, p: seq<byte>, s: seq<byte>, digests: seq<seq<byte>>)

  /** The strings of the rounds: key and salt are hashed, the salt as often as the first byte of A says. */
  ghost predicate IsStrings<H>(alg: Alg<H>, key: seq<byte>, salt: seq<byte>, a: seq<byte>, t: Transcript)
    requires alg.Sound() && |a| > 0
  {
    && IsTimes(key, |key|, t.keys) && IsRepeated(Hash(alg, Concat(t.keys)), |key|, t.p)
    && IsTimes(salt, 16 + a[0] as int, t.salts) && |t.s| == |salt| && t.s <= Hash(alg, Concat(t.salts))
  }

  ghost predicate IsRounds<H>(alg: Alg<H>, rounds: nat, a: seq<byte>, t: Transcript)
    requires alg.Sound()
  {
    |t.digests| == rounds + 1 && t.digests[0] == a && IsChain(alg, t.p, t.s, t.digests)
  }

  /** SHA-crypt, step by step. */
  ghost predicate ShaSteps<H>(alg: Alg<H>, key: seq<byte>, salt: seq<byte>, rounds: nat, t: Transcript)
    requires alg.Sound()
  {
    var b, a := Hash(alg, t.b), Hash(alg, t.a);
    && IsTextB(key, salt, t.b)
    && IsPerBit(|key|, b, key, t.bits) && IsTextA(key, salt, b, t.bits, t.a)
    && |a| > 0 && IsStrings(alg, key, salt, a, t) && IsRounds(alg, rounds, a, t)
  }

  /** MD5-crypt, step by step: zero bytes and the first letter of the key take turns at the end of A,
      and key and salt themselves go into the rounds. */
  ghost predicate Md5Steps<H>(alg: Alg<H>, prefix: seq<byte>, key: seq<byte>, salt: seq<byte>, t: Transcript)
    requires alg.Sound()
  {
    && IsTextB(key, salt, t.b)
    && IsPerBit(|key|, [0], FirstLetter(key), t.bits) && IsTextA(key, prefix + salt, Hash(alg, t.b), t.bits, t.a)
    && t.p == key && t.s == salt && IsRounds(alg, 1000, Hash(alg, t.a), t)
  }

  function FirstLetter(key: seq<byte>): seq<byte> {
    if key == [] then [] else [key[0]]
  }

  lemma TextBIs(key: seq<byte>, salt: seq<byte>)
    ensures IsTextB(key, salt, key + salt + key)
  {
  }

  lemma StringsAre<H(!new)>(alg: Alg<H>, key: seq<byte>, salt: seq<byte>, t: Transcript) returns (u: Transcript)
    requires Sized(alg) && |salt| <= 16
    ensures IsStrings(alg, key, salt, DigestA(alg, key, salt), u) && u == t.(keys := u.keys, salts := u.salts, p := u.p, s := u.s)
    ensures u.p == Repeated(DigestP(alg, key), |key|) && u.s == DigestS(alg, key, salt)[..|salt|]
  {
    var a0: int := DigestA(alg, key, salt)[0];
    var keys := TimesIs(key, |key|);
    var salts := TimesIs(salt, 16 + a0);
    RepeatedIs(DigestP(alg, key), |key|);
    u := t.(keys := keys, salts := salts, p := Repeated(DigestP(alg, key), |key|), s := DigestS(alg, key, salt)[..|salt|]);
  }

  /** The SHA-crypt digest is the last one of such a transcript. */
  lemma ShaTranscript<H(!new)>(alg: Alg<H>, key: seq<byte>, salt: seq<byte>, rounds: nat) returns (t: Transcript)
    requires Sized(alg) && |salt| <= 16
    ensures ShaSteps(alg, key, salt, rounds, t) && ShaDigest(alg, key, salt, rounds) == t.digests[rounds]
  {
    var b, a := DigestB(alg, key, salt), DigestA(alg, key, salt);
    TextBIs(key, salt);
    var bits := PerBitIs(|key|, b, key);
    TextAIs(key, salt, b, bits);
    t := StringsAre(alg, key, salt, Transcript(key + salt + key, key + salt + Repeated(b, |key|) + Concat(bits), bits, [], [], [], [], []));
    var digests := ChainIs(alg, rounds, a, t.p, t.s);
    t := t.(digests := digests);
  }

  /** So is the MD5-crypt digest. */
  lemma Md5Transcript<H(!new)>(alg: Alg<H>, prefix: seq<byte>, key: seq<byte>, salt: seq<byte>) returns (t: Transcript)
    requires Sized(alg)
    ensures Md5Steps(alg, prefix, key, salt, t) && Md5Digest(alg, prefix, key, salt) == t.digests[1000]
  {
    var b := DigestB(alg, key, salt);
    assert FirstLetter(key) == if key == [] then [] else key[..1];
    TextBIs(key, salt);
    var bits := PerBitIs(|key|, [0], FirstLetter(key));
    TextAIs(key, prefix + salt, b, bits);
    Associate(key, prefix, salt);
    var a := key + (prefix + salt) + Repeated(b, |key|) + Concat(bits);
    var digests := ChainIs(alg, 1000, Hash(alg, a), key, salt);
    t := Transcript(key + salt + key, a, bits, [], [], key, salt, digests);
    assert IsRounds(alg, 1000, Hash(alg, a), t);
  }

  // ------------------------------------------------------------------- methods

  /** hashmd. */
  method HashMd<H>(ctx: Context<H>, n: nat, md: seq<byte>)
    requires ctx.Valid() && |md| > 0
    modifies ctx, ctx.buf
    ensures ctx.Valid() && ctx.msg == old(ctx.msg) + Repeated(md, n)
  {
    var i := n;
    while i > |md|
      invariant i >= 0 && ctx.Valid() && ctx.msg + Repeated(md, i) == old(ctx.msg) + Repeated(md, n)
    {
      Associate(ctx.msg, md, Repeated(md, i - |md|));
      ctx.Update(md);
      i := i - |md|;
    }
    ctx.Update(md[..i]);
  }

  /** for (i = n; i > 0; i >>= 1) update one of two strings. */
  method HashBits<H>(ctx: Context<H>, n: nat, one: seq<byte>, zero: seq<byte>)
    requires ctx.Valid()
    modifies ctx, ctx.buf
    ensures ctx.Valid() && ctx.msg == old(ctx.msg) + PerBit(n, one, zero)
  {
    var i := n;
    while i > 0
      invariant ctx.Valid() && ctx.msg + PerBit(i, one, zero) == old(ctx.msg) + PerBit(n, one, zero)
    {
      var x := if i % 2 == 1 then one else zero;
      Associate(ctx.msg, x, PerBit(i / 2, one, zero));
      ctx.Update(x);
      i := i / 2;
    }
  }

  method HashTimes<H>(ctx: Context<H>, s: seq<byte>, n: nat) returns (md: seq<byte>)
    requires ctx.Ready()
    modifies ctx, ctx.buf
    ensures md == Hash(ctx.alg, Times(s, n))
  {
    ctx.Init();
    for i := 0 to n
      invariant ctx.Valid() && ctx.msg == Times(s, i)
    {
      ctx.Update(s);
    }
    md := ctx.Sum();
  }

  /** One pass of the last loop of sha256crypt. */
  method Round<H>(ctx: Context<H>, i: nat, klen: nat, md: seq<byte>, kmd: seq<byte>, s: seq<byte>) returns (md': seq<byte>)
    requires ctx.Ready() && |kmd| > 0
    modifies ctx, ctx.buf
    ensures md' == Hash(ctx.alg, RoundInput(i, md, Repeated(kmd, klen), s))
    ensures IsRoundDigest(ctx.alg, i, md, Repeated(kmd, klen), s, md')
  {
    RoundDigestIs(ctx.alg, i, md, Repeated(kmd, klen), s);
    ghost var p := Repeated(kmd, klen);
    ctx.Init();
    if i % 2 != 0 { HashMd(ctx, klen, kmd); } else { ctx.Update(md); }
    assert ctx.msg == if i % 2 != 0 then p else md;
    ghost var m1 := ctx.msg;
    if i % 3 != 0 { ctx.Update(s); }
    assert ctx.msg == m1 + if i % 3 != 0 then s else [];
    ghost var m2 := ctx.msg;
    if i % 7 != 0 { HashMd(ctx, klen, kmd); }
    assert ctx.msg == m2 + if i % 7 != 0 then p else [];
    if i % 2 != 0 { ctx.Update(md); } else { HashMd(ctx, klen, kmd); }
    md' := ctx.Sum();
  }

  method ShaRounds<H>(ctx: Context<H>, rounds: nat, klen: nat, a: seq<byte>, kmd: seq<byte>, s: seq<byte>)
    returns (md: seq<byte>)
    requires ctx.Ready() && |kmd| > 0
    modifies ctx, ctx.buf
    ensures md == Rounds(ctx.alg, rounds, a, Repeated(kmd, klen), s)
  {
    md := a;
    for i := 0 to rounds
      invariant md == Rounds(ctx.alg, i, a, Repeated(kmd, klen), s)
    {
      md := Round(ctx, i, klen, md, kmd, s);
    }
  }

  method HashB<H>(ctx: Context<H>, key: seq<byte>, salt: seq<byte>) returns (md: seq<byte>)
    requires ctx.Ready()
    modifies ctx, ctx.buf
    ensures md == Hash(ctx.alg, key + salt + key)
  {
    Empty(key);
    ctx.Init();
    ctx.Update(key);
    ctx.Update(salt);
    ctx.Update(key);
    md := ctx.Sum();
  }

  method HashA<H>(ctx: Context<H>, key: seq<byte>, salt: seq<byte>, b: seq<byte>) returns (md: seq<byte>)
    requires ctx.Ready() && |b| > 0
    modifies ctx, ctx.buf
    ensures md == Hash(ctx.alg, key + salt + Repeated(b, |key|) + PerBit(|key|, b, key))
  {
    ctx.Init();
    ctx.Update(key);
    ctx.Update(salt);
    assert ctx.msg == key + salt;
    HashMd(ctx, |key|, b);
    HashBits(ctx, |key|, b, key);
    md := ctx.Sum();
  }

  /** The hashing part of sha256crypt and sha512crypt. */
  method ShaStretch<H(!new)>(alg: Alg<H>, key: seq<byte>, salt: seq<byte>, rounds: nat) returns (md: seq<byte>)
    requires Sized(alg) && |salt| <= 16
    ensures md == ShaDigest(alg, key, salt, rounds)
  {
    var ctx := new Context(alg);
    md := HashB(ctx, key, salt);
    assert md == DigestB(alg, key, salt);
    md := HashA(ctx, key, salt, md);
    ghost var a := DigestA(alg, key, salt);
    assert md == a;
    var kmd := HashTimes(ctx, key, |key|);
    assert kmd == DigestP(alg, key);
    var a0: int := md[0];
    var smd := HashTimes(ctx, salt, 16 + a0);
    assert smd == DigestS(alg, key, salt);
    md := ShaRounds(ctx, rounds, |key|, md, kmd, smd[..|salt|]);
  }

  // ---------------------------------------------------------------------- MD5

  method Md5Round<H>(ctx: Context<H>, i: nat, key: seq<byte>, md: seq<byte>, salt: seq<byte>) returns (md': seq<byte>)
    requires ctx.Ready()
    modifies ctx, ctx.buf
    ensures md' == Hash(ctx.alg, RoundInput(i, md, key, salt))
    ensures IsRoundDigest(ctx.alg, i, md, key, salt, md')
  {
    RoundDigestIs(ctx.alg, i, md, key, salt);
    ctx.Init();
    if i % 2 != 0 { ctx.Update(key); } else { ctx.Update(md); }
    assert ctx.msg == if i % 2 != 0 then key else md;
    ghost var m1 := ctx.msg;
    if i % 3 != 0 { ctx.Update(salt); }
    assert ctx.msg == m1 + if i % 3 != 0 then salt else [];
    ghost var m2 := ctx.msg;
    if i % 7 != 0 { ctx.Update(key); }
    assert ctx.msg == m2 + if i % 7 != 0 then key else [];
    if i % 2 != 0 { ctx.Update(md); } else { ctx.Update(key); }
    md' := ctx.Sum();
  }

  method Md5A<H>(ctx: Context<H>, prefix: seq<byte>, key: seq<byte>, salt: seq<byte>, b: seq<byte>)
    returns (md: seq<byte>)
    requires ctx.Ready() && |b| > 0
    modifies ctx, ctx.buf
    ensures var first := if key == [] then [] else key[..1];
      md == Hash(ctx.alg, key + prefix + salt + Repeated(b, |key|) + PerBit(|key|, [0], first))
  {
    ctx.Init();
    ctx.Update(key);
    ctx.Update(prefix + salt);
    assert ctx.msg == key + prefix + salt;
    HashMd(ctx, |key|, b);
    HashBits(ctx, |key|, [0], if key == [] then [] else key[..1]);
    md := ctx.Sum();
  }

  method Md5Rounds<H>(ctx: Context<H>, a: seq<byte>, key: seq<byte>, salt: seq<byte>) returns (md: seq<byte>)
    requires ctx.Ready()
    modifies ctx, ctx.buf
    ensures md == Rounds(ctx.alg, 1000, a, key, salt)
  {
    md := a;
    for i := 0 to 1000
      invariant md == Rounds(ctx.alg, i, a, key, salt)
    {
      md := Md5Round(ctx, i, key, md, salt);
    }
  }

  /** The hashing part of md5crypt. */
  method Md5Stretch<H(!new)>(alg: Alg<H>, prefix: seq<byte>, key: seq<byte>, salt: seq<byte>) returns (md: seq<byte>)
    requires Sized(alg)
    ensures md == Md5Digest(alg, prefix, key, salt)
  {
    var ctx := new Context(alg);
    md := HashB(ctx, key, salt);
    assert md == DigestB(alg, key, salt);
    md := Md5A(ctx, prefix, key, salt, md);
    md := Md5Rounds(ctx, md, key, salt);
  }
}
