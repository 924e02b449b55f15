/** The Blowfish core of bcrypt (library/crypt/crypt_blowfish.c): the block cipher for any
    S-boxes and the expansions that overwrite the state while it is in use. */
module Blowfish {

  /** P (18 words) and the four S-boxes (256 words each), as the union PS lays them out. */
  const PS_SIZE: nat := 1042

  type Words = s: seq<bv32> | |s| == PS_SIZE witness seq(PS_SIZE, _ => 0)

  datatype Pair = Pair(l: bv32, r: bv32)

  // --------------------------------------------------------------- the cipher

  /** S[k][x & 0xff]. */
  function SBox(ps: Words, k: nat, x: bv32): bv32
    requires k < 4
  {
    var i := x & 0xff;
    assert i as int < 256;
    ps[18 + 256 * k + i as int]
  }

  function Sum(a: bv32, b: bv32, c: bv32, d: bv32): bv32 {
    ((a + b) ^ c) + d
  }

  function F(ps: Words, x: bv32): bv32 {
    Sum(SBox(ps, 0, x >> 24), SBox(ps, 1, x >> 16), SBox(ps, 2, x >> 8), SBox(ps, 3, x))
  }

  /** One round on the halves, which then change places. */
  function Round(ps: Words, p: bv32, b: Pair): Pair {
    Pair(Added(b.r, p, F(ps, b.l)), b.l)
  }

  function Xor(x: bv32, y: bv32): bv32 {
    x ^ y
  }

  function Added(x: bv32, p: bv32, f: bv32): bv32 {
    Xor(Xor(x, f), p)
  }

  /** n rounds with the subkeys p[1], p[2], ..., after adding p[0]. */
  function Rounds(ps: Words, p: seq<bv32>, b: Pair, n: nat): Pair
    requires n < |p|
  {
    if n == 0 then Pair(Xor(b.l, p[0]), b.r) else Round(ps, p[n], Rounds(ps, p, b, n - 1))
  }

  /** A block under the 18 subkeys p; the S-boxes come from ps. */
  function Block(ps: Words, p: seq<bv32>, b: Pair): Pair
    requires |p| == 18
  {
    var c := Rounds(ps, p, b, |p| - 2);
    Pair(Xor(c.r, p[17]), c.l)
  }

  function Swap(b: Pair): Pair {
    Pair(b.r, b.l)
  }

  lemma AddedTwice(x: bv32, p: bv32, f: bv32)
    ensures Added(Added(x, p, f), p, f) == x
  {
  }

  lemma RoundUndone(ps: Words, p: bv32, b: Pair)
    ensures Round(ps, p, Swap(Round(ps, p, b))) == Swap(b)
  {
    AddedTwice(b.r, p, F(ps, b.l));
  }

  lemma XorTwice(x: bv32, p: bv32)
    ensures (x ^ p) ^ p == x
  {
  }

  ghost predicate Reversed(p: seq<bv32>, q: seq<bv32>) {
    |p| == |q| == 18 && forall i :: 0 <= i < 18 ==> q[i] == p[17 - i]
  }

  /** Going back: k rounds under the reversed subkeys undo the last k rounds. */
  lemma {:induction false} RoundsUndone(ps: Words, p: seq<bv32>, q: seq<bv32>, b: Pair, k: nat)
    requires Reversed(p, q) && k <= 16
    ensures Rounds(ps, q, Block(ps, p, b), k) == Swap(Rounds(ps, p, b, 16 - k))
  {
    if k == 0 {
      XorTwice(Rounds(ps, p, b, 16).r, p[17]);
    } else {
      RoundsUndone(ps, p, q, b, k - 1);
      RoundUndone(ps, p[17 - k], Rounds(ps, p, b, 16 - k));
    }
  }

  /** The cipher with the subkeys in reverse order undoes the cipher, for any S-boxes. */
  lemma BlockUndone(ps: Words, p: seq<bv32>, q: seq<bv32>, b: Pair)
    requires Reversed(p, q)
    ensures Block(ps, q, Block(ps, p, b)) == b
  {
    RoundsUndone(ps, p, q, b, 16);
    XorTwice(b.l, p[0]);
  }

  // --------------------------------------------------------- as it was published

  /** A word and its four bytes, the highest first. */
  ghost predicate HasBytes(x: bv32, a: bv32, b: bv32, c: bv32, d: bv32) {
    a < 256 && b < 256 && c < 256 && d < 256 && x == (a << 24) | (b << 16) | (c << 8) | d
  }

  lemma FirstByte(x: bv32, a: bv32, b: bv32, c: bv32, d: bv32)
    requires HasBytes(x, a, b, c, d)
    ensures (x >> 24) & 0xff == a && a < 256
  {
  }

  lemma SecondByte(x: bv32, a: bv32, b: bv32, c: bv32, d: bv32)
    requires HasBytes(x, a, b, c, d)
    ensures (x >> 16) & 0xff == b && b < 256
  {
  }

  lemma ThirdByte(x: bv32, a: bv32, b: bv32, c: bv32, d: bv32)
    requires HasBytes(x, a, b, c, d)
    ensures (x >> 8) & 0xff == c && c < 256
  {
  }

  lemma FourthByte(x: bv32, a: bv32, b: bv32, c: bv32, d: bv32)
    requires HasBytes(x, a, b, c, d)
    ensures x & 0xff == d && d < 256
  {
  }

  lemma SBoxIs(ps: Words, k: nat, x: bv32, v: bv32)
    requires k < 4 && v < 256 && x & 0xff == v
    ensures v as int < 256 && SBox(ps, k, x) == ps[18 + 256 * k + v as int]
  {
  }

  /** Each byte of a word selects an entry of its S-box. */
  lemma FIs(ps: Words, x: bv32, a: bv32, b: bv32, c: bv32, d: bv32)
    requires HasBytes(x, a, b, c, d)
    ensures a as int < 256 && b as int < 256 && c as int < 256 && d as int < 256
    ensures F(ps, x) == Sum(ps[18 + a as int], ps[274 + b as int], ps[530 + c as int], ps[786 + d as int])
  {
    FirstBox(ps, x, a, b, c, d);
    SecondBox(ps, x, a, b, c, d);
    ThirdBox(ps, x, a, b, c, d);
    FourthBox(ps, x, a, b, c, d);
    FSum(ps, x, ps[18 + a as int], ps[274 + b as int], ps[530 + c as int], ps[786 + d as int]);
  }

  lemma FSum(ps: Words, x: bv32, s: bv32, t: bv32, u: bv32, v: bv32)
    requires SBox(ps, 0, x >> 24) == s && SBox(ps, 1, x >> 16) == t && SBox(ps, 2, x >> 8) == u && SBox(ps, 3, x) == v
    ensures F(ps, x) == Sum(s, t, u, v) == ((s + t) ^ u) + v
  {
  }

  lemma FirstBox(ps: Words, x: bv32, a: bv32, b: bv32, c: bv32, d: bv32)
    requires HasBytes(x, a, b, c, d)
    ensures a as int < 256 && SBox(ps, 0, x >> 24) == ps[18 + a as int]
  {
    FirstByte(x, a, b, c, d);
    SBoxIs(ps, 0, x >> 24, a);
  }

  lemma SecondBox(ps: Words, x: bv32, a: bv32, b: bv32, c: bv32, d: bv32)
    requires HasBytes(x, a, b, c, d)
    ensures b as int < 256 && SBox(ps, 1, x >> 16) == ps[274 + b as int]
  {
    SecondByte(x, a, b, c, d);
    SBoxIs(ps, 1, x >> 16, b);
  }

  lemma ThirdBox(ps: Words, x: bv32, a: bv32, b: bv32, c: bv32, d: bv32)
    requires HasBytes(x, a, b, c, d)
    ensures c as int < 256 && SBox(ps, 2, x >> 8) == ps[530 + c as int]
  {
    ThirdByte(x, a, b, c, d);
    SBoxIs(ps, 2, x >> 8, c);
  }

  lemma FourthBox(ps: Words, x: bv32, a: bv32, b: bv32, c: bv32, d: bv32)
    requires HasBytes(x, a, b, c, d)
    ensures d as int < 256 && SBox(ps, 3, x) == ps[786 + d as int]
  {
    FourthByte(x, a, b, c, d);
    SBoxIs(ps, 3, x, d);
  }

  /** The first n rounds of Blowfish: a subkey is added to the left half, F of it to the right half,
      and the halves change places. */
  function Published(ps: Words, p: seq<bv32>, b: Pair, n: nat): Pair
    requires n <= |p|
  {
    if n == 0 then b
    else
      var c := Published(ps, p, b, n - 1);
      var l := Xor(c.l, p[n - 1]);
      Pair(Xor(c.r, F(ps, l)), l)
  }

  /** The rounds of the code are ahead by one subkey. */
  lemma {:induction false} RoundsAre(ps: Words, p: seq<bv32>, b: Pair, n: nat)
    requires n < |p|
    ensures var c := Published(ps, p, b, n); Rounds(ps, p, b, n) == Pair(Xor(c.l, p[n]), c.r)
  {
    if n > 0 {
      RoundsAre(ps, p, b, n - 1);
    }
  }

  /** After sixteen rounds the halves are put back and the last two subkeys added. */
  lemma BlockIs(ps: Words, p: seq<bv32>, b: Pair)
    requires |p| == 18
    ensures var c := Published(ps, p, b, 16); Block(ps, p, b) == Pair(Xor(c.r, p[17]), Xor(c.l, p[16]))
  {
    RoundsAre(ps, p, b, 16);
  }

  // ------------------------------------------------------------- in-place loops

  /** A block under the state as it is. */
  function Under(ps: Words, b: Pair): Pair {
    Block(ps, ps[..18], b)
  }

  /** One pass of BF_encrypt's outer loop: two rounds at a time on L and R. */
  method EncryptBlock(ps: Words, b: Pair) returns (c: Pair)
    ensures c == Under(ps, b)
  {
    ghost var p := ps[..18];
    var l, r := b.l ^ ps[0], b.r;
    var i := 0;
    while i < 16
      invariant 0 <= i <= 16 && i % 2 == 0 && Pair(l, r) == Rounds(ps, p, b, i)
    {
      r := Added(r, ps[i + 1], F(ps, l));
      assert Pair(r, l) == Rounds(ps, p, b, i + 1);
      l := Added(l, ps[i + 2], F(ps, r));
      i := i + 2;
    }
    var t := r;
    r := l;
    l := t ^ ps[17];
    c := Pair(l, r);
  }

  // The expansions overwrite the state they encrypt under, two words at a time; how they do so
  // does not depend on the block cipher.

  type Encryption = (seq<bv32>, Pair) -> Pair

  /** A state and the block that was encrypted last. */
  datatype Run = Run(ps: seq<bv32>, b: Pair)

  /** Encrypt a block under the state as it is and store the result at i. */
  function Next(enc: Encryption, run: Run, b: Pair, i: nat): (next: Run)
    requires i + 1 < |run.ps|
    ensures |next.ps| == |run.ps|
  {
    var c := enc(run.ps, b);
    Run(run.ps[i := c.l][i + 1 := c.r], c)
  }

  /** BF_encrypt over the first n pairs of the state, each block being the last result. */
  function Chain(enc: Encryption, ps: seq<bv32>, b: Pair, n: nat): (run: Run)
    requires 2 * n <= |ps|
    ensures |run.ps| == |ps|
  {
    if n == 0 then Run(ps, b)
    else var run := Chain(enc, ps, b, n - 1); Next(enc, run, run.b, 2 * n - 2)
  }

  function WithSalt(b: Pair, salt: seq<bv32>, i: nat): Pair
    requires i + 1 < |salt|
  {
    Pair(Xor(b.l, salt[i]), Xor(b.r, salt[i + 1]))
  }

  predicate Odd(n: nat) {
    if n == 0 then false else !Odd(n - 1)
  }

  /** The salted expansion of the first n pairs: the halves of the salt take turns. */
  function Salted(enc: Encryption, ps: seq<bv32>, salt: seq<bv32>, n: nat): (run: Run)
    requires 2 * n <= |ps| && |salt| == 4
    ensures |run.ps| == |ps|
  {
    if n == 0 then Run(ps, Pair(0, 0))
    else
      var run := Salted(enc, ps, salt, n - 1);
      Next(enc, run, WithSalt(run.b, salt, if Odd(n) then 0 else 2), 2 * n - 2)
  }

  /** The pair that is encrypted for place n. */
  function Before(f: seq<bv32>, b: Pair, n: nat): Pair
    requires 2 * n <= |f|
  {
    if n == 0 then b else Pair(f[2 * n - 2], f[2 * n - 1])
  }

  /** Pair k is the encryption of d under the words before it as they are now and the others as they
      were. */
  ghost predicate Holds(enc: Encryption, ps: seq<bv32>, f: seq<bv32>, k: nat, d: Pair)
    requires 2 * k + 1 < |f| == |ps|
  {
    Pair(f[2 * k], f[2 * k + 1]) == enc(f[..2 * k] + ps[2 * k..], d)
  }

  lemma Stored(enc: Encryption, ps: seq<bv32>, run: Run, d: Pair, m: nat, f: seq<bv32>)
    requires 2 * m + 1 < |ps| == |run.ps| && run.ps[2 * m..] == ps[2 * m..] && f == Next(enc, run, d, 2 * m).ps
    ensures f[..2 * m] == run.ps[..2 * m] && f[2 * (m + 1)..] == ps[2 * (m + 1)..]
    ensures Holds(enc, ps, f, m, d) && Next(enc, run, d, 2 * m).b == Before(f, d, m + 1)
  {
    assert run.ps == run.ps[..2 * m] + ps[2 * m..];
    assert ps[2 * (m + 1)..] == ps[2 * m..][2..] && run.ps[2 * (m + 1)..] == run.ps[2 * m..][2..];
  }

  lemma Kept(enc: Encryption, ps: seq<bv32>, was: seq<bv32>, f: seq<bv32>, b: Pair, n: nat, k: nat, d: Pair)
    requires 2 * n <= |was| == |f| == |ps| && f[..2 * n] == was[..2 * n] && k < n && Holds(enc, ps, was, k, d)
    ensures Holds(enc, ps, f, k, d) && Before(f, b, k) == Before(was, b, k)
  {
    assert forall i :: 0 <= i < 2 * n ==> f[i] == f[..2 * n][i] && was[i] == was[..2 * n][i];
    assert f[..2 * k] == f[..2 * n][..2 * k] && was[..2 * k] == was[..2 * n][..2 * k];
  }

  lemma SameBefore(was: seq<bv32>, f: seq<bv32>, b: Pair, n: nat)
    requires 2 * n <= |was| == |f| && f[..2 * n] == was[..2 * n]
    ensures Before(f, b, n) == Before(was, b, n)
  {
    assert forall i :: 0 <= i < 2 * n ==> f[i] == f[..2 * n][i] && was[i] == was[..2 * n][i];
  }

  /** What an expansion leaves in the first n pairs: each is the encryption, under the words written
      before it and the old ones after, of the pair before it. */
  ghost predicate Expanded(enc: Encryption, ps: seq<bv32>, f: seq<bv32>, b: Pair, n: nat)
    requires 2 * n <= |f| == |ps|
  {
    n == 0 || (Expanded(enc, ps, f, b, n - 1) && Holds(enc, ps, f, n - 1, Before(f, b, n - 1)))
  }

  lemma {:induction false} ExpandedStays(enc: Encryption, ps: seq<bv32>, was: seq<bv32>, f: seq<bv32>, b: Pair, m: nat, n: nat)
    requires m <= n && 2 * n <= |was| == |f| == |ps| && f[..2 * n] == was[..2 * n] && Expanded(enc, ps, was, b, m)
    ensures Expanded(enc, ps, f, b, m)
  {
    if m > 0 {
      ExpandedStays(enc, ps, was, f, b, m - 1, n);
      Kept(enc, ps, was, f, b, n, m - 1, Before(was, b, m - 1));
    }
  }

  /** The first n pairs have been expanded, and the last of them is the block. */
  ghost predicate ChainDone(enc: Encryption, ps: seq<bv32>, b: Pair, run: Run, n: nat)
    requires 2 * n <= |ps|
  {
    |run.ps| == |ps| && run.ps[2 * n..] == ps[2 * n..] && run.b == Before(run.ps, b, n) && Expanded(enc, ps, run.ps, b, n)
  }

  lemma ChainStep(enc: Encryption, ps: seq<bv32>, b: Pair, run: Run, n: nat)
    requires 2 * n + 1 < |ps| && ChainDone(enc, ps, b, run, n)
    ensures ChainDone(enc, ps, b, Next(enc, run, run.b, 2 * n), n + 1)
  {
    var f := Next(enc, run, run.b, 2 * n).ps;
    Stored(enc, ps, run, run.b, n, f);
    SameBefore(run.ps, f, b, n);
    ExpandedStays(enc, ps, run.ps, f, b, n, n);
  }

  lemma {:induction false} ChainIs(enc: Encryption, ps: seq<bv32>, b: Pair, n: nat)
    requires 2 * n <= |ps|
    ensures ChainDone(enc, ps, b, Chain(enc, ps, b, n), n)
  {
    if n > 0 {
      ChainIs(enc, ps, b, n - 1);
      ChainStep(enc, ps, b, Chain(enc, ps, b, n - 1), n - 1);
    }
  }

  /** What is added to the block at place k: the first half of the salt at even places and the second
      at odd ones. */
  function Sprinkled(c: Pair, salt: seq<bv32>, k: nat): Pair
    requires |salt| == 4
  {
    if k % 2 == 0 then Pair(Xor(c.l, salt[0]), Xor(c.r, salt[1])) else Pair(Xor(c.l, salt[2]), Xor(c.r, salt[3]))
  }

  lemma SprinkledIs(c: Pair, salt: seq<bv32>, n: nat)
    requires |salt| == 4 && n > 0
    ensures WithSalt(c, salt, if Odd(n) then 0 else 2) == Sprinkled(c, salt, n - 1)
  {
    OddIs(n);
  }

  lemma SaltedOf(enc: Encryption, ps: seq<bv32>, salt: seq<bv32>, n: nat)
    requires 0 < n && 2 * n <= |ps| && |salt| == 4
    ensures var run := Salted(enc, ps, salt, n - 1);
      Salted(enc, ps, salt, n) == Next(enc, run, Sprinkled(run.b, salt, n - 1), 2 * n - 2)
  {
    SprinkledIs(Salted(enc, ps, salt, n - 1).b, salt, n);
  }

  /** What the salted expansion leaves, starting from zero. */
  ghost predicate SaltExpanded(enc: Encryption, ps: seq<bv32>, salt: seq<bv32>, f: seq<bv32>, n: nat)
    requires 2 * n <= |f| == |ps| && |salt| == 4
  {
    n == 0 || (SaltExpanded(enc, ps, salt, f, n - 1) && Holds(enc, ps, f, n - 1, Sprinkled(Before(f, Pair(0, 0), n - 1), salt, n - 1)))
  }

  lemma {:induction false} SaltExpandedStays(enc: Encryption, ps: seq<bv32>, salt: seq<bv32>, was: seq<bv32>, f: seq<bv32>, m: nat, n: nat)
    requires m <= n && 2 * n <= |was| == |f| == |ps| && |salt| == 4
    requires f[..2 * n] == was[..2 * n] && SaltExpanded(enc, ps, salt, was, m)
    ensures SaltExpanded(enc, ps, salt, f, m)
  {
    if m > 0 {
      SaltExpandedStays(enc, ps, salt, was, f, m - 1, n);
      Kept(enc, ps, was, f, Pair(0, 0), n, m - 1, Sprinkled(Before(was, Pair(0, 0), m - 1), salt, m - 1));
    }
  }

  ghost predicate SaltDone(enc: Encryption, ps: seq<bv32>, salt: seq<bv32>, run: Run, n: nat)
    requires 2 * n <= |ps| && |salt| == 4
  {
    && |run.ps| == |ps| && run.ps[2 * n..] == ps[2 * n..] && run.b == Before(run.ps, Pair(0, 0), n)
    && SaltExpanded(enc, ps, salt, run.ps, n)
  }

  lemma SaltStep(enc: Encryption, ps: seq<bv32>, salt: seq<bv32>, run: Run, n: nat, d: Pair)
    requires 2 * n + 1 < |ps| && |salt| == 4 && SaltDone(enc, ps, salt, run, n) && d == Sprinkled(run.b, salt, n)
    ensures SaltDone(enc, ps, salt, Next(enc, run, d, 2 * n), n + 1)
  {
    var f := Next(enc, run, d, 2 * n).ps;
    Stored(enc, ps, run, d, n, f);
    SameBefore(run.ps, f, Pair(0, 0), n);
    SaltExpandedStays(enc, ps, salt, run.ps, f, n, n);
  }

  lemma {:induction false} SaltedIs(enc: Encryption, ps: seq<bv32>, salt: seq<bv32>, n: nat)
    requires 2 * n <= |ps| && |salt| == 4
    ensures SaltDone(enc, ps, salt, Salted(enc, ps, salt, n), n)
  {
    if n > 0 {
      SaltedIs(enc, ps, salt, n - 1);
      SaltedOf(enc, ps, salt, n);
      var run := Salted(enc, ps, salt, n - 1);
      SaltStep(enc, ps, salt, run, n - 1, Sprinkled(run.b, salt, n - 1));
    }
  }

  lemma {:induction false} OddIs(n: nat)
    ensures Odd(n) <==> n % 2 == 1
  {
    if n > 0 {
      OddIs(n - 1);
    }
  }

  /** enc is the cipher that EncryptBlock computes. */
  ghost predicate IsCipher(enc: Encryption) {
    forall ps: Words, b: Pair {:trigger Under(ps, b)} :: enc(ps, b) == Under(ps, b)
  }

  method EncryptNext(ghost enc: Encryption, run: Run, b: Pair, i: nat) returns (next: Run)
    requires IsCipher(enc) && |run.ps| == PS_SIZE && i + 1 < PS_SIZE
    ensures next == Next(enc, run, b, i)
  {
    var c := EncryptBlock(run.ps, b);
    next := Run(run.ps[i := c.l][i + 1 := c.r], c);
  }

  method ChainBlocks(ghost enc: Encryption, ps: seq<bv32>, b: Pair) returns (run: Run)
    requires IsCipher(enc) && |ps| == PS_SIZE
    ensures run == Chain(enc, ps, b, PS_SIZE / 2)
  {
    run := Run(ps, b);
    ghost var n := 0;
    var i := 0;
    while i < |ps|
      invariant i == 2 * n <= |ps|
      invariant run == Chain(enc, ps, b, n)
    {
      run := EncryptNext(enc, run, run.b, i);
      i, n := i + 2, n + 1;
    }
  }

  /** The words from 0 to n, once each and in order. */
  ghost predicate InOrder(writes: seq<int>, n: nat) {
    |writes| == n && forall k :: 0 <= k < n ==> writes[k] == k
  }

  lemma TwoMore(writes: seq<int>, n: nat)
    requires InOrder(writes, n)
    ensures InOrder(writes + [n, n + 1], n + 2)
  {
  }

  method SaltBlocks(ghost enc: Encryption, ps: seq<bv32>, salt: seq<bv32>) returns (run: Run, ghost writes: seq<int>)
    requires IsCipher(enc) && |ps| == PS_SIZE && |salt| == 4
    ensures run == Salted(enc, ps, salt, PS_SIZE / 2)
    ensures InOrder(writes, PS_SIZE)
  {
    run, writes := Run(ps, Pair(0, 0)), [];
    var i := 0;
    ghost var n := 0;
    while true
      invariant i == 2 * n < |ps| && i % 4 == 0 && !Odd(n)
      invariant run == Salted(enc, ps, salt, n)
      invariant InOrder(writes, i)
      decreases |ps| - i
    {
      run := EncryptNext(enc, run, WithSalt(run.b, salt, 0), i);
      TwoMore(writes, i);
      writes := writes + [i, i + 1];
      i, n := i + 2, n + 1;
      assert run == Salted(enc, ps, salt, n);
      if i >= |ps| {
        break;
      }
      run := EncryptNext(enc, run, WithSalt(run.b, salt, 2), i);
      TwoMore(writes, i);
      writes := writes + [i, i + 1];
      i, n := i + 2, n + 1;
    }
  }

  /** The block cipher under a state. */
  function Enc(ps: seq<bv32>, b: Pair): Pair {
    if |ps| == PS_SIZE then Under(ps, b) else b
  }

  lemma EncIsCipher()
    ensures IsCipher(Enc)
  {
  }

  /** BF_encrypt from the start of the state to its end: each pair is encrypted under the state as
      it has been overwritten so far. */
  method EncryptAll(ps: seq<bv32>, b: Pair) returns (run: Run)
    requires |ps| == PS_SIZE
    ensures run == Chain(Enc, ps, b, PS_SIZE / 2) && ChainDone(Enc, ps, b, run, PS_SIZE / 2)
  {
    EncIsCipher();
    ChainIs(Enc, ps, b, PS_SIZE / 2);
    run := ChainBlocks(Enc, ps, b);
  }

  /** The first expansion of BF_crypt.  The end of the state is tested only after the first of
      each two blocks; `writes` lists the words that are written. */
  method ExpandSalted(ps: seq<bv32>, salt: seq<bv32>) returns (run: Run, ghost writes: seq<int>)
    requires |ps| == PS_SIZE && |salt| == 4
    ensures run == Salted(Enc, ps, salt, PS_SIZE / 2) && SaltDone(Enc, ps, salt, run, PS_SIZE / 2)
    ensures InOrder(writes, PS_SIZE)
  {
    EncIsCipher();
    SaltedIs(Enc, ps, salt, PS_SIZE / 2);
    run, writes := SaltBlocks(Enc, ps, salt);
  }
}
