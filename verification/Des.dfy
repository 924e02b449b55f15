/** DES as crypt(3) uses it (library/crypt/crypt_des.c): key schedule, salted rounds and the
    iterated cipher.  The S-boxes are a parameter, eight rows of 64 words. */
module Des {
  import opened DesTables
  import opened DesPermute

  // --------------------------------------------------------------- key schedule

  const M28: bv32 := 0xfffffff

  /** A 28-bit half turned left by one bit, by n bits, and by n bits at once as the C code
      does it. */
  function Turn1(k: bv32): bv32 {
    ((k << 1) | (k >> 27)) & M28
  }

  function Turn(k: bv32, n: nat): bv32 {
    if n == 0 then k else Turn1(Turn(k, n - 1))
  }

  function Shift(k: bv32, s: bv32): bv32
    requires s <= 28
  {
    (k << s) | (k >> (28 - s))
  }

  function Shift28(k: bv32, s: bv32): bv32
    requires s <= 28
  {
    Shift(k, s) & M28
  }

  lemma ShiftNone(k: bv32, s: bv32, n: nat)
    requires k <= M28 && s as int == n == 0 && s <= 28
    ensures Shift28(k, s) == Turn(k, n)
  {
    assert s == 0;
  }

  lemma ShiftMore(k: bv32, s: bv32, t: bv32, h: bv32)
    requires k <= M28 && 0 < s <= 28 && t == s - 1 && t <= 28 && Shift28(k, t) == h
    ensures Shift28(k, s) == Turn1(h)
  {
  }

  lemma Less(s: bv32, n: nat) returns (t: bv32)
    requires s as int == n && 0 < n && s <= 28
    ensures t as int == n - 1 && t == s - 1 && 0 < s <= 28 && t <= 28
  {
    t := s - 1;
  }

  /** The two shifts of the C code turn a half; what is above bit 27 does not count. */
  lemma {:induction false} ShiftTurns(k: bv32, s: bv32, n: nat)
    requires k <= M28 && s as int == n && s <= 28
    ensures Shift28(k, s) == Turn(k, n)
  {
    if n == 0 {
      ShiftNone(k, s, n);
    } else {
      var t := Less(s, n);
      ShiftTurns(k, t, n - 1);
      ShiftMore(k, s, t, Turn(k, n - 1));
    }
  }

  /** key_shifts. */
  function KeyShift(i: nat): nat
    requires i < 16
  {
    if i == 0 || i == 1 || i == 8 || i == 15 then 1 else 2
  }

  /** How far the halves have been turned after n rounds; in the end, once around. */
  function Shifts(n: nat): (s: nat)
    requires n <= 16
    ensures s == if n < 2 then n else if n < 9 then 2 * n - 2 else if n < 16 then 2 * n - 3 else 28
  {
    if n == 0 then 0 else Shifts(n - 1) + KeyShift(n - 1)
  }

  /** The key halves in round n - 1, turned round by round (FIPS 46-3). */
  function LeftHalf(l: bv32, r: bv32, n: nat): bv32
    requires n <= 16
  {
    if n == 0 then Pc1Left(l, r) else Turn(LeftHalf(l, r, n - 1), KeyShift(n - 1))
  }

  function RightHalf(l: bv32, r: bv32, n: nat): bv32
    requires n <= 16
  {
    if n == 0 then Pc1Right(l, r) else Turn(RightHalf(l, r, n - 1), KeyShift(n - 1))
  }

  function Subkey(key: Block, i: nat): Block
    requires i < 16
  {
    Block(Pc2L(LeftHalf(key.l, key.r, i + 1)), Pc2R(RightHalf(key.l, key.r, i + 1)))
  }

  function Schedule(key: Block, n: nat): (ks: seq<Block>)
    requires n <= 16
    ensures |ks| == n
  {
    if n == 0 then [] else Schedule(key, n - 1) + [Subkey(key, n - 1)]
  }

  lemma {:induction false} TurnTwice(k: bv32, m: nat, n: nat)
    ensures Turn(Turn(k, m), n) == Turn(k, m + n)
  {
    if n > 0 {
      TurnTwice(k, m, n - 1);
    }
  }

  lemma {:induction false} HalvesTurned(l: bv32, r: bv32, n: nat)
    requires n <= 16
    ensures LeftHalf(l, r, n) == Turn(Pc1Left(l, r), Shifts(n))
    ensures RightHalf(l, r, n) == Turn(Pc1Right(l, r), Shifts(n))
  {
    if n > 0 {
      HalvesTurned(l, r, n - 1);
      TurnTwice(Pc1Left(l, r), Shifts(n - 1), KeyShift(n - 1));
      TurnTwice(Pc1Right(l, r), Shifts(n - 1), KeyShift(n - 1));
    }
  }

  lemma Pc1Small(l: bv32, r: bv32)
    ensures Pc1Left(l, r) <= M28 && Pc1Right(l, r) <= M28
  {
  }

  lemma Pc2LMask(x: bv32)
    ensures Pc2L(x) == Pc2L(x & M28)
  {
  }

  lemma Pc2RMask(x: bv32)
    ensures Pc2R(x) == Pc2R(x & M28)
  {
  }

  lemma LeftKey(x: bv32, s: bv32, n: nat)
    requires x <= M28 && s as int == n && s <= 28
    ensures Pc2L(Shift(x, s)) == Pc2L(Turn(x, n))
  {
    ShiftTurns(x, s, n);
    Pc2LMask(Shift(x, s));
  }

  lemma RightKey(x: bv32, s: bv32, n: nat)
    requires x <= M28 && s as int == n && s <= 28
    ensures Pc2R(Shift(x, s)) == Pc2R(Turn(x, n))
  {
    ShiftTurns(x, s, n);
    Pc2RMask(Shift(x, s));
  }

  lemma KeyFromShifts(key: Block, round: nat, s: bv32)
    requires round < 16 && s as int == Shifts(round + 1) && s <= 28
    ensures Subkey(key, round) == Pc2(Block(Shift(Pc1(key).l, s), Shift(Pc1(key).r, s)))
  {
    Pc1Small(key.l, key.r);
    HalvesTurned(key.l, key.r, round + 1);
    LeftKey(Pc1Left(key.l, key.r), s, Shifts(round + 1));
    RightKey(Pc1Right(key.l, key.r), s, Shifts(round + 1));
  }

  /** __des_setkey. */
  method SetKey(key: Block) returns (ks: seq<Block>)
    ensures ks == Schedule(key, 16)
  {
    var h := KeyPermutation(key);
    ks := [];
    var shifts: bv32 := 0;
    for round := 0 to 16
      invariant shifts as int == Shifts(round) && ks == Schedule(key, round)
    {
      shifts := Further(round, shifts);
      var k := CompressionPermutation(Block(Shift(h.l, shifts), Shift(h.r, shifts)));
      KeyFromShifts(key, round, shifts);
      ks := ks + [k];
    }
  }

  method Further(round: nat, shifts: bv32) returns (s: bv32)
    requires round < 16 && shifts as int == Shifts(round)
    ensures s as int == Shifts(round + 1) && s <= 28
  {
    if KeyShift(round) == 1 {
      s := OneMore(shifts, Shifts(round));
    } else {
      s := TwoMore(shifts, Shifts(round));
    }
  }

  method OneMore(s: bv32, ghost n: nat) returns (t: bv32)
    requires s as int == n < 28
    ensures t as int == n + 1 && t <= 28
  {
    t := s + 1;
  }

  method TwoMore(s: bv32, ghost n: nat) returns (t: bv32)
    requires s as int == n < 27
    ensures t as int == n + 2 && t <= 28
  {
    t := s + 2;
  }

  // --------------------------------------------------------------------- rounds

  /** The two 24-bit halves of the E-box. */
  function ExpandLeft(r: bv32): bv32 {
    ((r & 0x00000001) << 23) | ((r & 0xf8000000) >> 9) | ((r & 0x1f800000) >> 11)
    | ((r & 0x01f80000) >> 13) | ((r & 0x001f8000) >> 15)
  }

  function ExpandRight(r: bv32): bv32 {
    ((r & 0x0001f800) << 7) | ((r & 0x00001f80) << 5) | ((r & 0x000001f8) << 3)
    | ((r & 0x0000001f) << 1) | ((r & 0x80000000) >> 31)
  }

  predicate Small(b: Block) {
    b.l < 0x1000000 && b.r < 0x1000000
  }

  /** One half of the S-box inputs: where the salt has a one the two halves are exchanged, then
      the subkey is added. */
  function Mix(x: bv32, y: bv32, salt: bv32, k: bv32): bv32 {
    x ^ (((x ^ y) & salt) ^ k)
  }

  function MixedLeft(salt: bv32, r: bv32, k: bv32): bv32 {
    Mix(ExpandLeft(r), ExpandRight(r), salt, k)
  }

  function MixedRight(salt: bv32, r: bv32, k: bv32): bv32 {
    Mix(ExpandRight(r), ExpandLeft(r), salt, k)
  }

  lemma MixedSmall(salt: bv32, r: bv32, k: Block)
    requires Small(k)
    ensures MixedLeft(salt, r, k.l) < 0x1000000 && MixedRight(salt, r, k.r) < 0x1000000
  {
  }

  type Box = s: seq<seq<bv32>> | |s| == 8 && forall i :: 0 <= i < 8 ==> |s[i]| == 64
    witness seq(8, _ => seq(64, _ => 0))

  function Entry(box: Box, i: nat, x: bv32): bv32
    requires i < 8 && x < 64
  {
    box[i][x as int]
  }

  /** The S-boxes and the P-box at once; every index is below 64. */
  function Substitute(box: Box, x: bv32, y: bv32): bv32
    requires x < 0x1000000 && y < 0x1000000
  {
    Entry(box, 0, x >> 18) | Entry(box, 1, (x >> 12) & 0x3f) | Entry(box, 2, (x >> 6) & 0x3f) | Entry(box, 3, x & 0x3f)
    | Entry(box, 4, y >> 18) | Entry(box, 5, (y >> 12) & 0x3f) | Entry(box, 6, (y >> 6) & 0x3f) | Entry(box, 7, y & 0x3f)
  }

  type Keys = ks: seq<Block> | forall i :: 0 <= i < |ks| ==> Small(ks[i])

  function F(box: Box, salt: bv32, r: bv32, k: Block): bv32
    requires Small(k)
  {
    MixedSmall(salt, r, k);
    Substitute(box, MixedLeft(salt, r, k.l), MixedRight(salt, r, k.r))
  }

  function Round(box: Box, salt: bv32, b: Block, k: Block): Block
    requires Small(k)
  {
    Block(b.r, b.l ^ F(box, salt, b.r, k))
  }

  function Swap(b: Block): Block {
    Block(b.r, b.l)
  }

  /** One round for each subkey. */
  function Rounds(box: Box, salt: bv32, ks: Keys, b: Block): Block {
    if ks == [] then b else Round(box, salt, Rounds(box, salt, ks[..|ks| - 1], b), ks[|ks| - 1])
  }

  /** count times all rounds, with the halves swapped after each time. */
  function Iterate(box: Box, salt: bv32, ks: Keys, count: nat, b: Block): Block {
    if count == 0 then b else Swap(Rounds(box, salt, ks, Iterate(box, salt, ks, count - 1, b)))
  }

  function Cipher(box: Box, salt: bv32, ks: Keys, count: nat, b: Block): Block {
    Fp(Iterate(box, salt, ks, count, Ip(b)))
  }

  /** The inner loop of __do_des. */
  method DoRounds(box: Box, b: Block, salt: bv32, ks: Keys) returns (c: Block)
    ensures c == Rounds(box, salt, ks, b)
  {
    c := b;
    for round := 0 to |ks|
      invariant c == Rounds(box, salt, ks[..round], b)
    {
      assert ks[..round + 1][..round] == ks[..round];
      c := Round(box, salt, c, ks[round]);
    }
    assert ks[..|ks|] == ks;
  }

  /** __do_des. */
  method DoDes(box: Box, b: Block, count: nat, salt: bv32, ks: Keys) returns (out: Block)
    ensures out == Cipher(box, salt, ks, count, b)
  {
    out := InitialPermutation(b);
    for n := 0 to count
      invariant out == Iterate(box, salt, ks, n, Ip(b))
    {
      out := DoRounds(box, out, salt, ks);
      out := Swap(out);
    }
    out := FinalPermutation(out);
  }

  // ------------------------------------------------------------------ decryption

  function Reverse(ks: Keys): (rs: Keys)
    ensures |rs| == |ks| && forall i :: 0 <= i < |ks| ==> rs[i] == ks[|ks| - 1 - i]
  {
    seq(|ks|, i requires 0 <= i < |ks| => ks[|ks| - 1 - i])
  }

  lemma {:induction false} RoundsFirst(box: Box, salt: bv32, k: Block, ks: Keys, b: Block)
    requires Small(k)
    ensures Rounds(box, salt, [k] + ks, b) == Rounds(box, salt, ks, Round(box, salt, b, k))
    decreases |ks|
  {
    var s: Keys := [k] + ks;
    if ks == [] {
      assert s[..|s| - 1] == [];
    } else {
      assert s[..|s| - 1] == [k] + ks[..|ks| - 1];
      RoundsFirst(box, salt, k, ks[..|ks| - 1], b);
    }
  }

  /** A round undoes itself between two swaps, whatever F is. */
  lemma RoundTwice(box: Box, salt: bv32, k: Block, b: Block)
    requires Small(k)
    ensures Round(box, salt, Swap(Round(box, salt, b, k)), k) == Swap(b)
  {
    var f := F(box, salt, b.r, k);
    XorTwice(b.l, f);
  }

  lemma XorTwice(x: bv32, f: bv32)
    ensures (x ^ f) ^ f == x
  {
  }

  lemma {:induction false} RoundsUndone(box: Box, salt: bv32, ks: Keys, b: Block)
    ensures Rounds(box, salt, Reverse(ks), Swap(Rounds(box, salt, ks, b))) == Swap(b)
    decreases |ks|
  {
    if ks != [] {
      var k, front: Keys := ks[|ks| - 1], ks[..|ks| - 1];
      var c := Rounds(box, salt, front, b);
      assert Reverse(ks) == [k] + Reverse(front);
      RoundsFirst(box, salt, k, Reverse(front), Swap(Round(box, salt, c, k)));
      RoundTwice(box, salt, k, c);
      RoundsUndone(box, salt, front, b);
    }
  }

  lemma {:induction false} IterateFirst(box: Box, salt: bv32, ks: Keys, count: nat, b: Block)
    ensures Iterate(box, salt, ks, count + 1, b) == Iterate(box, salt, ks, count, Swap(Rounds(box, salt, ks, b)))
  {
    if count > 0 {
      IterateFirst(box, salt, ks, count - 1, b);
    }
  }

  lemma {:induction false} IterateUndone(box: Box, salt: bv32, ks: Keys, count: nat, b: Block)
    ensures Iterate(box, salt, Reverse(ks), count, Iterate(box, salt, ks, count, b)) == b
  {
    if count > 0 {
      var c, back := Iterate(box, salt, ks, count - 1, b), Reverse(ks);
      var d := Swap(Rounds(box, salt, ks, c));
      IterateFirst(box, salt, back, count - 1, d);
      assert Swap(Rounds(box, salt, back, d)) == c by { RoundsUndone(box, salt, ks, c); }
      IterateUndone(box, salt, ks, count - 1, b);
    }
  }

  /** The cipher under the reversed key schedule undoes the cipher: for every block, every
      salt, every number of iterations and every S-boxes. */
  lemma Decrypts(box: Box, salt: bv32, ks: Keys, count: nat, b: Block)
    ensures Cipher(box, salt, Reverse(ks), count, Cipher(box, salt, ks, count, b)) == b
  {
    IpUndoesFp(Iterate(box, salt, ks, count, Ip(b)));
    IterateUndone(box, salt, ks, count, Ip(b));
    FpUndoesIp(b);
  }

  // ------------------------------------------------------------- complementation

  function Not(b: Block): Block {
    Block(!b.l, !b.r)
  }

  const M24: bv32 := 0xffffff

  /** Two words of 24, or 28, bits that are each other's complement. */
  ghost predicate Opposite24(k: bv32, k': bv32) {
    k' == k ^ M24
  }

  ghost predicate Opposite(k: bv32, k': bv32) {
    k <= M28 && k' == k ^ M28
  }

  ghost predicate OppositeKeys(k: Block, k': Block) {
    Opposite24(k.l, k'.l) && Opposite24(k.r, k'.r)
  }

  lemma Pc2LNot(x: bv32, x': bv32)
    requires Opposite(x, x')
    ensures Opposite24(Pc2L(x), Pc2L(x'))
  {
  }

  lemma Pc2RNot(x: bv32, x': bv32)
    requires Opposite(x, x')
    ensures Opposite24(Pc2R(x), Pc2R(x'))
  {
  }

  lemma ExpandLeftNot(r: bv32)
    ensures ExpandLeft(!r) == ExpandLeft(r) ^ M24
  {
  }

  lemma ExpandRightNot(r: bv32)
    ensures ExpandRight(!r) == ExpandRight(r) ^ M24
  {
  }

  lemma MixFlipped(x: bv32, y: bv32, x': bv32, y': bv32, salt: bv32, k: bv32, m: bv32)
    requires x' == x ^ m && y' == y ^ m
    ensures Mix(x', y', salt, k ^ m) == Mix(x, y, salt, k)
  {
  }

  lemma MixedLeftFlipped(salt: bv32, r: bv32, r': bv32, k: bv32, m: bv32)
    requires ExpandLeft(r') == ExpandLeft(r) ^ m && ExpandRight(r') == ExpandRight(r) ^ m
    ensures MixedLeft(salt, r', k ^ m) == MixedLeft(salt, r, k)
  {
    MixFlipped(ExpandLeft(r), ExpandRight(r), ExpandLeft(r'), ExpandRight(r'), salt, k, m);
  }

  lemma MixedRightFlipped(salt: bv32, r: bv32, r': bv32, k: bv32, m: bv32)
    requires ExpandLeft(r') == ExpandLeft(r) ^ m && ExpandRight(r') == ExpandRight(r) ^ m
    ensures MixedRight(salt, r', k ^ m) == MixedRight(salt, r, k)
  {
    MixFlipped(ExpandRight(r), ExpandLeft(r), ExpandRight(r'), ExpandLeft(r'), salt, k, m);
  }

  lemma FSame(box: Box, salt: bv32, r: bv32, r': bv32, k: Block, k': Block)
    requires Small(k) && Small(k')
    requires MixedLeft(salt, r', k'.l) == MixedLeft(salt, r, k.l)
    requires MixedRight(salt, r', k'.r) == MixedRight(salt, r, k.r)
    ensures F(box, salt, r', k') == F(box, salt, r, k)
  {
  }

  lemma MixedLeftNot(salt: bv32, r: bv32, k: bv32, k': bv32)
    requires Opposite24(k, k')
    ensures MixedLeft(salt, !r, k') == MixedLeft(salt, r, k)
  {
    ExpandLeftNot(r);
    ExpandRightNot(r);
    MixedLeftFlipped(salt, r, !r, k, M24);
  }

  lemma MixedRightNot(salt: bv32, r: bv32, k: bv32, k': bv32)
    requires Opposite24(k, k')
    ensures MixedRight(salt, !r, k') == MixedRight(salt, r, k)
  {
    ExpandLeftNot(r);
    ExpandRightNot(r);
    MixedRightFlipped(salt, r, !r, k, M24);
  }

  /** The S-boxes see the same input. */
  lemma FNot(box: Box, salt: bv32, r: bv32, k: Block, k': Block)
    requires Small(k) && Small(k') && OppositeKeys(k, k')
    ensures F(box, salt, !r, k') == F(box, salt, r, k)
  {
    MixedLeftNot(salt, r, k.l, k'.l);
    MixedRightNot(salt, r, k.r, k'.r);
    FSame(box, salt, r, !r, k, k');
  }

  lemma XorNot(x: bv32, f: bv32)
    ensures !x ^ f == !(x ^ f)
  {
  }

  lemma NotOf(b: Block)
    ensures Not(b) == Block(!b.l, !b.r)
  {
  }

  lemma NotBlock(l: bv32, r: bv32)
    ensures Not(Block(l, r)) == Block(!l, !r)
  {
  }

  lemma RoundOf(box: Box, salt: bv32, l: bv32, r: bv32, k: Block)
    requires Small(k)
    ensures Round(box, salt, Block(l, r), k) == Block(r, l ^ F(box, salt, r, k))
  {
  }

  lemma NotRound(box: Box, salt: bv32, b: Block, k: Block)
    requires Small(k)
    ensures Not(Round(box, salt, b, k)) == Block(!b.r, !(b.l ^ F(box, salt, b.r, k)))
  {
  }

  lemma RoundSame(box: Box, salt: bv32, b: Block, k: Block, k': Block, f: bv32)
    requires Small(k) && Small(k') && F(box, salt, !b.r, k') == f == F(box, salt, b.r, k)
    ensures Round(box, salt, Not(b), k') == Not(Round(box, salt, b, k))
  {
    NotOf(b);
    RoundOf(box, salt, !b.l, !b.r, k');
    XorNot(b.l, f);
    NotRound(box, salt, b, k);
  }

  lemma RoundNot(box: Box, salt: bv32, b: Block, k: Block, k': Block)
    requires Small(k) && Small(k') && OppositeKeys(k, k')
    ensures Round(box, salt, Not(b), k') == Not(Round(box, salt, b, k))
  {
    FNot(box, salt, b.r, k, k');
    RoundSame(box, salt, b, k, k', F(box, salt, b.r, k));
  }

  ghost predicate Flipped(ks: Keys, ks': Keys) {
    |ks'| == |ks| && forall i :: 0 <= i < |ks| ==> OppositeKeys(ks[i], ks'[i])
  }

  lemma {:induction false} RoundsNot(box: Box, salt: bv32, ks: Keys, ks': Keys, b: Block)
    requires Flipped(ks, ks')
    ensures Rounds(box, salt, ks', Not(b)) == Not(Rounds(box, salt, ks, b))
    decreases |ks|
  {
    if ks != [] {
      var n := |ks| - 1;
      RoundsNot(box, salt, ks[..n], ks'[..n], b);
      RoundNot(box, salt, Rounds(box, salt, ks[..n], b), ks[n], ks'[n]);
    }
  }

  lemma SwapNot(b: Block)
    ensures Swap(Not(b)) == Not(Swap(b))
  {
  }

  lemma {:induction false} IterateNot(box: Box, salt: bv32, ks: Keys, ks': Keys, count: nat, b: Block)
    requires Flipped(ks, ks')
    ensures Iterate(box, salt, ks', count, Not(b)) == Not(Iterate(box, salt, ks, count, b))
    decreases count
  {
    if count > 0 {
      IterateNot(box, salt, ks, ks', count - 1, b);
      var c := Iterate(box, salt, ks, count - 1, b);
      RoundsNot(box, salt, ks, ks', c);
      SwapNot(Rounds(box, salt, ks, c));
    }
  }

  lemma IpLeftNot(l: bv32, r: bv32)
    ensures IpLeft(!l, !r) == !IpLeft(l, r)
  {
  }

  lemma IpRightNot(l: bv32, r: bv32)
    ensures IpRight(!l, !r) == !IpRight(l, r)
  {
  }

  lemma FpLeftNot(l: bv32, r: bv32)
    ensures FpLeft(!l, !r) == !FpLeft(l, r)
  {
  }

  lemma FpRightNot(l: bv32, r: bv32)
    ensures FpRight(!l, !r) == !FpRight(l, r)
  {
  }

  lemma IpOf(l: bv32, r: bv32)
    ensures Ip(Block(l, r)) == Block(IpLeft(l, r), IpRight(l, r))
  {
  }

  lemma IpNotWords(l: bv32, r: bv32)
    ensures Ip(Not(Block(l, r))) == Not(Ip(Block(l, r)))
  {
    NotBlock(l, r);
    IpOf(l, r);
    IpOf(!l, !r);
    IpLeftNot(l, r);
    IpRightNot(l, r);
    NotBlock(IpLeft(l, r), IpRight(l, r));
  }

  lemma IpNot(b: Block)
    ensures Ip(Not(b)) == Not(Ip(b))
  {
    var Block(l, r) := b;
    IpNotWords(l, r);
  }

  lemma FpOf(l: bv32, r: bv32)
    ensures Fp(Block(l, r)) == Block(FpLeft(l, r), FpRight(l, r))
  {
  }

  lemma FpNotWords(l: bv32, r: bv32)
    ensures Fp(Not(Block(l, r))) == Not(Fp(Block(l, r)))
  {
    NotBlock(l, r);
    FpOf(l, r);
    FpOf(!l, !r);
    FpLeftNot(l, r);
    FpRightNot(l, r);
    NotBlock(FpLeft(l, r), FpRight(l, r));
  }

  lemma FpNot(b: Block)
    ensures Fp(Not(b)) == Not(Fp(b))
  {
    var Block(l, r) := b;
    FpNotWords(l, r);
  }

  lemma CipherNot(box: Box, salt: bv32, ks: Keys, ks': Keys, count: nat, b: Block)
    requires Flipped(ks, ks')
    ensures Cipher(box, salt, ks', count, Not(b)) == Not(Cipher(box, salt, ks, count, b))
  {
    IpNot(b);
    IterateNot(box, salt, ks, ks', count, Ip(b));
    FpNot(Iterate(box, salt, ks, count, Ip(b)));
  }

  // The key schedule of the complemented key.

  lemma Turn1Not(k: bv32, k': bv32)
    requires k <= M28 && k' == k ^ M28
    ensures Turn1(k') == Turn1(k) ^ M28 && Turn1(k) <= M28
  {
  }

  lemma Turn1Opposite(k: bv32, k': bv32)
    requires Opposite(k, k')
    ensures Opposite(Turn1(k), Turn1(k'))
  {
    Turn1Not(k, k');
  }

  lemma TurnOf(k: bv32, n: nat)
    ensures Turn(k, n + 1) == Turn1(Turn(k, n))
  {
  }

  lemma {:induction false} TurnNot(k: bv32, k': bv32, n: nat)
    requires Opposite(k, k')
    ensures Opposite(Turn(k, n), Turn(k', n))
    decreases n
  {
    if n > 0 {
      TurnNot(k, k', n - 1);
      Turn1Opposite(Turn(k, n - 1), Turn(k', n - 1));
      TurnOf(k, n - 1);
      TurnOf(k', n - 1);
    }
  }

  lemma Pc1LeftNot(l: bv32, r: bv32)
    ensures Opposite(Pc1Left(l, r), Pc1Left(!l, !r))
  {
  }

  lemma Pc1RightNot(l: bv32, r: bv32)
    ensures Opposite(Pc1Right(l, r), Pc1Right(!l, !r))
  {
  }

  lemma {:induction false} LeftHalfNot(l: bv32, r: bv32, n: nat)
    requires n <= 16
    ensures Opposite(LeftHalf(l, r, n), LeftHalf(!l, !r, n))
  {
    if n == 0 {
      Pc1LeftNot(l, r);
    } else {
      LeftHalfNot(l, r, n - 1);
      TurnNot(LeftHalf(l, r, n - 1), LeftHalf(!l, !r, n - 1), KeyShift(n - 1));
    }
  }

  lemma {:induction false} RightHalfNot(l: bv32, r: bv32, n: nat)
    requires n <= 16
    ensures Opposite(RightHalf(l, r, n), RightHalf(!l, !r, n))
  {
    if n == 0 {
      Pc1RightNot(l, r);
    } else {
      RightHalfNot(l, r, n - 1);
      TurnNot(RightHalf(l, r, n - 1), RightHalf(!l, !r, n - 1), KeyShift(n - 1));
    }
  }

  lemma LeftKeyNot(l: bv32, r: bv32, n: nat)
    requires n <= 16
    ensures Opposite24(Pc2L(LeftHalf(l, r, n)), Pc2L(LeftHalf(!l, !r, n)))
  {
    LeftHalfNot(l, r, n);
    Pc2LNot(LeftHalf(l, r, n), LeftHalf(!l, !r, n));
  }

  lemma RightKeyNot(l: bv32, r: bv32, n: nat)
    requires n <= 16
    ensures Opposite24(Pc2R(RightHalf(l, r, n)), Pc2R(RightHalf(!l, !r, n)))
  {
    RightHalfNot(l, r, n);
    Pc2RNot(RightHalf(l, r, n), RightHalf(!l, !r, n));
  }

  lemma SubkeyOf(l: bv32, r: bv32, i: nat)
    requires i < 16
    ensures Subkey(Block(l, r), i) == Block(Pc2L(LeftHalf(l, r, i + 1)), Pc2R(RightHalf(l, r, i + 1)))
  {
  }

  lemma OppositeBlocks(a: bv32, b: bv32, a': bv32, b': bv32)
    requires Opposite24(a, a') && Opposite24(b, b')
    ensures OppositeKeys(Block(a, b), Block(a', b'))
  {
  }

  lemma SubkeyNot(key: Block, i: nat)
    requires i < 16
    ensures OppositeKeys(Subkey(key, i), Subkey(Not(key), i))
  {
    var l, r, n := key.l, key.r, i + 1;
    NotOf(key);
    SubkeyOf(l, r, i);
    SubkeyOf(!l, !r, i);
    LeftKeyNot(l, r, n);
    RightKeyNot(l, r, n);
    OppositeBlocks(Pc2L(LeftHalf(l, r, n)), Pc2R(RightHalf(l, r, n)), Pc2L(LeftHalf(!l, !r, n)), Pc2R(RightHalf(!l, !r, n)));
  }

  lemma SubkeySmall(key: Block, i: nat)
    requires i < 16
    ensures Small(Subkey(key, i))
  {
    Pc2LSmall(LeftHalf(key.l, key.r, i + 1));
    Pc2RSmall(RightHalf(key.l, key.r, i + 1));
  }

  lemma Pc2LSmall(x: bv32)
    ensures Pc2L(x) < 0x1000000
  {
  }

  lemma Pc2RSmall(x: bv32)
    ensures Pc2R(x) < 0x1000000
  {
  }

  lemma {:induction false} ScheduleAt(key: Block, n: nat, i: nat)
    requires i < n <= 16
    ensures Schedule(key, n)[i] == Subkey(key, i)
  {
    if i < n - 1 {
      ScheduleAt(key, n - 1, i);
    }
  }

  lemma ScheduleSmall(key: Block)
    ensures forall i :: 0 <= i < 16 ==> Small(Schedule(key, 16)[i])
  {
    forall i | 0 <= i < 16
      ensures Small(Schedule(key, 16)[i])
    {
      ScheduleAt(key, 16, i);
      SubkeySmall(key, i);
    }
  }

  /** Every schedule has 24-bit words, so that no S-box index is out of range. */
  function KeysOf(key: Block): (ks: Keys)
    ensures |ks| == 16
  {
    ScheduleSmall(key);
    Schedule(key, 16)
  }

  lemma ScheduleNot(key: Block, i: nat)
    requires i < 16
    ensures OppositeKeys(Schedule(key, 16)[i], Schedule(Not(key), 16)[i])
  {
    ScheduleAt(key, 16, i);
    ScheduleAt(Not(key), 16, i);
    SubkeyNot(key, i);
  }

  /** Complementing the key and the block complements the result: for every salt, every number
      of iterations and every S-boxes. */
  lemma Complements(box: Box, salt: bv32, key: Block, count: nat, b: Block)
    ensures Cipher(box, salt, KeysOf(Not(key)), count, Not(b)) == Not(Cipher(box, salt, KeysOf(key), count, b))
  {
    forall i | 0 <= i < 16
      ensures OppositeKeys(KeysOf(key)[i], KeysOf(Not(key))[i])
    {
      ScheduleNot(key, i);
    }
    CipherNot(box, salt, KeysOf(key), KeysOf(Not(key)), count, b);
  }
}
