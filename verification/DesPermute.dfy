/** The permutations of library/crypt/crypt_des.c: the loops over the tables, the wirings they
    compute, and what the wirings keep. */
module DesPermute {
  import opened DesTables

  // ------------------------------------------------------------------ wirings

  /** A block: the two words the C code calls l and r. */
  datatype Block = Block(l: bv32, r: bv32)

  function Ip(b: Block): Block {
    Block(IpLeft(b.l, b.r), IpRight(b.l, b.r))
  }

  function Fp(b: Block): Block {
    Block(FpLeft(b.l, b.r), FpRight(b.l, b.r))
  }

  /** The two 28-bit halves of a key. */
  function Pc1(key: Block): Block {
    Block(Pc1Left(key.l, key.r), Pc1Right(key.l, key.r))
  }

  function Pc2(halves: Block): Block {
    Block(Pc2L(halves.l), Pc2R(halves.r))
  }

  /** IP and FP undo each other. */
  lemma FpUndoesIp(b: Block)
    ensures Fp(Ip(b)) == b
  {
    FpIpLeft(b.l, b.r);
    FpIpRight(b.l, b.r);
  }

  lemma IpUndoesFp(b: Block)
    ensures Ip(Fp(b)) == b
  {
    IpFpLeft(b.l, b.r);
    IpFpRight(b.l, b.r);
  }

  lemma FpIpLeft(l: bv32, r: bv32)
    ensures FpLeft(IpLeft(l, r), IpRight(l, r)) == l
  {
  }

  lemma FpIpRight(l: bv32, r: bv32)
    ensures FpRight(IpLeft(l, r), IpRight(l, r)) == r
  {
  }

  lemma IpFpLeft(l: bv32, r: bv32)
    ensures IpLeft(FpLeft(l, r), FpRight(l, r)) == l
  {
  }

  lemma IpFpRight(l: bv32, r: bv32)
    ensures IpRight(FpLeft(l, r), FpRight(l, r)) == r
  {
  }

  // --------------------------------------------------------------------- loops

  // The C loops gather both words of a result at once; here each word has its own loop.

  /** row[(x >> ibit) & 0xf]. */
  method LookUpNibble(row: seq<bv32>, x: bv32, i: nat) returns (v: bv32)
    requires |row| == 16 && i < 8
    ensures v == Pick(row, Nibble(x, i))
  {
    ShiftIsNibble(x, i);
    var n := (x >> NibbleShift(i)) & 0xf;
    PickIsIndex(row, Nibble(x, i), n, n as int);
    v := row[n as int];
  }

  /** row[(x >> ibit) & 7]. */
  method LookUpThree(row: seq<bv32>, x: bv32, i: nat) returns (v: bv32)
    requires |row| == 8 && i < 4
    ensures v == Pick8(row, Three(x, i))
  {
    ShiftIsThree(x, i);
    var n := (x >> ThreeShift(i)) & 7;
    Pick8IsIndex(row, Three(x, i), n, n as int);
    v := row[n as int];
  }

  method LookUpFour(row: seq<bv32>, x: bv32, i: nat) returns (v: bv32)
    requires |row| == 16 && i < 4
    ensures v == Pick(row, Four(x, i))
  {
    ShiftIsFour(x, i);
    var n := (x >> FourShift(i)) & 0xf;
    PickIsIndex(row, Four(x, i), n, n as int);
    v := row[n as int];
  }

  method IpPass(t: seq<seq<bv32>>, l: bv32, r: bv32, i: nat) returns (v: bv32)
    requires Table(t, 16, 16) && i < 8
    ensures v == IpPart(t, l, r, i)
  {
    var a := LookUpNibble(t[i], l, i);
    var b := LookUpNibble(t[i + 8], r, i);
    v := a | b;
  }

  method IpWord(t: seq<seq<bv32>>, l: bv32, r: bv32) returns (w: bv32)
    requires Table(t, 16, 16)
    ensures w == Or(IpParts(t, l, r), 8)
  {
    w := 0;
    for i := 0 to 8
      invariant w == Or(IpParts(t, l, r), i)
    {
      var v := IpPass(t, l, r, i);
      w := w | v;
    }
  }

  method FpPass(t: seq<seq<bv32>>, odd: nat, l: bv32, r: bv32, i: nat) returns (v: bv32)
    requires Table(t, 8, 16) && odd <= 1 && i < 4
    ensures v == FpPart(t, odd, l, r, i)
  {
    var a := LookUpNibble(t[i], l, 2 * i + odd);
    var b := LookUpNibble(t[i + 4], r, 2 * i + odd);
    v := a | b;
  }

  method FpWord(t: seq<seq<bv32>>, odd: nat, l: bv32, r: bv32) returns (w: bv32)
    requires Table(t, 8, 16) && odd <= 1
    ensures w == Or(FpParts(t, odd, l, r), 4)
  {
    w := 0;
    for i := 0 to 4
      invariant w == Or(FpParts(t, odd, l, r), i)
    {
      var v := FpPass(t, odd, l, r, i);
      w := w | v;
    }
  }

  method Pc1RPair(t: seq<seq<bv32>>, l: bv32, i: nat) returns (v: bv32)
    requires Table(t, 12, 16) && i < 4
    ensures v == Pick(t[2 * i], Nibble(l, 2 * i)) | Pick(t[2 * i + 1], Nibble(l, 2 * i + 1))
  {
    var a := LookUpNibble(t[2 * i], l, 2 * i);
    var b := LookUpNibble(t[2 * i + 1], l, 2 * i + 1);
    v := a | b;
  }

  method Pc1RPass(t: seq<seq<bv32>>, l: bv32, r: bv32, i: nat) returns (v: bv32)
    requires Table(t, 12, 16) && i < 4
    ensures v == Pc1RPart(t, l, r, i)
  {
    var a := Pc1RPair(t, l, i);
    var b := LookUpNibble(t[i + 8], r, 2 * i + 1);
    v := a | b;
  }

  method Pc1RWord(t: seq<seq<bv32>>, l: bv32, r: bv32) returns (w: bv32)
    requires Table(t, 12, 16)
    ensures w == Or(Pc1RParts(t, l, r), 4)
  {
    w := 0;
    for i := 0 to 4
      invariant w == Or(Pc1RParts(t, l, r), i)
    {
      var v := Pc1RPass(t, l, r, i);
      w := w | v;
    }
  }

  method Pc2Pass(t0: seq<seq<bv32>>, t1: seq<seq<bv32>>, x: bv32, i: nat) returns (v: bv32)
    requires Table(t0, 4, 8) && Table(t1, 4, 16) && i < 4
    ensures v == Pc2Part(t0, t1, x, i)
  {
    var a := LookUpThree(t0[i], x, i);
    var b := LookUpFour(t1[i], x, i);
    v := a | b;
  }

  method Pc2Word(t0: seq<seq<bv32>>, t1: seq<seq<bv32>>, x: bv32) returns (w: bv32)
    requires Table(t0, 4, 8) && Table(t1, 4, 16)
    ensures w == Or(Pc2Parts(t0, t1, x), 4)
  {
    w := 0;
    for i := 0 to 4
      invariant w == Or(Pc2Parts(t0, t1, x), i)
    {
      var v := Pc2Pass(t0, t1, x, i);
      w := w | v;
    }
  }

  /** The initial permutation; an all-zero block is not looked up. */
  method InitialPermutation(b: Block) returns (p: Block)
    ensures p == Ip(b)
  {
    if b.l | b.r == 0 {
      ZeroIp(b.l, b.r);
      return Block(0, 0);
    }
    IpShape();
    var l := IpWord(IP_MASKL, b.l, b.r);
    var r := IpWord(IP_MASKR, b.l, b.r);
    IpLLoop(b.l, b.r);
    IpRLoop(b.l, b.r);
    p := Block(l, r);
  }

  lemma ZeroIp(l: bv32, r: bv32)
    requires l | r == 0
    ensures Ip(Block(l, r)) == Block(0, 0)
  {
  }

  method FinalPermutation(b: Block) returns (p: Block)
    ensures p == Fp(b)
  {
    FpShape();
    var l := FpWord(FP_MASKL, 1, b.l, b.r);
    var r := FpWord(FP_MASKR, 0, b.l, b.r);
    FpLLoop(b.l, b.r);
    FpRLoop(b.l, b.r);
    p := Block(l, r);
  }

  method KeyPermutation(key: Block) returns (p: Block)
    ensures p == Pc1(key)
  {
    Pc1Shape();
    var l := FpWord(KEY_PERM_MASKL, 0, key.l, key.r);
    var r := Pc1RWord(KEY_PERM_MASKR, key.l, key.r);
    Pc1LLoop(key.l, key.r);
    Pc1RLoop(key.l, key.r);
    p := Block(l, r);
  }

  method CompressionPermutation(halves: Block) returns (p: Block)
    ensures p == Pc2(halves)
  {
    Pc2Shape();
    var l := Pc2Word(COMP_MASKL0, COMP_MASKL1, halves.l);
    var r := Pc2Word(COMP_MASKR0, COMP_MASKR1, halves.r);
    Pc2LLoop(halves.l);
    Pc2RLoop(halves.r);
    p := Block(l, r);
  }
}
