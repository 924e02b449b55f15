/** DES bit by bit: the permutations, the expansion and the key schedule of library/crypt/crypt_des.c
    follow the tables of FIPS 46-3, in which bits are counted from the left, from 1. */
module DesFips {
  import opened DesTables
  import opened DesPermute
  import opened Des

  // ---------------------------------------------------------------------- tables

  /** The expansion E, first and last 24 bits. */
  function ELeft(i: bv32): bv32 {
    if i <= 12
    then if i == 1 then 32 else if i == 2 then 1 else if i == 3 then 2 else if i == 4 then 3 else if i == 5 then 4 else if i == 6 then 5
         else if i == 7 then 4 else if i == 8 then 5 else if i == 9 then 6 else if i == 10 then 7 else if i == 11 then 8 else 9
    else if i == 13 then 8 else if i == 14 then 9 else if i == 15 then 10 else if i == 16 then 11 else if i == 17 then 12 else if i == 18 then 13
         else if i == 19 then 12 else if i == 20 then 13 else if i == 21 then 14 else if i == 22 then 15 else if i == 23 then 16 else 17
  }

  function ERight(i: bv32): bv32 {
    if i <= 12
    then if i == 1 then 16 else if i == 2 then 17 else if i == 3 then 18 else if i == 4 then 19 else if i == 5 then 20 else if i == 6 then 21
         else if i == 7 then 20 else if i == 8 then 21 else if i == 9 then 22 else if i == 10 then 23 else if i == 11 then 24 else 25
    else if i == 13 then 24 else if i == 14 then 25 else if i == 15 then 26 else if i == 16 then 27 else if i == 17 then 28 else if i == 18 then 29
         else if i == 19 then 28 else if i == 20 then 29 else if i == 21 then 30 else if i == 22 then 31 else if i == 23 then 32 else 1
  }

  /** The initial permutation IP, first 32 bits: rows 58, 50, ..., 2; 60, 52, ..., 4; 62, 54, ..., 6
      and 64, 56, ..., 8. */
  function IpFirst(i: bv32): bv32
    requires 1 <= i <= 32
  {
    58 + 2 * ((i - 1) >> 3) - 8 * ((i - 1) & 7)
  }

  /** Last 32 bits: rows 57, 49, ..., 1; 59, 51, ..., 3; 61, 53, ..., 5 and 63, 55, ..., 7. */
  function IpLast(i: bv32): bv32
    requires 1 <= i <= 32
  {
    57 + 2 * ((i - 1) >> 3) - 8 * ((i - 1) & 7)
  }

  /** Permuted choice 1, first 28 bits: 57, 49, ..., 1, 58, ..., 2, 59, ..., 3, 60, 52, 44, 36. */
  function Pc1First(i: bv32): bv32
    requires 1 <= i <= 28
  {
    57 + ((i - 1) >> 3) - 8 * ((i - 1) & 7)
  }

  /** Last 28 bits: 63, 55, ..., 7, 62, ..., 6, 61, ..., 5, 28, 20, 12, 4. */
  function Pc1Last(i: bv32): bv32
    requires 1 <= i <= 28
  {
    (if i <= 24 then 63 - ((i - 1) >> 3) else 28) - 8 * ((i - 1) & 7)
  }

  /** Permuted choice 2, first 24 bits from the first half and last 24 from the second. */
  function Pc2First(i: bv32): bv32 {
    if i <= 12
    then if i == 1 then 14 else if i == 2 then 17 else if i == 3 then 11 else if i == 4 then 24 else if i == 5 then 1 else if i == 6 then 5
         else if i == 7 then 3 else if i == 8 then 28 else if i == 9 then 15 else if i == 10 then 6 else if i == 11 then 21 else 10
    else if i == 13 then 23 else if i == 14 then 19 else if i == 15 then 12 else if i == 16 then 4 else if i == 17 then 26 else if i == 18 then 8
         else if i == 19 then 16 else if i == 20 then 7 else if i == 21 then 27 else if i == 22 then 20 else if i == 23 then 13 else 2
  }

  /** Counted within the second half. */
  function Pc2Last(i: bv32): bv32 {
    if i <= 12
    then if i == 1 then 13 else if i == 2 then 24 else if i == 3 then 3 else if i == 4 then 9 else if i == 5 then 19 else if i == 6 then 27
         else if i == 7 then 2 else if i == 8 then 12 else if i == 9 then 23 else if i == 10 then 17 else if i == 11 then 5 else 20
    else if i == 13 then 16 else if i == 14 then 21 else if i == 15 then 11 else if i == 16 then 28 else if i == 17 then 6 else if i == 18 then 25
         else if i == 19 then 18 else if i == 20 then 14 else if i == 21 then 22 else if i == 22 then 8 else if i == 23 then 1 else 4
  }

  // ------------------------------------------------------------------------ bits

  /** Bit n of a word and of two words; words of 28 or 24 bits have their bits at the right. */
  function Bit(w: bv32, n: bv32): bv32
    requires n <= 32
  {
    (w >> (32 - n)) & 1
  }

  function Bit64(l: bv32, r: bv32, n: bv32): bv32
    requires n <= 64
  {
    if n <= 32 then Bit(l, n) else Bit(r, n - 32)
  }

  // ------------------------------------------------- expansion and permutations

  lemma ExpandLeftIs(r: bv32, i: bv32)
    requires 1 <= i <= 24
    ensures ELeft(i) <= 32 && Bit(ExpandLeft(r), i + 8) == Bit(r, ELeft(i))
  {
  }

  lemma ExpandRightIs(r: bv32, i: bv32)
    requires 1 <= i <= 24
    ensures ERight(i) <= 32 && Bit(ExpandRight(r), i + 8) == Bit(r, ERight(i))
  {
  }

  lemma IpLeftIs(l: bv32, r: bv32, i: bv32)
    requires 1 <= i <= 32
    ensures IpFirst(i) <= 64 && Bit(IpLeft(l, r), i) == Bit64(l, r, IpFirst(i))
  {
  }

  lemma IpRightIs(l: bv32, r: bv32, i: bv32)
    requires 1 <= i <= 32
    ensures IpLast(i) <= 64 && Bit(IpRight(l, r), i) == Bit64(l, r, IpLast(i))
  {
  }

  lemma Pc1LeftIs(l: bv32, r: bv32, i: bv32)
    requires 1 <= i <= 28
    ensures Pc1First(i) <= 64 && Bit(Pc1Left(l, r), i + 4) == Bit64(l, r, Pc1First(i))
  {
  }

  lemma Pc1RightIs(l: bv32, r: bv32, i: bv32)
    requires 1 <= i <= 28
    ensures Pc1Last(i) <= 64 && Bit(Pc1Right(l, r), i + 4) == Bit64(l, r, Pc1Last(i))
  {
  }

  lemma Pc2LeftIs(x: bv32, i: bv32)
    requires 1 <= i <= 24
    ensures Pc2First(i) <= 28 && Bit(Pc2L(x), i + 8) == Bit(x, Pc2First(i) + 4)
  {
  }

  lemma Pc2RightIs(x: bv32, i: bv32)
    requires 1 <= i <= 24
    ensures Pc2Last(i) <= 28 && Bit(Pc2R(x), i + 8) == Bit(x, Pc2Last(i) + 4)
  {
  }

  // ---------------------------------------------------------------- key schedule

  /** The place from which a left shift by one, and by n, takes bit i of a half. */
  function Next(i: bv32): bv32 {
    if i == 28 then 1 else i + 1
  }

  function Later(i: bv32, n: nat): bv32
    decreases n
  {
    if n == 0 then i else Later(Next(i), n - 1)
  }

  lemma {:induction false} LaterIn(i: bv32, n: nat)
    requires 1 <= i <= 28
    ensures 1 <= Later(i, n) <= 28
    decreases n
  {
    if n > 0 {
      LaterIn(Next(i), n - 1);
    }
  }

  lemma Turn1Bit(k: bv32, i: bv32)
    requires k <= M28 && 1 <= i <= 28
    ensures Bit(Turn1(k), i + 4) == Bit(k, Next(i) + 4)
  {
  }

  lemma Turn1Small(k: bv32)
    ensures Turn1(k) <= M28
  {
  }

  lemma {:induction false} TurnSmall(k: bv32, n: nat)
    requires k <= M28
    ensures Turn(k, n) <= M28
  {
    if n > 0 {
      TurnSmall(k, n - 1);
      Turn1Small(Turn(k, n - 1));
    }
  }

  lemma {:induction false} TurnBit(k: bv32, n: nat, i: bv32)
    requires k <= M28 && 1 <= i <= 28
    ensures Later(i, n) <= 28 && Bit(Turn(k, n), i + 4) == Bit(k, Later(i, n) + 4)
    decreases n
  {
    if n > 0 {
      TurnSmall(k, n - 1);
      Turn1Bit(Turn(k, n - 1), i);
      TurnBit(k, n - 1, Next(i));
    }
  }

  lemma Pc2In(i: bv32)
    requires 1 <= i <= 24
    ensures 1 <= Pc2First(i) <= 28 && 1 <= Pc2Last(i) <= 28
  {
  }

  lemma TurnedLeft(half: bv32, n: nat, i: bv32)
    requires half <= M28 && 1 <= i <= 24
    ensures var j := Later(Pc2First(i), n); 1 <= j <= 28 && Bit(Pc2L(Turn(half, n)), i + 8) == Bit(half, j + 4)
  {
    Pc2In(i);
    LaterIn(Pc2First(i), n);
    Pc2LeftIs(Turn(half, n), i);
    TurnBit(half, n, Pc2First(i));
  }

  lemma TurnedRight(half: bv32, n: nat, i: bv32)
    requires half <= M28 && 1 <= i <= 24
    ensures var j := Later(Pc2Last(i), n); 1 <= j <= 28 && Bit(Pc2R(Turn(half, n)), i + 8) == Bit(half, j + 4)
  {
    Pc2In(i);
    LaterIn(Pc2Last(i), n);
    Pc2RightIs(Turn(half, n), i);
    TurnBit(half, n, Pc2Last(i));
  }

  /** Bit i of the left and of the right half of a subkey is a bit of the key that the tables name,
      with the halves shifted as far as the rounds so far have it. */
  lemma SubkeyLeftIs(key: Block, round: nat, i: bv32)
    requires round < 16 && 1 <= i <= 24
    ensures var j := Later(Pc2First(i), Shifts(round + 1));
      && 1 <= j <= 28 && Pc1First(j) <= 64
      && Bit(Subkey(key, round).l, i + 8) == Bit64(key.l, key.r, Pc1First(j))
  {
    var n := Shifts(round + 1);
    HalvesTurned(key.l, key.r, round + 1);
    Pc1Small(key.l, key.r);
    TurnedLeft(Pc1Left(key.l, key.r), n, i);
    Pc1LeftIs(key.l, key.r, Later(Pc2First(i), n));
  }

  lemma SubkeyRightIs(key: Block, round: nat, i: bv32)
    requires round < 16 && 1 <= i <= 24
    ensures var j := Later(Pc2Last(i), Shifts(round + 1));
      && 1 <= j <= 28 && Pc1Last(j) <= 64
      && Bit(Subkey(key, round).r, i + 8) == Bit64(key.l, key.r, Pc1Last(j))
  {
    var n := Shifts(round + 1);
    HalvesTurned(key.l, key.r, round + 1);
    Pc1Small(key.l, key.r);
    TurnedRight(Pc1Right(key.l, key.r), n, i);
    Pc1RightIs(key.l, key.r, Later(Pc2Last(i), n));
  }

  // ---------------------------------------------------------------------- rounds

  /** What the S-boxes get, before the subkey is added: where the salt has a one, the other half of
      the expansion. */
  lemma MixTakes(x: bv32, y: bv32, salt: bv32, k: bv32)
    ensures (Mix(x, y, salt, k) ^ k) & salt == y & salt
  {
  }

  lemma MixKeeps(x: bv32, y: bv32, salt: bv32, k: bv32)
    ensures (Mix(x, y, salt, k) ^ k) & !salt == x & !salt
  {
  }

  lemma LeftTakes(salt: bv32, r: bv32, k: bv32)
    ensures (MixedLeft(salt, r, k) ^ k) & salt == ExpandRight(r) & salt
  {
    MixTakes(ExpandLeft(r), ExpandRight(r), salt, k);
  }

  lemma LeftKeeps(salt: bv32, r: bv32, k: bv32)
    ensures (MixedLeft(salt, r, k) ^ k) & !salt == ExpandLeft(r) & !salt
  {
    MixKeeps(ExpandLeft(r), ExpandRight(r), salt, k);
  }

  lemma RightTakes(salt: bv32, r: bv32, k: bv32)
    ensures (MixedRight(salt, r, k) ^ k) & salt == ExpandLeft(r) & salt
  {
    MixTakes(ExpandRight(r), ExpandLeft(r), salt, k);
  }

  lemma RightKeeps(salt: bv32, r: bv32, k: bv32)
    ensures (MixedRight(salt, r, k) ^ k) & !salt == ExpandRight(r) & !salt
  {
    MixKeeps(ExpandRight(r), ExpandLeft(r), salt, k);
  }

  lemma SameInput(x: bv32, y: bv32, k: bv32, salt: bv32)
    requires (x ^ k) & salt == (y ^ k) & salt && (x ^ k) & !salt == (y ^ k) & !salt
    ensures x == y
  {
  }

  /** x is p where the salt has a one and q elsewhere, with the subkey added. */
  ghost predicate Mixes(x: bv32, k: bv32, salt: bv32, p: bv32, q: bv32) {
    (x ^ k) & salt == p & salt && (x ^ k) & !salt == q & !salt
  }

  lemma LeftInput(salt: bv32, r: bv32, k: bv32, x: bv32)
    requires Mixes(x, k, salt, ExpandRight(r), ExpandLeft(r))
    ensures x == MixedLeft(salt, r, k)
  {
    LeftTakes(salt, r, k);
    LeftKeeps(salt, r, k);
    SameInput(x, MixedLeft(salt, r, k), k, salt);
  }

  lemma RightInput(salt: bv32, r: bv32, k: bv32, y: bv32)
    requires Mixes(y, k, salt, ExpandLeft(r), ExpandRight(r))
    ensures y == MixedRight(salt, r, k)
  {
    RightTakes(salt, r, k);
    RightKeeps(salt, r, k);
    SameInput(y, MixedRight(salt, r, k), k, salt);
  }

  lemma FAt(box: Box, salt: bv32, r: bv32, k: Block, x: bv32, y: bv32)
    requires Small(k) && x == MixedLeft(salt, r, k.l) && y == MixedRight(salt, r, k.r)
    ensures x < 0x1000000 && y < 0x1000000 && F(box, salt, r, k) == Substitute(box, x, y)
  {
    MixedSmall(salt, r, k);
  }

  /** What F looks up: the expansion with its halves exchanged where the salt has a one, and the
      halves of the subkey added. */
  lemma FIs(box: Box, salt: bv32, r: bv32, k: Block, x: bv32, y: bv32)
    requires Small(k)
    requires Mixes(x, k.l, salt, ExpandRight(r), ExpandLeft(r)) && Mixes(y, k.r, salt, ExpandLeft(r), ExpandRight(r))
    ensures x < 0x1000000 && y < 0x1000000 && F(box, salt, r, k) == Substitute(box, x, y)
  {
    LeftInput(salt, r, k.l, x);
    RightInput(salt, r, k.r, y);
    FAt(box, salt, r, k, x, y);
  }

  /** Six bits of a word of 24, counted from the left. */
  function Six(x: bv32, g: bv32): bv32
    requires g < 4
  {
    (x >> (18 - 6 * g)) & 0x3f
  }

  lemma SixIs(x: bv32, g: bv32, j: bv32)
    requires g < 4 && 1 <= j <= 6
    ensures Bit(Six(x, g), 26 + j) == Bit(x, 8 + 6 * g + j)
  {
  }

  lemma SixSmall(x: bv32, g: bv32)
    requires g < 4
    ensures Six(x, g) < 64
  {
  }

  lemma TopSix(x: bv32)
    requires x < 0x1000000
    ensures x >> 18 == Six(x, 0)
  {
  }

  /** S-box i is asked for the bits 6 * i + 1 to 6 * i + 6 of the 48. */
  lemma SubstituteIs(box: Box, x: bv32, y: bv32)
    requires x < 0x1000000 && y < 0x1000000
    ensures forall g :: g < 4 ==> Six(x, g) < 64 && Six(y, g) < 64
    ensures Substitute(box, x, y)
         == Entry(box, 0, Six(x, 0)) | Entry(box, 1, Six(x, 1)) | Entry(box, 2, Six(x, 2)) | Entry(box, 3, Six(x, 3))
            | Entry(box, 4, Six(y, 0)) | Entry(box, 5, Six(y, 1)) | Entry(box, 6, Six(y, 2)) | Entry(box, 7, Six(y, 3))
  {
    forall g | g < 4
      ensures Six(x, g) < 64 && Six(y, g) < 64
    {
      SixSmall(x, g);
      SixSmall(y, g);
    }
    TopSix(x);
    TopSix(y);
  }

  /** The halves of the rounds in one sequence: L0, R0 = L1, R1 = L2, and so on. */
  function Half(box: Box, salt: bv32, ks: Keys, b: Block, n: nat): bv32
    requires n <= |ks| + 1
  {
    if n == 0 then b.l else if n == 1 then b.r
    else Half(box, salt, ks, b, n - 2) ^ F(box, salt, Half(box, salt, ks, b, n - 1), ks[n - 2])
  }

  lemma HalfOf(box: Box, salt: bv32, ks: Keys, b: Block, n: nat)
    requires 0 < n <= |ks|
    ensures Half(box, salt, ks, b, n + 1) == Half(box, salt, ks, b, n - 1) ^ F(box, salt, Half(box, salt, ks, b, n), ks[n - 1])
  {
  }

  lemma RoundsOf(box: Box, salt: bv32, ks: Keys, b: Block, n: nat)
    requires 0 < n <= |ks|
    ensures Rounds(box, salt, ks[..n], b) == Round(box, salt, Rounds(box, salt, ks[..n - 1], b), ks[n - 1])
  {
    assert ks[..n][..n - 1] == ks[..n - 1];
  }

  lemma {:induction false} RoundsAre(box: Box, salt: bv32, ks: Keys, b: Block, n: nat)
    requires n <= |ks|
    ensures Rounds(box, salt, ks[..n], b) == Block(Half(box, salt, ks, b, n), Half(box, salt, ks, b, n + 1))
    decreases n
  {
    if n > 0 {
      RoundsAre(box, salt, ks, b, n - 1);
      RoundsOf(box, salt, ks, b, n);
      HalfOf(box, salt, ks, b, n);
      RoundOf(box, salt, Half(box, salt, ks, b, n - 1), Half(box, salt, ks, b, n), ks[n - 1]);
    }
  }

  /** DES as the standard has it: the initial permutation, the rounds, R16 before L16, and the
      inverse of the initial permutation. */
  lemma CipherIs(box: Box, salt: bv32, ks: Keys, b: Block)
    ensures var n := |ks|;
      Ip(Cipher(box, salt, ks, 1, b)) == Block(Half(box, salt, ks, Ip(b), n + 1), Half(box, salt, ks, Ip(b), n))
  {
    var c := Ip(b);
    RoundsAre(box, salt, ks, c, |ks|);
    assert ks[..|ks|] == ks;
    assert Iterate(box, salt, ks, 0, c) == c;
    assert Iterate(box, salt, ks, 1, c) == Swap(Rounds(box, salt, ks, c));
    IpUndoesFp(Iterate(box, salt, ks, 1, c));
  }
}
