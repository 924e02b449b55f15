/** setkey and encrypt (library/crypt/encrypt.c): DES on blocks of 64 characters, each of which
    stands for its lowest bit. */
module Encrypt {
  import opened Common
  import opened DesTables
  import opened DesPermute
  import opened Des

  // ------------------------------------------------------------------------ bits

  function Low(c: byte): bv32 {
    if c % 2 == 1 then 1 else 0
  }

  /** Bit j of a word. */
  function At(w: bv32, j: nat): bv32
    requires j < 32
  {
    (w >> j) & 1
  }

  lemma ShiftOr(x: bv32, y: bv32, j: nat)
    requires j < 32
    ensures (x | y) >> j == (x >> j) | (y >> j)
  {
  }

  lemma AndOr(x: bv32, y: bv32)
    ensures (x | y) & 1 == (x & 1) | (y & 1)
  {
  }

  lemma AtOr(x: bv32, y: bv32, j: nat)
    requires j < 32
    ensures At(x | y, j) == At(x, j) | At(y, j)
  {
    ShiftOr(x, y, j);
    AndOr(x >> j, y >> j);
  }

  lemma AtSame(v: bv32, j: nat)
    requires v <= 1 && j < 32
    ensures At(v << j, j) == v
  {
  }

  lemma AtApart(v: bv32, i: nat, j: nat)
    requires v <= 1 && i < 32 && j < 32 && i != j
    ensures At(v << i, j) == 0
  {
  }

  lemma AtZero(j: nat)
    requires j < 32
    ensures At(0, j) == 0
  {
  }

  /** Words are their bits. */
  lemma Extensional(x: bv32, y: bv32)
    requires forall j :: 0 <= j < 32 ==> At(x, j) == At(y, j)
    ensures x == y
  {
    assert At(x, 0) == At(y, 0) && At(x, 1) == At(y, 1) && At(x, 2) == At(y, 2) && At(x, 3) == At(y, 3);
    assert At(x, 4) == At(y, 4) && At(x, 5) == At(y, 5) && At(x, 6) == At(y, 6) && At(x, 7) == At(y, 7);
    assert At(x, 8) == At(y, 8) && At(x, 9) == At(y, 9) && At(x, 10) == At(y, 10) && At(x, 11) == At(y, 11);
    assert At(x, 12) == At(y, 12) && At(x, 13) == At(y, 13) && At(x, 14) == At(y, 14) && At(x, 15) == At(y, 15);
    assert At(x, 16) == At(y, 16) && At(x, 17) == At(y, 17) && At(x, 18) == At(y, 18) && At(x, 19) == At(y, 19);
    assert At(x, 20) == At(y, 20) && At(x, 21) == At(y, 21) && At(x, 22) == At(y, 22) && At(x, 23) == At(y, 23);
    assert At(x, 24) == At(y, 24) && At(x, 25) == At(y, 25) && At(x, 26) == At(y, 26) && At(x, 27) == At(y, 27);
    assert At(x, 28) == At(y, 28) && At(x, 29) == At(y, 29) && At(x, 30) == At(y, 30) && At(x, 31) == At(y, 31);
  }

  // --------------------------------------------------------------------- packing

  /** The word whose highest bits are the first n characters. */
  function Packed(s: seq<byte>, n: nat): bv32
    requires n <= |s| && n <= 32
  {
    if n == 0 then 0 else WithBit(Packed(s, n - 1), s[n - 1], 32 - n)
  }

  function WithBit(w: bv32, c: byte, j: nat): bv32
    requires j < 32
  {
    w | Placed(c, j)
  }

  function Placed(c: byte, j: nat): bv32
    requires j < 32
  {
    Low(c) << j
  }

  lemma PlacedAt(c: byte, i: nat, j: nat)
    requires i < 32 && j < 32
    ensures At(Placed(c, i), j) == if i == j then Low(c) else 0
  {
    if i == j {
      AtSame(Low(c), i);
    } else {
      AtApart(Low(c), i, j);
    }
  }

  lemma OrZero(x: bv32)
    ensures x | 0 == x && 0 | x == x
  {
  }

  ghost predicate Has(w: bv32, j: nat, v: bv32)
    requires j < 32
  {
    At(w, j) == v
  }

  lemma PlacedMore(x: bv32, c: byte, i: nat, j: nat, a: bv32)
    requires i < 32 && j < 32 && Has(x, j, a) && (i == j ==> a == 0)
    ensures Has(WithBit(x, c, i), j, if i == j then Low(c) else a)
  {
    PlacedAt(c, i, j);
    AtOr(x, Placed(c, i), j);
    OrZero(if i == j then Low(c) else a);
  }

  lemma {:induction false} PackedAt(s: seq<byte>, n: nat, i: nat)
    requires n <= |s| && n <= 32 && i < 32
    ensures Has(Packed(s, n), 31 - i, if i < n then Low(s[i]) else 0)
    decreases n
  {
    if n == 0 {
      AtZero(31 - i);
    } else {
      PackedAt(s, n - 1, i);
      PlacedMore(Packed(s, n - 1), s[n - 1], 32 - n, 31 - i, if i < n - 1 then Low(s[i]) else 0);
    }
  }

  /** A word and the characters of its bits, highest first. */
  ghost predicate Spells(s: seq<byte>, w: bv32) {
    |s| == 32 && forall i :: 0 <= i < 32 ==> At(w, 31 - i) == Low(s[i])
  }

  lemma PackedSpells(s: seq<byte>)
    requires |s| == 32
    ensures Spells(s, Packed(s, 32))
  {
    forall i | 0 <= i < 32
      ensures At(Packed(s, 32), 31 - i) == Low(s[i])
    {
      PackedAt(s, 32, i);
    }
  }

  /** The characters determine the word. */
  lemma SpellsOne(s: seq<byte>, x: bv32, y: bv32)
    requires Spells(s, x) && Spells(s, y)
    ensures x == y
  {
    forall j | 0 <= j < 32
      ensures At(x, j) == At(y, j)
    {
      assert At(x, 31 - (31 - j)) == Low(s[31 - j]);
    }
    Extensional(x, y);
  }

  /** The characters of a word. */
  function Char(w: bv32, i: nat): byte
    requires i < 32
  {
    if At(w, 31 - i) == 1 then 1 else 0
  }

  function Unpacked(w: bv32): (s: seq<byte>)
    ensures |s| == 32 && forall i :: 0 <= i < 32 ==> s[i] == Char(w, i)
  {
    seq(32, i requires 0 <= i < 32 => Char(w, i))
  }

  lemma CharSpells(w: bv32, i: nat)
    requires i < 32
    ensures At(w, 31 - i) == Low(Char(w, i))
  {
    assert At(w, 31 - i) <= 1;
  }

  lemma PackUnpacked(w: bv32)
    ensures Packed(Unpacked(w), 32) == w
  {
    var s := Unpacked(w);
    forall i | 0 <= i < 32
      ensures At(w, 31 - i) == Low(s[i])
    {
      CharSpells(w, i);
    }
    PackedSpells(s);
    SpellsOne(s, w, Packed(s, 32));
  }

  /** The lowest bits of characters. */
  function LowBits(s: seq<byte>): (t: seq<byte>)
    ensures |t| == |s| && forall i :: 0 <= i < |s| ==> t[i] == s[i] % 2
  {
    seq(|s|, i requires 0 <= i < |s| => s[i] % 2)
  }

  lemma UnpackPacked(s: seq<byte>)
    requires |s| == 32
    ensures Unpacked(Packed(s, 32)) == LowBits(s)
  {
    PackedSpells(s);
  }

  // --------------------------------------------------------------------- encrypt

  function BlockOf(s: seq<byte>): Block
    requires |s| == 64
  {
    Block(Packed(s[..32], 32), Packed(s[32..], 32))
  }

  function CharsOf(b: Block): (s: seq<byte>)
    ensures |s| == 64
  {
    Unpacked(b.l) + Unpacked(b.r)
  }

  lemma CharsOfBlock(s: seq<byte>)
    requires |s| == 64
    ensures CharsOf(BlockOf(s)) == LowBits(s)
  {
    UnpackPacked(s[..32]);
    UnpackPacked(s[32..]);
  }

  lemma BlockOfChars(b: Block)
    ensures BlockOf(CharsOf(b)) == b
  {
    var s := CharsOf(b);
    assert s[..32] == Unpacked(b.l) && s[32..] == Unpacked(b.r);
    PackUnpacked(b.l);
    PackUnpacked(b.r);
  }

  /** What encrypt leaves in the block. */
  function Encrypted(box: Box, ks: Keys, s: seq<byte>): (t: seq<byte>)
    requires |s| == 64
    ensures |t| == 64
  {
    CharsOf(Cipher(box, 0, ks, 1, BlockOf(s)))
  }

  /** encrypt with edflag set undoes encrypt: for every key and every block of 64 characters. */
  lemma DecryptUndoesEncrypt(box: Box, ks: Keys, s: seq<byte>)
    requires |s| == 64
    ensures Encrypted(box, Reverse(ks), Encrypted(box, ks, s)) == LowBits(s)
  {
    var b := BlockOf(s);
    BlockOfChars(Cipher(box, 0, ks, 1, b));
    Decrypts(box, 0, ks, 1, b);
    CharsOfBlock(s);
  }

  method PackWord(s: seq<byte>) returns (w: bv32)
    requires |s| == 32
    ensures w == Packed(s, 32)
  {
    w := 0;
    for i := 0 to 32
      invariant w == Packed(s, i)
    {
      w := WithBit(w, s[i], 31 - i);
    }
  }

  method PackBlock(s: seq<byte>) returns (b: Block)
    requires |s| == 64
    ensures b == BlockOf(s)
  {
    var l := PackWord(s[..32]);
    var r := PackWord(s[32..]);
    b := Block(l, r);
  }

  method UnpackWord(w: bv32, block: array<byte>, at: nat)
    requires at + 32 <= block.Length
    modifies block
    ensures block[at..at + 32] == Unpacked(w)
    ensures block[..at] == old(block[..at]) && block[at + 32..] == old(block[at + 32..])
  {
    for i := 0 to 32
      invariant forall k :: 0 <= k < i ==> block[at + k] == Char(w, k)
      invariant block[..at] == old(block[..at]) && block[at + 32..] == old(block[at + 32..])
    {
      block[at + i] := Char(w, i);
    }
  }

  method UnpackBlock(b: Block, block: array<byte>)
    requires block.Length == 64
    modifies block
    ensures block[..] == CharsOf(b)
  {
    UnpackWord(b.l, block, 0);
    UnpackWord(b.r, block, 32);
    assert block[..] == block[..32] + block[32..];
  }

  method ReverseKeys(ks: Keys) returns (rs: Keys)
    ensures rs == Reverse(ks)
  {
    rs := [];
    for i := 0 to |ks|
      invariant |rs| == i && forall k :: 0 <= k < i ==> rs[k] == ks[|ks| - 1 - k]
    {
      rs := rs + [ks[|ks| - 1 - i]];
    }
  }

  /** The static __encrypt_key with setkey and encrypt. */
  class Crypter {
    var keys: seq<Block>
    ghost var key: Block

    ghost predicate Valid()
      reads this
    {
      keys == KeysOf(key)
    }

    constructor (bits: seq<byte>)
      requires |bits| == 64
      ensures Valid() && key == BlockOf(bits)
    {
      var k := PackBlock(bits);
      var ks := Des.SetKey(k);
      keys, key := ks, k;
    }

    method SetKey(bits: seq<byte>)
      requires |bits| == 64
      modifies this
      ensures Valid() && key == BlockOf(bits)
    {
      var k := PackBlock(bits);
      keys := Des.SetKey(k);
      key := k;
    }

    method Encrypt(box: Box, block: array<byte>, edflag: bool)
      requires Valid() && block.Length == 64
      modifies block
      ensures block[..] == Encrypted(box, if edflag then Reverse(KeysOf(key)) else KeysOf(key), old(block[..]))
    {
      var b := PackBlock(block[..]);
      var ks: Keys := keys;
      if edflag {
        ks := ReverseKeys(ks);
      }
      b := DoDes(box, b, 1, 0, ks);
      UnpackBlock(b, block);
    }
  }

  /** A block encrypted and then decrypted in place is the block again. */
  method ThereAndBack(c: Crypter, box: Box, block: array<byte>)
    requires c.Valid() && block.Length == 64
    modifies block
    ensures block[..] == LowBits(old(block[..]))
  {
    c.Encrypt(box, block, false);
    c.Encrypt(box, block, true);
    DecryptUndoesEncrypt(box, KeysOf(c.key), old(block[..]));
  }
}
