/** legacy_map (library/iconv/iconv.c): 8-bit code pages as tables of 10-bit entries. */
module Legacy {

  // --------------------------------------------------------------------- look-up

  /** The ten bits that start 2 * q bits into the first of two bytes. */
  function Bits(a: bv8, b: bv8, q: nat): bv16
    requires q < 4
  {
    var x, y := a as bv16, b as bv16;
    if q == 0 then x | ((y << 8) & 1023)
    else if q == 1 then (x >> 2) | ((y << 6) & 1023)
    else if q == 2 then (x >> 4) | ((y << 4) & 1023)
    else (x >> 6) | ((y << 2) & 1023)
  }

  lemma BitsBelow(a: bv8, b: bv8, q: nat)
    requires q < 4
    ensures Bits(a, b, q) < 1024
  {
  }

  /** What legacy_map reads for entry x: two bytes of the table, whatever lies there. */
  function Entry(mem: nat -> bv8, x: nat): (v: nat)
    ensures v < 1024
  {
    var v := Bits(mem(x * 5 / 4), mem(x * 5 / 4 + 1), x % 4);
    BitsBelow(mem(x * 5 / 4), mem(x * 5 / 4 + 1), x % 4);
    v as nat
  }

  /** A byte of a code page; chars are the characters above U+00FF that code pages use. */
  function LegacyMap(chars: nat -> nat, mem: nat -> bv8, code: nat, c: nat): nat {
    if c < 4 * code then c
    else
      var v := Entry(mem, c - 4 * code);
      if v < 256 then v else chars(v - 256)
  }

  /** The number that two bytes make, the second one at the top. */
  function Two(a: bv8, b: bv8): bv16 {
    ((b as bv16) << 8) | (a as bv16)
  }

  /** An entry is ten bits of that number, from bit 2 * q on. */
  lemma BitsAre0(a: bv8, b: bv8)
    ensures Bits(a, b, 0) == Two(a, b) & 1023
  {
  }

  lemma BitsAre1(a: bv8, b: bv8)
    ensures Bits(a, b, 1) == (Two(a, b) >> 2) & 1023
  {
  }

  lemma BitsAre2(a: bv8, b: bv8)
    ensures Bits(a, b, 2) == (Two(a, b) >> 4) & 1023
  {
  }

  lemma BitsAre3(a: bv8, b: bv8)
    ensures Bits(a, b, 3) == (Two(a, b) >> 6) & 1023
  {
  }

  // -------------------------------------------------------------- packed entries

  /** Five bytes as a number, the lowest first. */
  function Five(a: bv8, b: bv8, c: bv8, d: bv8, e: bv8): bv40 {
    (a as bv40) | ((b as bv40) << 8) | ((c as bv40) << 16) | ((d as bv40) << 24) | ((e as bv40) << 32)
  }

  /** Entry q of the four in such a number. */
  function Quarter(v: bv40, q: nat): bv16
    requires q < 4
  {
    if q == 0 then (v & 1023) as bv16
    else if q == 1 then ((v >> 10) & 1023) as bv16
    else if q == 2 then ((v >> 20) & 1023) as bv16
    else ((v >> 30) & 1023) as bv16
  }

  lemma Quarters(a: bv8, b: bv8, c: bv8, d: bv8, e: bv8)
    ensures Quarter(Five(a, b, c, d, e), 0) == Bits(a, b, 0) && Quarter(Five(a, b, c, d, e), 1) == Bits(b, c, 1)
    ensures Quarter(Five(a, b, c, d, e), 2) == Bits(c, d, 2) && Quarter(Five(a, b, c, d, e), 3) == Bits(d, e, 3)
  {
  }

  /** Entry x of a table: four entries to five bytes. */
  function Packed10(table: seq<bv8>, x: nat): nat
    requires x / 4 * 5 + 4 < |table|
  {
    var g := x / 4 * 5;
    Quarter(Five(table[g], table[g + 1], table[g + 2], table[g + 3], table[g + 4]), x % 4) as nat
  }

  lemma Places(x: nat)
    ensures x * 5 / 4 == x / 4 * 5 + x % 4
  {
  }

  /** The two bytes that are read lie in the table and hold exactly entry x, for every byte c of
      a page that leaves out the first 4 * code entries. */
  lemma ReadsEntry(table: seq<bv8>, mem: nat -> bv8, code: nat, c: nat)
    requires code <= 64 && |table| == (64 - code) * 5 && 4 * code <= c < 256
    requires forall i :: 0 <= i < |table| ==> mem(i) == table[i]
    ensures var x := c - 4 * code; x * 5 / 4 + 1 < |table| && Entry(mem, x) == Packed10(table, x)
  {
    var x := c - 4 * code;
    var g := x / 4 * 5;
    Places(x);
    Quarters(table[g], table[g + 1], table[g + 2], table[g + 3], table[g + 4]);
  }
}
