/** The permutation tables of library/crypt/crypt_des.c and the wirings they stand for.

    A row of a table gives, for the four (or three) bits of a part of the input, where those
    bits go; the permutation is the bitwise or of the rows.  Every wiring below is the same
    permutation bit by bit: the input bit under the mask moves by the given distance. */
module DesTables {

  /** Initial permutation, left half. */
  const IP_MASKL: seq<seq<bv32>> := [
    [0x00000000, 0x00010000, 0x00000000, 0x00010000, 0x01000000, 0x01010000, 0x01000000, 0x01010000,
     0x00000000, 0x00010000, 0x00000000, 0x00010000, 0x01000000, 0x01010000, 0x01000000, 0x01010000],
    [0x00000000, 0x00000001, 0x00000000, 0x00000001, 0x00000100, 0x00000101, 0x00000100, 0x00000101,
     0x00000000, 0x00000001, 0x00000000, 0x00000001, 0x00000100, 0x00000101, 0x00000100, 0x00000101],
    [0x00000000, 0x00020000, 0x00000000, 0x00020000, 0x02000000, 0x02020000, 0x02000000, 0x02020000,
     0x00000000, 0x00020000, 0x00000000, 0x00020000, 0x02000000, 0x02020000, 0x02000000, 0x02020000],
    [0x00000000, 0x00000002, 0x00000000, 0x00000002, 0x00000200, 0x00000202, 0x00000200, 0x00000202,
     0x00000000, 0x00000002, 0x00000000, 0x00000002, 0x00000200, 0x00000202, 0x00000200, 0x00000202],
    [0x00000000, 0x00040000, 0x00000000, 0x00040000, 0x04000000, 0x04040000, 0x04000000, 0x04040000,
     0x00000000, 0x00040000, 0x00000000, 0x00040000, 0x04000000, 0x04040000, 0x04000000, 0x04040000],
    [0x00000000, 0x00000004, 0x00000000, 0x00000004, 0x00000400, 0x00000404, 0x00000400, 0x00000404,
     0x00000000, 0x00000004, 0x00000000, 0x00000004, 0x00000400, 0x00000404, 0x00000400, 0x00000404],
    [0x00000000, 0x00080000, 0x00000000, 0x00080000, 0x08000000, 0x08080000, 0x08000000, 0x08080000,
     0x00000000, 0x00080000, 0x00000000, 0x00080000, 0x08000000, 0x08080000, 0x08000000, 0x08080000],
    [0x00000000, 0x00000008, 0x00000000, 0x00000008, 0x00000800, 0x00000808, 0x00000800, 0x00000808,
     0x00000000, 0x00000008, 0x00000000, 0x00000008, 0x00000800, 0x00000808, 0x00000800, 0x00000808],
    [0x00000000, 0x00100000, 0x00000000, 0x00100000, 0x10000000, 0x10100000, 0x10000000, 0x10100000,
     0x00000000, 0x00100000, 0x00000000, 0x00100000, 0x10000000, 0x10100000, 0x10000000, 0x10100000],
    [0x00000000, 0x00000010, 0x00000000, 0x00000010, 0x00001000, 0x00001010, 0x00001000, 0x00001010,
     0x00000000, 0x00000010, 0x00000000, 0x00000010, 0x00001000, 0x00001010, 0x00001000, 0x00001010],
    [0x00000000, 0x00200000, 0x00000000, 0x00200000, 0x20000000, 0x20200000, 0x20000000, 0x20200000,
     0x00000000, 0x00200000, 0x00000000, 0x00200000, 0x20000000, 0x20200000, 0x20000000, 0x20200000],
    [0x00000000, 0x00000020, 0x00000000, 0x00000020, 0x00002000, 0x00002020, 0x00002000, 0x00002020,
     0x00000000, 0x00000020, 0x00000000, 0x00000020, 0x00002000, 0x00002020, 0x00002000, 0x00002020],
    [0x00000000, 0x00400000, 0x00000000, 0x00400000, 0x40000000, 0x40400000, 0x40000000, 0x40400000,
     0x00000000, 0x00400000, 0x00000000, 0x00400000, 0x40000000, 0x40400000, 0x40000000, 0x40400000],
    [0x00000000, 0x00000040, 0x00000000, 0x00000040, 0x00004000, 0x00004040, 0x00004000, 0x00004040,
     0x00000000, 0x00000040, 0x00000000, 0x00000040, 0x00004000, 0x00004040, 0x00004000, 0x00004040],
    [0x00000000, 0x00800000, 0x00000000, 0x00800000, 0x80000000, 0x80800000, 0x80000000, 0x80800000,
     0x00000000, 0x00800000, 0x00000000, 0x00800000, 0x80000000, 0x80800000, 0x80000000, 0x80800000],
    [0x00000000, 0x00000080, 0x00000000, 0x00000080, 0x00008000, 0x00008080, 0x00008000, 0x00008080,
     0x00000000, 0x00000080, 0x00000000, 0x00000080, 0x00008000, 0x00008080, 0x00008000, 0x00008080]]

  /** Initial permutation, right half. */
  const IP_MASKR: seq<seq<bv32>> := [
    [0x00000000, 0x00000000, 0x00010000, 0x00010000, 0x00000000, 0x00000000, 0x00010000, 0x00010000,
     0x01000000, 0x01000000, 0x01010000, 0x01010000, 0x01000000, 0x01000000, 0x01010000, 0x01010000],
    [0x00000000, 0x00000000, 0x00000001, 0x00000001, 0x00000000, 0x00000000, 0x00000001, 0x00000001,
     0x00000100, 0x00000100, 0x00000101, 0x00000101, 0x00000100, 0x00000100, 0x00000101, 0x00000101],
    [0x00000000, 0x00000000, 0x00020000, 0x00020000, 0x00000000, 0x00000000, 0x00020000, 0x00020000,
     0x02000000, 0x02000000, 0x02020000, 0x02020000, 0x02000000, 0x02000000, 0x02020000, 0x02020000],
    [0x00000000, 0x00000000, 0x00000002, 0x00000002, 0x00000000, 0x00000000, 0x00000002, 0x00000002,
     0x00000200, 0x00000200, 0x00000202, 0x00000202, 0x00000200, 0x00000200, 0x00000202, 0x00000202],
    [0x00000000, 0x00000000, 0x00040000, 0x00040000, 0x00000000, 0x00000000, 0x00040000, 0x00040000,
     0x04000000, 0x04000000, 0x04040000, 0x04040000, 0x04000000, 0x04000000, 0x04040000, 0x04040000],
    [0x00000000, 0x00000000, 0x00000004, 0x00000004, 0x00000000, 0x00000000, 0x00000004, 0x00000004,
     0x00000400, 0x00000400, 0x00000404, 0x00000404, 0x00000400, 0x00000400, 0x00000404, 0x00000404],
    [0x00000000, 0x00000000, 0x00080000, 0x00080000, 0x00000000, 0x00000000, 0x00080000, 0x00080000,
     0x08000000, 0x08000000, 0x08080000, 0x08080000, 0x08000000, 0x08000000, 0x08080000, 0x08080000],
    [0x00000000, 0x00000000, 0x00000008, 0x00000008, 0x00000000, 0x00000000, 0x00000008, 0x00000008,
     0x00000800, 0x00000800, 0x00000808, 0x00000808, 0x00000800, 0x00000800, 0x00000808, 0x00000808],
    [0x00000000, 0x00000000, 0x00100000, 0x00100000, 0x00000000, 0x00000000, 0x00100000, 0x00100000,
     0x10000000, 0x10000000, 0x10100000, 0x10100000, 0x10000000, 0x10000000, 0x10100000, 0x10100000],
    [0x00000000, 0x00000000, 0x00000010, 0x00000010, 0x00000000, 0x00000000, 0x00000010, 0x00000010,
     0x00001000, 0x00001000, 0x00001010, 0x00001010, 0x00001000, 0x00001000, 0x00001010, 0x00001010],
    [0x00000000, 0x00000000, 0x00200000, 0x00200000, 0x00000000, 0x00000000, 0x00200000, 0x00200000,
     0x20000000, 0x20000000, 0x20200000, 0x20200000, 0x20000000, 0x20000000, 0x20200000, 0x20200000],
    [0x00000000, 0x00000000, 0x00000020, 0x00000020, 0x00000000, 0x00000000, 0x00000020, 0x00000020,
     0x00002000, 0x00002000, 0x00002020, 0x00002020, 0x00002000, 0x00002000, 0x00002020, 0x00002020],
    [0x00000000, 0x00000000, 0x00400000, 0x00400000, 0x00000000, 0x00000000, 0x00400000, 0x00400000,
     0x40000000, 0x40000000, 0x40400000, 0x40400000, 0x40000000, 0x40000000, 0x40400000, 0x40400000],
    [0x00000000, 0x00000000, 0x00000040, 0x00000040, 0x00000000, 0x00000000, 0x00000040, 0x00000040,
     0x00004000, 0x00004000, 0x00004040, 0x00004040, 0x00004000, 0x00004000, 0x00004040, 0x00004040],
    [0x00000000, 0x00000000, 0x00800000, 0x00800000, 0x00000000, 0x00000000, 0x00800000, 0x00800000,
     0x80000000, 0x80000000, 0x80800000, 0x80800000, 0x80000000, 0x80000000, 0x80800000, 0x80800000],
    [0x00000000, 0x00000000, 0x00000080, 0x00000080, 0x00000000, 0x00000000, 0x00000080, 0x00000080,
     0x00008000, 0x00008000, 0x00008080, 0x00008080, 0x00008000, 0x00008000, 0x00008080, 0x00008080]]

  /** Final permutation, left half. */
  const FP_MASKL: seq<seq<bv32>> := [
    [0x00000000, 0x40000000, 0x00400000, 0x40400000, 0x00004000, 0x40004000, 0x00404000, 0x40404000,
     0x00000040, 0x40000040, 0x00400040, 0x40400040, 0x00004040, 0x40004040, 0x00404040, 0x40404040],
    [0x00000000, 0x10000000, 0x00100000, 0x10100000, 0x00001000, 0x10001000, 0x00101000, 0x10101000,
     0x00000010, 0x10000010, 0x00100010, 0x10100010, 0x00001010, 0x10001010, 0x00101010, 0x10101010],
    [0x00000000, 0x04000000, 0x00040000, 0x04040000, 0x00000400, 0x04000400, 0x00040400, 0x04040400,
     0x00000004, 0x04000004, 0x00040004, 0x04040004, 0x00000404, 0x04000404, 0x00040404, 0x04040404],
    [0x00000000, 0x01000000, 0x00010000, 0x01010000, 0x00000100, 0x01000100, 0x00010100, 0x01010100,
     0x00000001, 0x01000001, 0x00010001, 0x01010001, 0x00000101, 0x01000101, 0x00010101, 0x01010101],
    [0x00000000, 0x80000000, 0x00800000, 0x80800000, 0x00008000, 0x80008000, 0x00808000, 0x80808000,
     0x00000080, 0x80000080, 0x00800080, 0x80800080, 0x00008080, 0x80008080, 0x00808080, 0x80808080],
    [0x00000000, 0x20000000, 0x00200000, 0x20200000, 0x00002000, 0x20002000, 0x00202000, 0x20202000,
     0x00000020, 0x20000020, 0x00200020, 0x20200020, 0x00002020, 0x20002020, 0x00202020, 0x20202020],
    [0x00000000, 0x08000000, 0x00080000, 0x08080000, 0x00000800, 0x08000800, 0x00080800, 0x08080800,
     0x00000008, 0x08000008, 0x00080008, 0x08080008, 0x00000808, 0x08000808, 0x00080808, 0x08080808],
    [0x00000000, 0x02000000, 0x00020000, 0x02020000, 0x00000200, 0x02000200, 0x00020200, 0x02020200,
     0x00000002, 0x02000002, 0x00020002, 0x02020002, 0x00000202, 0x02000202, 0x00020202, 0x02020202]]

  /** Final permutation, right half. */
  const FP_MASKR: seq<seq<bv32>> := [
    [0x00000000, 0x40000000, 0x00400000, 0x40400000, 0x00004000, 0x40004000, 0x00404000, 0x40404000,
     0x00000040, 0x40000040, 0x00400040, 0x40400040, 0x00004040, 0x40004040, 0x00404040, 0x40404040],
    [0x00000000, 0x10000000, 0x00100000, 0x10100000, 0x00001000, 0x10001000, 0x00101000, 0x10101000,
     0x00000010, 0x10000010, 0x00100010, 0x10100010, 0x00001010, 0x10001010, 0x00101010, 0x10101010],
    [0x00000000, 0x04000000, 0x00040000, 0x04040000, 0x00000400, 0x04000400, 0x00040400, 0x04040400,
     0x00000004, 0x04000004, 0x00040004, 0x04040004, 0x00000404, 0x04000404, 0x00040404, 0x04040404],
    [0x00000000, 0x01000000, 0x00010000, 0x01010000, 0x00000100, 0x01000100, 0x00010100, 0x01010100,
     0x00000001, 0x01000001, 0x00010001, 0x01010001, 0x00000101, 0x01000101, 0x00010101, 0x01010101],
    [0x00000000, 0x80000000, 0x00800000, 0x80800000, 0x00008000, 0x80008000, 0x00808000, 0x80808000,
     0x00000080, 0x80000080, 0x00800080, 0x80800080, 0x00008080, 0x80008080, 0x00808080, 0x80808080],
    [0x00000000, 0x20000000, 0x00200000, 0x20200000, 0x00002000, 0x20002000, 0x00202000, 0x20202000,
     0x00000020, 0x20000020, 0x00200020, 0x20200020, 0x00002020, 0x20002020, 0x00202020, 0x20202020],
    [0x00000000, 0x08000000, 0x00080000, 0x08080000, 0x00000800, 0x08000800, 0x00080800, 0x08080800,
     0x00000008, 0x08000008, 0x00080008, 0x08080008, 0x00000808, 0x08000808, 0x00080808, 0x08080808],
    [0x00000000, 0x02000000, 0x00020000, 0x02020000, 0x00000200, 0x02000200, 0x00020200, 0x02020200,
     0x00000002, 0x02000002, 0x00020002, 0x02020002, 0x00000202, 0x02000202, 0x00020202, 0x02020202]]

  /** Key permutation (PC-1), first 28 bits. */
  const KEY_PERM_MASKL: seq<seq<bv32>> := [
    [0x00000000, 0x00000000, 0x00000010, 0x00000010, 0x00001000, 0x00001000, 0x00001010, 0x00001010,
     0x00100000, 0x00100000, 0x00100010, 0x00100010, 0x00101000, 0x00101000, 0x00101010, 0x00101010],
    [0x00000000, 0x00000000, 0x00000020, 0x00000020, 0x00002000, 0x00002000, 0x00002020, 0x00002020,
     0x00200000, 0x00200000, 0x00200020, 0x00200020, 0x00202000, 0x00202000, 0x00202020, 0x00202020],
    [0x00000000, 0x00000000, 0x00000040, 0x00000040, 0x00004000, 0x00004000, 0x00004040, 0x00004040,
     0x00400000, 0x00400000, 0x00400040, 0x00400040, 0x00404000, 0x00404000, 0x00404040, 0x00404040],
    [0x00000000, 0x00000000, 0x00000080, 0x00000080, 0x00008000, 0x00008000, 0x00008080, 0x00008080,
     0x00800000, 0x00800000, 0x00800080, 0x00800080, 0x00808000, 0x00808000, 0x00808080, 0x00808080],
    [0x00000000, 0x00000001, 0x00000100, 0x00000101, 0x00010000, 0x00010001, 0x00010100, 0x00010101,
     0x01000000, 0x01000001, 0x01000100, 0x01000101, 0x01010000, 0x01010001, 0x01010100, 0x01010101],
    [0x00000000, 0x00000002, 0x00000200, 0x00000202, 0x00020000, 0x00020002, 0x00020200, 0x00020202,
     0x02000000, 0x02000002, 0x02000200, 0x02000202, 0x02020000, 0x02020002, 0x02020200, 0x02020202],
    [0x00000000, 0x00000004, 0x00000400, 0x00000404, 0x00040000, 0x00040004, 0x00040400, 0x00040404,
     0x04000000, 0x04000004, 0x04000400, 0x04000404, 0x04040000, 0x04040004, 0x04040400, 0x04040404],
    [0x00000000, 0x00000008, 0x00000800, 0x00000808, 0x00080000, 0x00080008, 0x00080800, 0x00080808,
     0x08000000, 0x08000008, 0x08000800, 0x08000808, 0x08080000, 0x08080008, 0x08080800, 0x08080808]]

  /** Key permutation, last 28 bits. */
  const KEY_PERM_MASKR: seq<seq<bv32>> := [
    [0x00000000, 0x00000001, 0x00000000, 0x00000001, 0x00000000, 0x00000001, 0x00000000, 0x00000001,
     0x00000000, 0x00000001, 0x00000000, 0x00000001, 0x00000000, 0x00000001, 0x00000000, 0x00000001],
    [0x00000000, 0x00000000, 0x00100000, 0x00100000, 0x00001000, 0x00001000, 0x00101000, 0x00101000,
     0x00000010, 0x00000010, 0x00100010, 0x00100010, 0x00001010, 0x00001010, 0x00101010, 0x00101010],
    [0x00000000, 0x00000002, 0x00000000, 0x00000002, 0x00000000, 0x00000002, 0x00000000, 0x00000002,
     0x00000000, 0x00000002, 0x00000000, 0x00000002, 0x00000000, 0x00000002, 0x00000000, 0x00000002],
    [0x00000000, 0x00000000, 0x00200000, 0x00200000, 0x00002000, 0x00002000, 0x00202000, 0x00202000,
     0x00000020, 0x00000020, 0x00200020, 0x00200020, 0x00002020, 0x00002020, 0x00202020, 0x00202020],
    [0x00000000, 0x00000004, 0x00000000, 0x00000004, 0x00000000, 0x00000004, 0x00000000, 0x00000004,
     0x00000000, 0x00000004, 0x00000000, 0x00000004, 0x00000000, 0x00000004, 0x00000000, 0x00000004],
    [0x00000000, 0x00000000, 0x00400000, 0x00400000, 0x00004000, 0x00004000, 0x00404000, 0x00404000,
     0x00000040, 0x00000040, 0x00400040, 0x00400040, 0x00004040, 0x00004040, 0x00404040, 0x00404040],
    [0x00000000, 0x00000008, 0x00000000, 0x00000008, 0x00000000, 0x00000008, 0x00000000, 0x00000008,
     0x00000000, 0x00000008, 0x00000000, 0x00000008, 0x00000000, 0x00000008, 0x00000000, 0x00000008],
    [0x00000000, 0x00000000, 0x00800000, 0x00800000, 0x00008000, 0x00008000, 0x00808000, 0x00808000,
     0x00000080, 0x00000080, 0x00800080, 0x00800080, 0x00008080, 0x00008080, 0x00808080, 0x00808080],
    [0x00000000, 0x00000000, 0x01000000, 0x01000000, 0x00010000, 0x00010000, 0x01010000, 0x01010000,
     0x00000100, 0x00000100, 0x01000100, 0x01000100, 0x00010100, 0x00010100, 0x01010100, 0x01010100],
    [0x00000000, 0x00000000, 0x02000000, 0x02000000, 0x00020000, 0x00020000, 0x02020000, 0x02020000,
     0x00000200, 0x00000200, 0x02000200, 0x02000200, 0x00020200, 0x00020200, 0x02020200, 0x02020200],
    [0x00000000, 0x00000000, 0x04000000, 0x04000000, 0x00040000, 0x00040000, 0x04040000, 0x04040000,
     0x00000400, 0x00000400, 0x04000400, 0x04000400, 0x00040400, 0x00040400, 0x04040400, 0x04040400],
    [0x00000000, 0x00000000, 0x08000000, 0x08000000, 0x00080000, 0x00080000, 0x08080000, 0x08080000,
     0x00000800, 0x00000800, 0x08000800, 0x08000800, 0x00080800, 0x00080800, 0x08080800, 0x08080800]]

  /** Compression permutation (PC-2), four tables. */
  const COMP_MASKL0: seq<seq<bv32>> := [
    [0x00000000, 0x00020000, 0x00000001, 0x00020001, 0x00080000, 0x000a0000, 0x00080001, 0x000a0001],
    [0x00000000, 0x00001000, 0x00000000, 0x00001000, 0x00000040, 0x00001040, 0x00000040, 0x00001040],
    [0x00000000, 0x00400000, 0x00000020, 0x00400020, 0x00008000, 0x00408000, 0x00008020, 0x00408020],
    [0x00000000, 0x00100000, 0x00000800, 0x00100800, 0x00000000, 0x00100000, 0x00000800, 0x00100800]]

  const COMP_MASKR0: seq<seq<bv32>> := [
    [0x00000000, 0x00200000, 0x00020000, 0x00220000, 0x00000002, 0x00200002, 0x00020002, 0x00220002],
    [0x00000000, 0x00000000, 0x00100000, 0x00100000, 0x00000004, 0x00000004, 0x00100004, 0x00100004],
    [0x00000000, 0x00004000, 0x00000800, 0x00004800, 0x00000000, 0x00004000, 0x00000800, 0x00004800],
    [0x00000000, 0x00400000, 0x00008000, 0x00408000, 0x00000008, 0x00400008, 0x00008008, 0x00408008]]

  const COMP_MASKL1: seq<seq<bv32>> := [
    [0x00000000, 0x00000010, 0x00004000, 0x00004010, 0x00040000, 0x00040010, 0x00044000, 0x00044010,
     0x00000100, 0x00000110, 0x00004100, 0x00004110, 0x00040100, 0x00040110, 0x00044100, 0x00044110],
    [0x00000000, 0x00800000, 0x00000002, 0x00800002, 0x00000200, 0x00800200, 0x00000202, 0x00800202,
     0x00200000, 0x00a00000, 0x00200002, 0x00a00002, 0x00200200, 0x00a00200, 0x00200202, 0x00a00202],
    [0x00000000, 0x00002000, 0x00000004, 0x00002004, 0x00000400, 0x00002400, 0x00000404, 0x00002404,
     0x00000000, 0x00002000, 0x00000004, 0x00002004, 0x00000400, 0x00002400, 0x00000404, 0x00002404],
    [0x00000000, 0x00010000, 0x00000008, 0x00010008, 0x00000080, 0x00010080, 0x00000088, 0x00010088,
     0x00000000, 0x00010000, 0x00000008, 0x00010008, 0x00000080, 0x00010080, 0x00000088, 0x00010088]]

  const COMP_MASKR1: seq<seq<bv32>> := [
    [0x00000000, 0x00000000, 0x00000080, 0x00000080, 0x00002000, 0x00002000, 0x00002080, 0x00002080,
     0x00000001, 0x00000001, 0x00000081, 0x00000081, 0x00002001, 0x00002001, 0x00002081, 0x00002081],
    [0x00000000, 0x00000010, 0x00800000, 0x00800010, 0x00010000, 0x00010010, 0x00810000, 0x00810010,
     0x00000200, 0x00000210, 0x00800200, 0x00800210, 0x00010200, 0x00010210, 0x00810200, 0x00810210],
    [0x00000000, 0x00000400, 0x00001000, 0x00001400, 0x00080000, 0x00080400, 0x00081000, 0x00081400,
     0x00000020, 0x00000420, 0x00001020, 0x00001420, 0x00080020, 0x00080420, 0x00081020, 0x00081420],
    [0x00000000, 0x00000100, 0x00040000, 0x00040100, 0x00000000, 0x00000100, 0x00040000, 0x00040100,
     0x00000040, 0x00000140, 0x00040040, 0x00040140, 0x00000040, 0x00000140, 0x00040040, 0x00040140]]

  // ------------------------------------------------------------------ look-ups

  /** row[x & 0xf]: see PickIsIndex. */
  function Pick(row: seq<bv32>, x: bv32): bv32
    requires |row| == 16
  {
    if x & 8 == 0
    then if x & 4 == 0
         then if x & 2 == 0
              then if x & 1 == 0 then row[0] else row[1]
              else if x & 1 == 0 then row[2] else row[3]
         else if x & 2 == 0
              then if x & 1 == 0 then row[4] else row[5]
              else if x & 1 == 0 then row[6] else row[7]
    else if x & 4 == 0
         then if x & 2 == 0
              then if x & 1 == 0 then row[8] else row[9]
              else if x & 1 == 0 then row[10] else row[11]
         else if x & 2 == 0
              then if x & 1 == 0 then row[12] else row[13]
              else if x & 1 == 0 then row[14] else row[15]
  }

  function Weight(b: bool): nat {
    if b then 1 else 0
  }

  function PickBits(row: seq<bv32>, a: bool, b: bool, c: bool, d: bool): bv32
    requires |row| == 16
  {
    row[Weight(a) + 2 * Weight(b) + 4 * Weight(c) + 8 * Weight(d)]
  }

  lemma PickByBits(row: seq<bv32>, x: bv32)
    requires |row| == 16
    ensures Pick(row, x) == PickBits(row, x & 1 != 0, x & 2 != 0, x & 4 != 0, x & 8 != 0)
  {
  }

  lemma ValueOfBits(v: bv32)
    requires v < 16
    ensures v as int == Weight(v & 1 != 0) + 2 * Weight(v & 2 != 0) + 4 * Weight(v & 4 != 0) + 8 * Weight(v & 8 != 0)
  {
  }

  lemma LowNibble(x: bv32)
    ensures x & 0xf < 16
    ensures ((x & 0xf) & 1 == x & 1) && ((x & 0xf) & 2 == x & 2) && ((x & 0xf) & 4 == x & 4) && ((x & 0xf) & 8 == x & 8)
  {
  }

  lemma IndexByBits(row: seq<bv32>, v: bv32, n: int)
    requires |row| == 16 && v < 16 && n == v as int
    ensures 0 <= n < 16 && row[n] == PickBits(row, v & 1 != 0, v & 2 != 0, v & 4 != 0, v & 8 != 0)
  {
    ValueOfBits(v);
  }

  /** Picking by bits is indexing with the low nibble. */
  lemma PickIsIndex(row: seq<bv32>, x: bv32, v: bv32, n: int)
    requires |row| == 16 && v == x & 0xf && n == v as int
    ensures 0 <= n < 16 && row[n] == Pick(row, x)
  {
    LowNibble(x);
    PickByBits(row, x);
    IndexByBits(row, v, n);
  }

  /** row[x & 7]: see Pick8IsIndex. */
  function Pick8(row: seq<bv32>, x: bv32): bv32
    requires |row| == 8
  {
    if x & 4 == 0
    then if x & 2 == 0
         then if x & 1 == 0 then row[0] else row[1]
         else if x & 1 == 0 then row[2] else row[3]
    else if x & 2 == 0
         then if x & 1 == 0 then row[4] else row[5]
         else if x & 1 == 0 then row[6] else row[7]
  }

  lemma ValueOfThree(v: bv32)
    requires v < 8
    ensures v as int == Weight(v & 1 != 0) + 2 * Weight(v & 2 != 0) + 4 * Weight(v & 4 != 0)
  {
  }

  lemma Pick8ByBits(row: seq<bv32>, x: bv32)
    requires |row| == 8
    ensures Pick8(row, x) == row[Weight(x & 1 != 0) + 2 * Weight(x & 2 != 0) + 4 * Weight(x & 4 != 0)]
  {
  }

  lemma LowThree(x: bv32)
    ensures x & 7 < 8 && ((x & 7) & 1 == x & 1) && ((x & 7) & 2 == x & 2) && ((x & 7) & 4 == x & 4)
  {
  }

  lemma Pick8IsIndex(row: seq<bv32>, x: bv32, v: bv32, n: int)
    requires |row| == 8 && v == x & 7 && n == v as int
    ensures 0 <= n < 8 && row[n] == Pick8(row, x)
  {
    LowThree(x);
    Pick8ByBits(row, x);
    ValueOfThree(v);
  }

  /** x >> (28 - 4 * i): nibble i of a word, counted from the left, at the low end. */
  function Nibble(x: bv32, i: nat): bv32
    requires i < 8
  {
    if i == 0 then x >> 28 else if i == 1 then x >> 24 else if i == 2 then x >> 20 else if i == 3 then x >> 16
    else if i == 4 then x >> 12 else if i == 5 then x >> 8 else if i == 6 then x >> 4 else x
  }

  /** x >> (25 - 7 * i) and x >> (21 - 7 * i): the 28 bits of a subkey in parts of 3 and 4. */
  function Three(x: bv32, i: nat): bv32
    requires i < 4
  {
    if i == 0 then x >> 25 else if i == 1 then x >> 18 else if i == 2 then x >> 11 else x >> 4
  }

  function Four(x: bv32, i: nat): bv32
    requires i < 4
  {
    if i == 0 then x >> 21 else if i == 1 then x >> 14 else if i == 2 then x >> 7 else x
  }

  /** 28 - 4 * i, 25 - 7 * i and 21 - 7 * i. */
  function NibbleShift(i: nat): bv32
    requires i < 8
  {
    if i == 0 then 28 else if i == 1 then 24 else if i == 2 then 20 else if i == 3 then 16
    else if i == 4 then 12 else if i == 5 then 8 else if i == 6 then 4 else 0
  }

  function ThreeShift(i: nat): bv32
    requires i < 4
  {
    if i == 0 then 25 else if i == 1 then 18 else if i == 2 then 11 else 4
  }

  function FourShift(i: nat): bv32
    requires i < 4
  {
    if i == 0 then 21 else if i == 1 then 14 else if i == 2 then 7 else 0
  }

  lemma ShiftIsNibble(x: bv32, i: nat)
    requires i < 8
    ensures NibbleShift(i) <= 32 && x >> NibbleShift(i) == Nibble(x, i)
  {
  }

  lemma ShiftIsThree(x: bv32, i: nat)
    requires i < 4
    ensures ThreeShift(i) <= 32 && x >> ThreeShift(i) == Three(x, i)
  {
  }

  lemma ShiftIsFour(x: bv32, i: nat)
    requires i < 4
    ensures FourShift(i) <= 32 && x >> FourShift(i) == Four(x, i)
  {
  }

  // ------------------------------------------------------------------- wirings

  /** IP, from the left word to the left word. */
  function IpLL(x: bv32): bv32 {
    ((x & 0x40) << 21) | ((x & 0x4000) << 12) | ((x & 0x400000) << 3) | ((x & 0x40000000) >> 6)
    | ((x & 0x10) << 15) | ((x & 0x1000) << 6) | ((x & 0x100000) >> 3) | ((x & 0x10000000) >> 12)
    | ((x & 0x4) << 9) | (x & 0x400) | ((x & 0x40000) >> 9) | ((x & 0x4000000) >> 18)
    | ((x & 0x1) << 3) | ((x & 0x100) >> 6) | ((x & 0x10000) >> 15) | ((x & 0x1000000) >> 24)
  }

  /** IP, from the right word to the left word. */
  function IpLR(x: bv32): bv32 {
    ((x & 0x40) << 25) | ((x & 0x4000) << 16) | ((x & 0x400000) << 7) | ((x & 0x40000000) >> 2)
    | ((x & 0x10) << 19) | ((x & 0x1000) << 10) | ((x & 0x100000) << 1) | ((x & 0x10000000) >> 8)
    | ((x & 0x4) << 13) | ((x & 0x400) << 4) | ((x & 0x40000) >> 5) | ((x & 0x4000000) >> 14)
    | ((x & 0x1) << 7) | ((x & 0x100) >> 2) | ((x & 0x10000) >> 11) | ((x & 0x1000000) >> 20)
  }

  /** IP, from the left word to the right word. */
  function IpRL(x: bv32): bv32 {
    ((x & 0x80) << 20) | ((x & 0x8000) << 11) | ((x & 0x800000) << 2) | ((x & 0x80000000) >> 7)
    | ((x & 0x20) << 14) | ((x & 0x2000) << 5) | ((x & 0x200000) >> 4) | ((x & 0x20000000) >> 13)
    | ((x & 0x8) << 8) | ((x & 0x800) >> 1) | ((x & 0x80000) >> 10) | ((x & 0x8000000) >> 19)
    | ((x & 0x2) << 2) | ((x & 0x200) >> 7) | ((x & 0x20000) >> 16) | ((x & 0x2000000) >> 25)
  }

  /** IP, from the right word to the right word. */
  function IpRR(x: bv32): bv32 {
    ((x & 0x80) << 24) | ((x & 0x8000) << 15) | ((x & 0x800000) << 6) | ((x & 0x80000000) >> 3)
    | ((x & 0x20) << 18) | ((x & 0x2000) << 9) | (x & 0x200000) | ((x & 0x20000000) >> 9)
    | ((x & 0x8) << 12) | ((x & 0x800) << 3) | ((x & 0x80000) >> 6) | ((x & 0x8000000) >> 15)
    | ((x & 0x2) << 6) | ((x & 0x200) >> 3) | ((x & 0x20000) >> 12) | ((x & 0x2000000) >> 21)
  }

  /** FP, from the left word to the right word. */
  function FpRL(x: bv32): bv32 {
    ((x & 0x10000000) << 2) | ((x & 0x100000) << 8) | ((x & 0x1000) << 14) | ((x & 0x10) << 20)
    | ((x & 0x20000000) >> 7) | ((x & 0x200000) >> 1) | ((x & 0x2000) << 5) | ((x & 0x20) << 11)
    | ((x & 0x40000000) >> 16) | ((x & 0x400000) >> 10) | ((x & 0x4000) >> 4) | ((x & 0x40) << 2)
    | ((x & 0x80000000) >> 25) | ((x & 0x800000) >> 19) | ((x & 0x8000) >> 13) | ((x & 0x80) >> 7)
  }

  /** FP, from the right word to the right word. */
  function FpRR(x: bv32): bv32 {
    ((x & 0x10000000) << 3) | ((x & 0x100000) << 9) | ((x & 0x1000) << 15) | ((x & 0x10) << 21)
    | ((x & 0x20000000) >> 6) | (x & 0x200000) | ((x & 0x2000) << 6) | ((x & 0x20) << 12)
    | ((x & 0x40000000) >> 15) | ((x & 0x400000) >> 9) | ((x & 0x4000) >> 3) | ((x & 0x40) << 3)
    | ((x & 0x80000000) >> 24) | ((x & 0x800000) >> 18) | ((x & 0x8000) >> 12) | ((x & 0x80) >> 6)
  }

  /** FP, from the left word to the left word. */
  function FpLL(x: bv32): bv32 {
    ((x & 0x1000000) << 6) | ((x & 0x10000) << 12) | ((x & 0x100) << 18) | ((x & 0x1) << 24)
    | ((x & 0x2000000) >> 3) | ((x & 0x20000) << 3) | ((x & 0x200) << 9) | ((x & 0x2) << 15)
    | ((x & 0x4000000) >> 12) | ((x & 0x40000) >> 6) | (x & 0x400) | ((x & 0x4) << 6)
    | ((x & 0x8000000) >> 21) | ((x & 0x80000) >> 15) | ((x & 0x800) >> 9) | ((x & 0x8) >> 3)
  }

  /** FP, from the right word to the left word. */
  function FpLR(x: bv32): bv32 {
    ((x & 0x1000000) << 7) | ((x & 0x10000) << 13) | ((x & 0x100) << 19) | ((x & 0x1) << 25)
    | ((x & 0x2000000) >> 2) | ((x & 0x20000) << 4) | ((x & 0x200) << 10) | ((x & 0x2) << 16)
    | ((x & 0x4000000) >> 11) | ((x & 0x40000) >> 5) | ((x & 0x400) << 1) | ((x & 0x4) << 7)
    | ((x & 0x8000000) >> 20) | ((x & 0x80000) >> 14) | ((x & 0x800) >> 8) | ((x & 0x8) >> 2)
  }

  /** PC-1, from the first key word to the first subkey. */
  function Pc1L0(x: bv32): bv32 {
    ((x & 0x80) << 16) | ((x & 0x8000) << 7) | ((x & 0x800000) >> 2) | ((x & 0x80000000) >> 11)
    | ((x & 0x40) << 9) | (x & 0x4000) | ((x & 0x400000) >> 9) | ((x & 0x40000000) >> 18)
    | ((x & 0x20) << 2) | ((x & 0x2000) >> 7) | ((x & 0x200000) >> 16) | ((x & 0x20000000) >> 25)
  }

  /** PC-1, from the second key word to the first subkey. */
  function Pc1L1(x: bv32): bv32 {
    ((x & 0x80) << 20) | ((x & 0x8000) << 11) | ((x & 0x800000) << 2) | ((x & 0x80000000) >> 7)
    | ((x & 0x40) << 13) | ((x & 0x4000) << 4) | ((x & 0x400000) >> 5) | ((x & 0x40000000) >> 14)
    | ((x & 0x20) << 6) | ((x & 0x2000) >> 3) | ((x & 0x200000) >> 12) | ((x & 0x20000000) >> 21)
    | ((x & 0x10) >> 1) | ((x & 0x1000) >> 10) | ((x & 0x100000) >> 19) | ((x & 0x10000000) >> 28)
  }

  /** PC-1, from the first key word to the second subkey. */
  function Pc1R0(x: bv32): bv32 {
    ((x & 0x2) << 22) | ((x & 0x200) << 13) | ((x & 0x20000) << 4) | ((x & 0x2000000) >> 5)
    | ((x & 0x4) << 13) | ((x & 0x400) << 4) | ((x & 0x40000) >> 5) | ((x & 0x4000000) >> 14)
    | ((x & 0x8) << 4) | ((x & 0x800) >> 5) | ((x & 0x80000) >> 14) | ((x & 0x8000000) >> 23)
    | ((x & 0x10) >> 1) | ((x & 0x1000) >> 10) | ((x & 0x100000) >> 19) | ((x & 0x10000000) >> 28)
  }

  /** PC-1, from the second key word to the second subkey. */
  function Pc1R1(x: bv32): bv32 {
    ((x & 0x2) << 26) | ((x & 0x200) << 17) | ((x & 0x20000) << 8) | ((x & 0x2000000) >> 1)
    | ((x & 0x4) << 17) | ((x & 0x400) << 8) | ((x & 0x40000) >> 1) | ((x & 0x4000000) >> 10)
    | ((x & 0x8) << 8) | ((x & 0x800) >> 1) | ((x & 0x80000) >> 10) | ((x & 0x8000000) >> 19)
  }

  /** PC-2 of the first 28 bits. */
  function Pc2L(x: bv32): bv32 {
    ((x & 0x4000) << 9) | ((x & 0x800) << 11) | ((x & 0x20000) << 4) | ((x & 0x10) << 16)
    | ((x & 0x8000000) >> 8) | ((x & 0x800000) >> 5) | ((x & 0x2000000) >> 8) | ((x & 0x1) << 16)
    | ((x & 0x2000) << 2) | ((x & 0x400000) >> 8) | ((x & 0x80) << 6) | ((x & 0x40000) >> 6)
    | ((x & 0x20) << 6) | ((x & 0x200) << 1) | ((x & 0x10000) >> 7) | ((x & 0x1000000) >> 16)
    | ((x & 0x4) << 5) | ((x & 0x100000) >> 14) | ((x & 0x1000) >> 7) | ((x & 0x200000) >> 17)
    | ((x & 0x2) << 2) | ((x & 0x100) >> 6) | ((x & 0x8000) >> 14) | ((x & 0x4000000) >> 26)
  }

  /** PC-2 of the last 28 bits. */
  function Pc2R(x: bv32): bv32 {
    ((x & 0x8000) << 8) | ((x & 0x10) << 18) | ((x & 0x2000000) >> 4) | ((x & 0x80000) << 1)
    | ((x & 0x200) << 10) | ((x & 0x2) << 17) | ((x & 0x4000000) >> 9) | (x & 0x10000)
    | ((x & 0x20) << 10) | ((x & 0x800) << 3) | ((x & 0x800000) >> 10) | ((x & 0x100) << 4)
    | ((x & 0x1000) >> 1) | ((x & 0x80) << 3) | ((x & 0x20000) >> 8) | ((x & 0x1) << 8)
    | ((x & 0x400000) >> 15) | ((x & 0x8) << 3) | ((x & 0x400) >> 5) | ((x & 0x4000) >> 10)
    | ((x & 0x40) >> 3) | ((x & 0x100000) >> 18) | ((x & 0x8000000) >> 26) | ((x & 0x1000000) >> 24)
  }

  /** The two words of IP. */
  function IpLeft(l: bv32, r: bv32): bv32 {
    IpLL(l) | IpLR(r)
  }

  function IpRight(l: bv32, r: bv32): bv32 {
    IpRL(l) | IpRR(r)
  }

  /** The two words of FP. */
  function FpLeft(l: bv32, r: bv32): bv32 {
    FpLL(l) | FpLR(r)
  }

  function FpRight(l: bv32, r: bv32): bv32 {
    FpRL(l) | FpRR(r)
  }

  /** The two halves of PC-1. */
  function Pc1Left(l: bv32, r: bv32): bv32 {
    Pc1L0(l) | Pc1L1(r)
  }

  function Pc1Right(l: bv32, r: bv32): bv32 {
    Pc1R0(l) | Pc1R1(r)
  }

  // -------------------------------------------------------------------- loops

  /** The or of the first n words: what a loop has gathered after n passes. */
  function Or(s: seq<bv32>, n: nat): bv32
    requires n <= |s|
  {
    if n == 0 then 0 else Or(s, n - 1) | s[n - 1]
  }

  lemma {:induction false} OrIs(s: seq<bv32>, n: nat)
    requires n <= |s| && n <= 8
    ensures n == 1 ==> Or(s, n) == s[0]
    ensures n == 2 ==> Or(s, n) == s[0] | s[1]
    ensures n == 3 ==> Or(s, n) == s[0] | s[1] | s[2]
    ensures n == 4 ==> Or(s, n) == s[0] | s[1] | s[2] | s[3]
    ensures n == 5 ==> Or(s, n) == s[0] | s[1] | s[2] | s[3] | s[4]
    ensures n == 6 ==> Or(s, n) == s[0] | s[1] | s[2] | s[3] | s[4] | s[5]
    ensures n == 7 ==> Or(s, n) == s[0] | s[1] | s[2] | s[3] | s[4] | s[5] | s[6]
    ensures n == 8 ==> Or(s, n) == s[0] | s[1] | s[2] | s[3] | s[4] | s[5] | s[6] | s[7]
    decreases n
  {
    if n > 0 {
      OrIs(s, n - 1);
    }
  }

  ghost predicate Table(t: seq<seq<bv32>>, rows: nat, width: nat) {
    |t| == rows && forall i :: 0 <= i < rows ==> |t[i]| == width
  }

  /** What pass i of a loop adds to one word. */
  function IpPart(t: seq<seq<bv32>>, l: bv32, r: bv32, i: nat): bv32
    requires Table(t, 16, 16) && i < 8
  {
    Pick(t[i], Nibble(l, i)) | Pick(t[i + 8], Nibble(r, i))
  }

  function FpPart(t: seq<seq<bv32>>, odd: nat, l: bv32, r: bv32, i: nat): bv32
    requires Table(t, 8, 16) && i < 4 && odd <= 1
  {
    Pick(t[i], Nibble(l, 2 * i + odd)) | Pick(t[i + 4], Nibble(r, 2 * i + odd))
  }

  function Pc1RPart(t: seq<seq<bv32>>, l: bv32, r: bv32, i: nat): bv32
    requires Table(t, 12, 16) && i < 4
  {
    (Pick(t[2 * i], Nibble(l, 2 * i)) | Pick(t[2 * i + 1], Nibble(l, 2 * i + 1))) | Pick(t[i + 8], Nibble(r, 2 * i + 1))
  }

  function Pc2Part(t0: seq<seq<bv32>>, t1: seq<seq<bv32>>, x: bv32, i: nat): bv32
    requires Table(t0, 4, 8) && Table(t1, 4, 16) && i < 4
  {
    Pick8(t0[i], Three(x, i)) | Pick(t1[i], Four(x, i))
  }

  /** All passes of a loop. */
  ghost function IpParts(t: seq<seq<bv32>>, l: bv32, r: bv32): (s: seq<bv32>)
    requires Table(t, 16, 16)
    ensures |s| == 8 && forall i :: 0 <= i < 8 ==> s[i] == IpPart(t, l, r, i)
  {
    seq(8, i requires 0 <= i < 8 => IpPart(t, l, r, i))
  }

  ghost function FpParts(t: seq<seq<bv32>>, odd: nat, l: bv32, r: bv32): (s: seq<bv32>)
    requires Table(t, 8, 16) && odd <= 1
    ensures |s| == 4 && forall i :: 0 <= i < 4 ==> s[i] == FpPart(t, odd, l, r, i)
  {
    seq(4, i requires 0 <= i < 4 => FpPart(t, odd, l, r, i))
  }

  ghost function Pc1RParts(t: seq<seq<bv32>>, l: bv32, r: bv32): (s: seq<bv32>)
    requires Table(t, 12, 16)
    ensures |s| == 4 && forall i :: 0 <= i < 4 ==> s[i] == Pc1RPart(t, l, r, i)
  {
    seq(4, i requires 0 <= i < 4 => Pc1RPart(t, l, r, i))
  }

  ghost function Pc2Parts(t0: seq<seq<bv32>>, t1: seq<seq<bv32>>, x: bv32): (s: seq<bv32>)
    requires Table(t0, 4, 8) && Table(t1, 4, 16)
    ensures |s| == 4 && forall i :: 0 <= i < 4 ==> s[i] == Pc2Part(t0, t1, x, i)
  {
    seq(4, i requires 0 <= i < 4 => Pc2Part(t0, t1, x, i))
  }

  lemma IpShape()
    ensures Table(IP_MASKL, 16, 16) && Table(IP_MASKR, 16, 16)
  {
  }

  lemma FpShape()
    ensures Table(FP_MASKL, 8, 16) && Table(FP_MASKR, 8, 16)
  {
  }

  lemma Pc1Shape()
    ensures Table(KEY_PERM_MASKL, 8, 16) && Table(KEY_PERM_MASKR, 12, 16)
  {
  }

  lemma Pc2Shape()
    ensures Table(COMP_MASKL0, 4, 8) && Table(COMP_MASKR0, 4, 8)
    ensures Table(COMP_MASKL1, 4, 16) && Table(COMP_MASKR1, 4, 16)
  {
  }

  // IpL

  lemma IpLRow0(l: bv32, r: bv32)
    ensures IpPart(IP_MASKL, l, r, 0) == IpLL(l & 0xf0000000) | IpLR(r & 0xf0000000)
  {
    IpShape();
  }

  lemma IpLRow1(l: bv32, r: bv32)
    ensures IpPart(IP_MASKL, l, r, 1) == IpLL(l & 0x0f000000) | IpLR(r & 0x0f000000)
  {
    IpShape();
  }

  lemma IpLRow2(l: bv32, r: bv32)
    ensures IpPart(IP_MASKL, l, r, 2) == IpLL(l & 0x00f00000) | IpLR(r & 0x00f00000)
  {
    IpShape();
  }

  lemma IpLRow3(l: bv32, r: bv32)
    ensures IpPart(IP_MASKL, l, r, 3) == IpLL(l & 0x000f0000) | IpLR(r & 0x000f0000)
  {
    IpShape();
  }

  lemma IpLRow4(l: bv32, r: bv32)
    ensures IpPart(IP_MASKL, l, r, 4) == IpLL(l & 0x0000f000) | IpLR(r & 0x0000f000)
  {
    IpShape();
  }

  lemma IpLRow5(l: bv32, r: bv32)
    ensures IpPart(IP_MASKL, l, r, 5) == IpLL(l & 0x00000f00) | IpLR(r & 0x00000f00)
  {
    IpShape();
  }

  lemma IpLRow6(l: bv32, r: bv32)
    ensures IpPart(IP_MASKL, l, r, 6) == IpLL(l & 0x000000f0) | IpLR(r & 0x000000f0)
  {
    IpShape();
  }

  lemma IpLRow7(l: bv32, r: bv32)
    ensures IpPart(IP_MASKL, l, r, 7) == IpLL(l & 0x0000000f) | IpLR(r & 0x0000000f)
  {
    IpShape();
  }

  lemma IpLWires(l: bv32, r: bv32)
    ensures (IpLL(l & 0xf0000000) | IpLR(r & 0xf0000000)) | (IpLL(l & 0x0f000000) | IpLR(r & 0x0f000000)) | (IpLL(l & 0x00f00000) | IpLR(r & 0x00f00000)) | (IpLL(l & 0x000f0000) | IpLR(r & 0x000f0000)) | (IpLL(l & 0x0000f000) | IpLR(r & 0x0000f000)) | (IpLL(l & 0x00000f00) | IpLR(r & 0x00000f00)) | (IpLL(l & 0x000000f0) | IpLR(r & 0x000000f0)) | (IpLL(l & 0x0000000f) | IpLR(r & 0x0000000f)) == IpLeft(l, r)
  {
  }

  lemma IpLOr(l: bv32, r: bv32, s: seq<bv32>)
    requires |s| == 8 && (IpShape(); forall i :: 0 <= i < 8 ==> s[i] == IpPart(IP_MASKL, l, r, i))
    ensures Or(s, 8) == IpLeft(l, r)
  {
    OrIs(s, 8);
    IpLRow0(l, r); IpLRow1(l, r); IpLRow2(l, r); IpLRow3(l, r); IpLRow4(l, r); IpLRow5(l, r); IpLRow6(l, r); IpLRow7(l, r);
    IpLWires(l, r);
  }

  /** The loop over the rows computes the wiring. */
  lemma IpLLoop(l: bv32, r: bv32)
    ensures (IpShape(); Or(IpParts(IP_MASKL, l, r), 8) == IpLeft(l, r))
  {
    IpShape();
    IpLOr(l, r, IpParts(IP_MASKL, l, r));
  }

  // IpR

  lemma IpRRow0(l: bv32, r: bv32)
    ensures IpPart(IP_MASKR, l, r, 0) == IpRL(l & 0xf0000000) | IpRR(r & 0xf0000000)
  {
    IpShape();
  }

  lemma IpRRow1(l: bv32, r: bv32)
    ensures IpPart(IP_MASKR, l, r, 1) == IpRL(l & 0x0f000000) | IpRR(r & 0x0f000000)
  {
    IpShape();
  }

  lemma IpRRow2(l: bv32, r: bv32)
    ensures IpPart(IP_MASKR, l, r, 2) == IpRL(l & 0x00f00000) | IpRR(r & 0x00f00000)
  {
    IpShape();
  }

  lemma IpRRow3(l: bv32, r: bv32)
    ensures IpPart(IP_MASKR, l, r, 3) == IpRL(l & 0x000f0000) | IpRR(r & 0x000f0000)
  {
    IpShape();
  }

  lemma IpRRow4(l: bv32, r: bv32)
    ensures IpPart(IP_MASKR, l, r, 4) == IpRL(l & 0x0000f000) | IpRR(r & 0x0000f000)
  {
    IpShape();
  }

  lemma IpRRow5(l: bv32, r: bv32)
    ensures IpPart(IP_MASKR, l, r, 5) == IpRL(l & 0x00000f00) | IpRR(r & 0x00000f00)
  {
    IpShape();
  }

  lemma IpRRow6(l: bv32, r: bv32)
    ensures IpPart(IP_MASKR, l, r, 6) == IpRL(l & 0x000000f0) | IpRR(r & 0x000000f0)
  {
    IpShape();
  }

  lemma IpRRow7(l: bv32, r: bv32)
    ensures IpPart(IP_MASKR, l, r, 7) == IpRL(l & 0x0000000f) | IpRR(r & 0x0000000f)
  {
    IpShape();
  }

  lemma IpRWires(l: bv32, r: bv32)
    ensures (IpRL(l & 0xf0000000) | IpRR(r & 0xf0000000)) | (IpRL(l & 0x0f000000) | IpRR(r & 0x0f000000)) | (IpRL(l & 0x00f00000) | IpRR(r & 0x00f00000)) | (IpRL(l & 0x000f0000) | IpRR(r & 0x000f0000)) | (IpRL(l & 0x0000f000) | IpRR(r & 0x0000f000)) | (IpRL(l & 0x00000f00) | IpRR(r & 0x00000f00)) | (IpRL(l & 0x000000f0) | IpRR(r & 0x000000f0)) | (IpRL(l & 0x0000000f) | IpRR(r & 0x0000000f)) == IpRight(l, r)
  {
  }

  lemma IpROr(l: bv32, r: bv32, s: seq<bv32>)
    requires |s| == 8 && (IpShape(); forall i :: 0 <= i < 8 ==> s[i] == IpPart(IP_MASKR, l, r, i))
    ensures Or(s, 8) == IpRight(l, r)
  {
    OrIs(s, 8);
    IpRRow0(l, r); IpRRow1(l, r); IpRRow2(l, r); IpRRow3(l, r); IpRRow4(l, r); IpRRow5(l, r); IpRRow6(l, r); IpRRow7(l, r);
    IpRWires(l, r);
  }

  /** The loop over the rows computes the wiring. */
  lemma IpRLoop(l: bv32, r: bv32)
    ensures (IpShape(); Or(IpParts(IP_MASKR, l, r), 8) == IpRight(l, r))
  {
    IpShape();
    IpROr(l, r, IpParts(IP_MASKR, l, r));
  }

  // FpL

  lemma FpLRow0(l: bv32, r: bv32)
    ensures FpPart(FP_MASKL, 1, l, r, 0) == FpLL(l & 0x0f000000) | FpLR(r & 0x0f000000)
  {
    FpShape();
  }

  lemma FpLRow1(l: bv32, r: bv32)
    ensures FpPart(FP_MASKL, 1, l, r, 1) == FpLL(l & 0x000f0000) | FpLR(r & 0x000f0000)
  {
    FpShape();
  }

  lemma FpLRow2(l: bv32, r: bv32)
    ensures FpPart(FP_MASKL, 1, l, r, 2) == FpLL(l & 0x00000f00) | FpLR(r & 0x00000f00)
  {
    FpShape();
  }

  lemma FpLRow3(l: bv32, r: bv32)
    ensures FpPart(FP_MASKL, 1, l, r, 3) == FpLL(l & 0x0000000f) | FpLR(r & 0x0000000f)
  {
    FpShape();
  }

  lemma FpLWires(l: bv32, r: bv32)
    ensures (FpLL(l & 0x0f000000) | FpLR(r & 0x0f000000)) | (FpLL(l & 0x000f0000) | FpLR(r & 0x000f0000)) | (FpLL(l & 0x00000f00) | FpLR(r & 0x00000f00)) | (FpLL(l & 0x0000000f) | FpLR(r & 0x0000000f)) == FpLeft(l, r)
  {
  }

  lemma FpLOr(l: bv32, r: bv32, s: seq<bv32>)
    requires |s| == 4 && (FpShape(); forall i :: 0 <= i < 4 ==> s[i] == FpPart(FP_MASKL, 1, l, r, i))
    ensures Or(s, 4) == FpLeft(l, r)
  {
    OrIs(s, 4);
    FpLRow0(l, r); FpLRow1(l, r); FpLRow2(l, r); FpLRow3(l, r);
    FpLWires(l, r);
  }

  /** The loop over the rows computes the wiring. */
  lemma FpLLoop(l: bv32, r: bv32)
    ensures (FpShape(); Or(FpParts(FP_MASKL, 1, l, r), 4) == FpLeft(l, r))
  {
    FpShape();
    FpLOr(l, r, FpParts(FP_MASKL, 1, l, r));
  }

  // FpR

  lemma FpRRow0(l: bv32, r: bv32)
    ensures FpPart(FP_MASKR, 0, l, r, 0) == FpRL(l & 0xf0000000) | FpRR(r & 0xf0000000)
  {
    FpShape();
  }

  lemma FpRRow1(l: bv32, r: bv32)
    ensures FpPart(FP_MASKR, 0, l, r, 1) == FpRL(l & 0x00f00000) | FpRR(r & 0x00f00000)
  {
    FpShape();
  }

  lemma FpRRow2(l: bv32, r: bv32)
    ensures FpPart(FP_MASKR, 0, l, r, 2) == FpRL(l & 0x0000f000) | FpRR(r & 0x0000f000)
  {
    FpShape();
  }

  lemma FpRRow3(l: bv32, r: bv32)
    ensures FpPart(FP_MASKR, 0, l, r, 3) == FpRL(l & 0x000000f0) | FpRR(r & 0x000000f0)
  {
    FpShape();
  }

  lemma FpRWires(l: bv32, r: bv32)
    ensures (FpRL(l & 0xf0000000) | FpRR(r & 0xf0000000)) | (FpRL(l & 0x00f00000) | FpRR(r & 0x00f00000)) | (FpRL(l & 0x0000f000) | FpRR(r & 0x0000f000)) | (FpRL(l & 0x000000f0) | FpRR(r & 0x000000f0)) == FpRight(l, r)
  {
  }

  lemma FpROr(l: bv32, r: bv32, s: seq<bv32>)
    requires |s| == 4 && (FpShape(); forall i :: 0 <= i < 4 ==> s[i] == FpPart(FP_MASKR, 0, l, r, i))
    ensures Or(s, 4) == FpRight(l, r)
  {
    OrIs(s, 4);
    FpRRow0(l, r); FpRRow1(l, r); FpRRow2(l, r); FpRRow3(l, r);
    FpRWires(l, r);
  }

  /** The loop over the rows computes the wiring. */
  lemma FpRLoop(l: bv32, r: bv32)
    ensures (FpShape(); Or(FpParts(FP_MASKR, 0, l, r), 4) == FpRight(l, r))
  {
    FpShape();
    FpROr(l, r, FpParts(FP_MASKR, 0, l, r));
  }

  // Pc1L

  lemma Pc1LRow0(l: bv32, r: bv32)
    ensures FpPart(KEY_PERM_MASKL, 0, l, r, 0) == Pc1L0(l & 0xf0000000) | Pc1L1(r & 0xf0000000)
  {
    Pc1Shape();
  }

  lemma Pc1LRow1(l: bv32, r: bv32)
    ensures FpPart(KEY_PERM_MASKL, 0, l, r, 1) == Pc1L0(l & 0x00f00000) | Pc1L1(r & 0x00f00000)
  {
    Pc1Shape();
  }

  lemma Pc1LRow2(l: bv32, r: bv32)
    ensures FpPart(KEY_PERM_MASKL, 0, l, r, 2) == Pc1L0(l & 0x0000f000) | Pc1L1(r & 0x0000f000)
  {
    Pc1Shape();
  }

  lemma Pc1LRow3(l: bv32, r: bv32)
    ensures FpPart(KEY_PERM_MASKL, 0, l, r, 3) == Pc1L0(l & 0x000000f0) | Pc1L1(r & 0x000000f0)
  {
    Pc1Shape();
  }

  lemma Pc1LWires(l: bv32, r: bv32)
    ensures (Pc1L0(l & 0xf0000000) | Pc1L1(r & 0xf0000000)) | (Pc1L0(l & 0x00f00000) | Pc1L1(r & 0x00f00000)) | (Pc1L0(l & 0x0000f000) | Pc1L1(r & 0x0000f000)) | (Pc1L0(l & 0x000000f0) | Pc1L1(r & 0x000000f0)) == Pc1Left(l, r)
  {
  }

  lemma Pc1LOr(l: bv32, r: bv32, s: seq<bv32>)
    requires |s| == 4 && (Pc1Shape(); forall i :: 0 <= i < 4 ==> s[i] == FpPart(KEY_PERM_MASKL, 0, l, r, i))
    ensures Or(s, 4) == Pc1Left(l, r)
  {
    OrIs(s, 4);
    Pc1LRow0(l, r); Pc1LRow1(l, r); Pc1LRow2(l, r); Pc1LRow3(l, r);
    Pc1LWires(l, r);
  }

  /** The loop over the rows computes the wiring. */
  lemma Pc1LLoop(l: bv32, r: bv32)
    ensures (Pc1Shape(); Or(FpParts(KEY_PERM_MASKL, 0, l, r), 4) == Pc1Left(l, r))
  {
    Pc1Shape();
    Pc1LOr(l, r, FpParts(KEY_PERM_MASKL, 0, l, r));
  }

  // Pc1R

  lemma Pc1RFirst0(l: bv32)
    ensures Pick(KEY_PERM_MASKR[0], Nibble(l, 0)) | Pick(KEY_PERM_MASKR[1], Nibble(l, 1)) == Pc1R0(l & 0xff000000)
  {
  }

  lemma Pc1RSecond0(r: bv32)
    ensures Pick(KEY_PERM_MASKR[8], Nibble(r, 1)) == Pc1R1(r & 0x0f000000)
  {
  }

  lemma Pc1RRow0(l: bv32, r: bv32)
    ensures Pc1RPart(KEY_PERM_MASKR, l, r, 0) == Pc1R0(l & 0xff000000) | Pc1R1(r & 0x0f000000)
  {
    Pc1Shape();
    Pc1RFirst0(l);
    Pc1RSecond0(r);
  }

  lemma Pc1RFirst1(l: bv32)
    ensures Pick(KEY_PERM_MASKR[2], Nibble(l, 2)) | Pick(KEY_PERM_MASKR[3], Nibble(l, 3)) == Pc1R0(l & 0x00ff0000)
  {
  }

  lemma Pc1RSecond1(r: bv32)
    ensures Pick(KEY_PERM_MASKR[9], Nibble(r, 3)) == Pc1R1(r & 0x000f0000)
  {
  }

  lemma Pc1RRow1(l: bv32, r: bv32)
    ensures Pc1RPart(KEY_PERM_MASKR, l, r, 1) == Pc1R0(l & 0x00ff0000) | Pc1R1(r & 0x000f0000)
  {
    Pc1Shape();
    Pc1RFirst1(l);
    Pc1RSecond1(r);
  }

  lemma Pc1RFirst2(l: bv32)
    ensures Pick(KEY_PERM_MASKR[4], Nibble(l, 4)) | Pick(KEY_PERM_MASKR[5], Nibble(l, 5)) == Pc1R0(l & 0x0000ff00)
  {
  }

  lemma Pc1RSecond2(r: bv32)
    ensures Pick(KEY_PERM_MASKR[10], Nibble(r, 5)) == Pc1R1(r & 0x00000f00)
  {
  }

  lemma Pc1RRow2(l: bv32, r: bv32)
    ensures Pc1RPart(KEY_PERM_MASKR, l, r, 2) == Pc1R0(l & 0x0000ff00) | Pc1R1(r & 0x00000f00)
  {
    Pc1Shape();
    Pc1RFirst2(l);
    Pc1RSecond2(r);
  }

  lemma Pc1RFirst3(l: bv32)
    ensures Pick(KEY_PERM_MASKR[6], Nibble(l, 6)) | Pick(KEY_PERM_MASKR[7], Nibble(l, 7)) == Pc1R0(l & 0x000000ff)
  {
  }

  lemma Pc1RSecond3(r: bv32)
    ensures Pick(KEY_PERM_MASKR[11], Nibble(r, 7)) == Pc1R1(r & 0x0000000f)
  {
  }

  lemma Pc1RRow3(l: bv32, r: bv32)
    ensures Pc1RPart(KEY_PERM_MASKR, l, r, 3) == Pc1R0(l & 0x000000ff) | Pc1R1(r & 0x0000000f)
  {
    Pc1Shape();
    Pc1RFirst3(l);
    Pc1RSecond3(r);
  }

  lemma Pc1RWires(l: bv32, r: bv32)
    ensures (Pc1R0(l & 0xff000000) | Pc1R1(r & 0x0f000000)) | (Pc1R0(l & 0x00ff0000) | Pc1R1(r & 0x000f0000)) | (Pc1R0(l & 0x0000ff00) | Pc1R1(r & 0x00000f00)) | (Pc1R0(l & 0x000000ff) | Pc1R1(r & 0x0000000f)) == Pc1Right(l, r)
  {
  }

  lemma Pc1ROr(l: bv32, r: bv32, s: seq<bv32>)
    requires |s| == 4 && (Pc1Shape(); forall i :: 0 <= i < 4 ==> s[i] == Pc1RPart(KEY_PERM_MASKR, l, r, i))
    ensures Or(s, 4) == Pc1Right(l, r)
  {
    OrIs(s, 4);
    Pc1RRow0(l, r); Pc1RRow1(l, r); Pc1RRow2(l, r); Pc1RRow3(l, r);
    Pc1RWires(l, r);
  }

  /** The loop over the rows computes the wiring. */
  lemma Pc1RLoop(l: bv32, r: bv32)
    ensures (Pc1Shape(); Or(Pc1RParts(KEY_PERM_MASKR, l, r), 4) == Pc1Right(l, r))
  {
    Pc1Shape();
    Pc1ROr(l, r, Pc1RParts(KEY_PERM_MASKR, l, r));
  }

  // Pc2L

  lemma Pc2LRow0(x: bv32)
    ensures Pc2Part(COMP_MASKL0, COMP_MASKL1, x, 0) == Pc2L(x & 0xfe00000)
  {
    Pc2Shape();
  }

  lemma Pc2LRow1(x: bv32)
    ensures Pc2Part(COMP_MASKL0, COMP_MASKL1, x, 1) == Pc2L(x & 0x01fc000)
  {
    Pc2Shape();
  }

  lemma Pc2LRow2(x: bv32)
    ensures Pc2Part(COMP_MASKL0, COMP_MASKL1, x, 2) == Pc2L(x & 0x0003f80)
  {
    Pc2Shape();
  }

  lemma Pc2LRow3(x: bv32)
    ensures Pc2Part(COMP_MASKL0, COMP_MASKL1, x, 3) == Pc2L(x & 0x000007f)
  {
    Pc2Shape();
  }

  lemma Pc2LWires(x: bv32)
    ensures (Pc2L(x & 0xfe00000)) | (Pc2L(x & 0x01fc000)) | (Pc2L(x & 0x0003f80)) | (Pc2L(x & 0x000007f)) == Pc2L(x)
  {
  }

  lemma Pc2LOr(x: bv32, s: seq<bv32>)
    requires |s| == 4 && (Pc2Shape(); forall i :: 0 <= i < 4 ==> s[i] == Pc2Part(COMP_MASKL0, COMP_MASKL1, x, i))
    ensures Or(s, 4) == Pc2L(x)
  {
    OrIs(s, 4);
    Pc2LRow0(x); Pc2LRow1(x); Pc2LRow2(x); Pc2LRow3(x);
    Pc2LWires(x);
  }

  /** The loop over the rows computes the wiring. */
  lemma Pc2LLoop(x: bv32)
    ensures (Pc2Shape(); Or(Pc2Parts(COMP_MASKL0, COMP_MASKL1, x), 4) == Pc2L(x))
  {
    Pc2Shape();
    Pc2LOr(x, Pc2Parts(COMP_MASKL0, COMP_MASKL1, x));
  }

  // Pc2R

  lemma Pc2RRow0(x: bv32)
    ensures Pc2Part(COMP_MASKR0, COMP_MASKR1, x, 0) == Pc2R(x & 0xfe00000)
  {
    Pc2Shape();
  }

  lemma Pc2RRow1(x: bv32)
    ensures Pc2Part(COMP_MASKR0, COMP_MASKR1, x, 1) == Pc2R(x & 0x01fc000)
  {
    Pc2Shape();
  }

  lemma Pc2RRow2(x: bv32)
    ensures Pc2Part(COMP_MASKR0, COMP_MASKR1, x, 2) == Pc2R(x & 0x0003f80)
  {
    Pc2Shape();
  }

  lemma Pc2RRow3(x: bv32)
    ensures Pc2Part(COMP_MASKR0, COMP_MASKR1, x, 3) == Pc2R(x & 0x000007f)
  {
    Pc2Shape();
  }

  lemma Pc2RWires(x: bv32)
    ensures (Pc2R(x & 0xfe00000)) | (Pc2R(x & 0x01fc000)) | (Pc2R(x & 0x0003f80)) | (Pc2R(x & 0x000007f)) == Pc2R(x)
  {
  }

  lemma Pc2ROr(x: bv32, s: seq<bv32>)
    requires |s| == 4 && (Pc2Shape(); forall i :: 0 <= i < 4 ==> s[i] == Pc2Part(COMP_MASKR0, COMP_MASKR1, x, i))
    ensures Or(s, 4) == Pc2R(x)
  {
    OrIs(s, 4);
    Pc2RRow0(x); Pc2RRow1(x); Pc2RRow2(x); Pc2RRow3(x);
    Pc2RWires(x);
  }

  /** The loop over the rows computes the wiring. */
  lemma Pc2RLoop(x: bv32)
    ensures (Pc2Shape(); Or(Pc2Parts(COMP_MASKR0, COMP_MASKR1, x), 4) == Pc2R(x))
  {
    Pc2Shape();
    Pc2ROr(x, Pc2Parts(COMP_MASKR0, COMP_MASKR1, x));
  }

}
