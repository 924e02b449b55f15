/** How the crypt schemes write digests as text (to64 and the perm tables of
    library/crypt/crypt_md5.c, crypt_sha256.c and crypt_sha512.c). */
module HashText {
  import opened Arith
  import opened Common

  // ------------------------------------------------------------------- alphabet

  const B64: string := "./0123456789ABCD" + "EFGHIJKLMNOPQRST" + "UVWXYZabcdefghij" + "klmnopqrstuvwxyz"

  /** The place of a character in the alphabet, 64 for a stranger. */
  function Digit(c: char): nat {
    if c == '.' then 0 else if c == '/' then 1
    else if '0' <= c <= '9' then c as int - '0' as int + 2
    else if 'A' <= c <= 'Z' then c as int - 'A' as int + 12
    else if 'a' <= c <= 'z' then c as int - 'a' as int + 38
    else 64
  }

  predicate DigitsInOrder(n: nat)
    requires n <= 64
  {
    n == 0 || (Digit(B64[n - 1]) == n - 1 && DigitsInOrder(n - 1))
  }

  lemma {:induction false} DigitIn(i: nat, n: nat)
    requires i < n <= 64 && DigitsInOrder(n)
    ensures Digit(B64[i]) == i
  {
    if i < n - 1 {
      DigitIn(i, n - 1);
    }
  }

  lemma Digits16()
    ensures DigitsInOrder(16)
  {
    assert DigitsInOrder(2); assert DigitsInOrder(4); assert DigitsInOrder(6); assert DigitsInOrder(8);
    assert DigitsInOrder(10); assert DigitsInOrder(12); assert DigitsInOrder(14); assert DigitsInOrder(16);
  }

  lemma Digits32()
    ensures DigitsInOrder(32)
  {
    Digits16();
    assert DigitsInOrder(18); assert DigitsInOrder(20); assert DigitsInOrder(22); assert DigitsInOrder(24);
    assert DigitsInOrder(26); assert DigitsInOrder(28); assert DigitsInOrder(30); assert DigitsInOrder(32);
  }

  lemma Digits48()
    ensures DigitsInOrder(48)
  {
    Digits32();
    assert DigitsInOrder(34); assert DigitsInOrder(36); assert DigitsInOrder(38); assert DigitsInOrder(40);
    assert DigitsInOrder(42); assert DigitsInOrder(44); assert DigitsInOrder(46); assert DigitsInOrder(48);
  }

  lemma Digits64()
    ensures DigitsInOrder(64)
  {
    Digits48();
    assert DigitsInOrder(50); assert DigitsInOrder(52); assert DigitsInOrder(54); assert DigitsInOrder(56);
    assert DigitsInOrder(58); assert DigitsInOrder(60); assert DigitsInOrder(62); assert DigitsInOrder(64);
  }

  lemma DigitOfB64(i: nat)
    requires i < 64
    ensures |B64| == 64 && Digit(B64[i]) == i
  {
    Digits64();
    DigitIn(i, 64);
  }

  /** to64: n digits, the lowest first. */
  function To64(u: nat, n: nat): (s: string)
    ensures |s| == n
  {
    if n == 0 then "" else (DigitOfB64(u % 64); [B64[u % 64]] + To64(u / 64, n - 1))
  }

  function From64(s: string): nat {
    if s == "" then 0 else Digit(s[0]) + 64 * From64(s[1..])
  }

  function Power64(n: nat): nat {
    if n == 0 then 1 else 64 * Power64(n - 1)
  }

  /** The digits that are written are the lowest n of the number. */
  lemma {:induction false} From64To64(u: nat, n: nat)
    ensures Power64(n) > 0 && From64(To64(u, n)) == u % Power64(n)
  {
    if n > 0 {
      DigitOfB64(u % 64);
      From64To64(u / 64, n - 1);
      assert To64(u, n)[1..] == To64(u / 64, n - 1);
      LowestDigit(u, Power64(n - 1));
    }
  }

  lemma LowestDigit(u: nat, m: nat)
    requires m > 0
    ensures u % 64 + 64 * (u / 64 % m) == u % (64 * m)
  {
    var v := u / 64;
    var q, r := v / m, v % m;
    assert u == (64 * m) * q + (64 * r + u % 64) by {
      assert v == m * q + r;
      assert 64 * v == 64 * (m * q) + 64 * r;
    }
    IsRemainder(u, 64 * m, q, 64 * r + u % 64);
  }

  lemma DivideOnce(u: nat, m: nat)
    requires m > 0
    ensures u / 64 / m == u / (64 * m)
  {
    var q, r := u / 64 / m, u / 64 % m;
    assert u == (64 * m) * q + (64 * r + u % 64) by {
      assert u / 64 == m * q + r;
      assert 64 * (m * q) == (64 * m) * q;
    }
    IsQuotient(u, 64 * m, q, 64 * r + u % 64);
  }

  /** Character i is digit i of the number, counted from the lowest. */
  lemma {:induction false} To64At(u: nat, n: nat, i: nat)
    requires i < n
    ensures Power64(i) > 0 && Digit(To64(u, n)[i]) == u / Power64(i) % 64
    decreases n
  {
    DigitOfB64(u % 64);
    if i > 0 {
      To64At(u / 64, n - 1, i - 1);
      DivideOnce(u, Power64(i - 1));
    }
  }

  /** to64 as the C code has it. */
  method Put64(v: nat, n: nat) returns (s: string)
    ensures s == To64(v, n)
  {
    s := "";
    var u := v;
    for k := 0 to n
      invariant s + To64(u, n - k) == To64(v, n)
    {
      DigitOfB64(u % 64);
      assert s + ([B64[u % 64]] + To64(u / 64, n - k - 1)) == s + [B64[u % 64]] + To64(u / 64, n - k - 1);
      s := s + [B64[u % 64]];
      u := u / 64;
    }
  }

  // --------------------------------------------------------------------- layouts

  /** In which order a digest is printed: groups of three bytes, and what is left over.  Byte i
      of the digest is number col(i) of group row(i). */
  datatype Layout = Layout(size: nat, rows: seq<seq<nat>>, tail: seq<nat>, row: nat -> nat, col: nat -> nat) {

    function Group(r: nat): seq<nat>
      requires r <= |rows|
    {
      if r < |rows| then rows[r] else tail
    }

    /** Every byte has its place, and there are no more places than bytes. */
    ghost predicate Sound() {
      && (forall r :: 0 <= r < |rows| ==> |rows[r]| == 3 && forall c :: 0 <= c < 3 ==> rows[r][c] < size)
      && 1 <= |tail| <= 2 && (forall c :: 0 <= c < |tail| ==> tail[c] < size)
      && 3 * |rows| + |tail| == size
      && forall i :: 0 <= i < size ==> Holds(i)
    }

    ghost predicate Holds(i: nat) {
      row(i) <= |rows| && col(i) < |Group(row(i))| && Group(row(i))[col(i)] == i
    }
  }

  /** The number with the digits md[g[0]], md[g[1]], ... to base 256. */
  function Value(g: seq<nat>, md: seq<byte>): nat
    requires forall c :: 0 <= c < |g| ==> g[c] < |md|
  {
    if g == [] then 0 else 256 * Value(g[..|g| - 1], md) + md[g[|g| - 1]]
  }

  function PrintRows(layout: Layout, md: seq<byte>, n: nat): (s: string)
    requires layout.Sound() && |md| == layout.size && n <= |layout.rows|
    ensures |s| == 4 * n
  {
    if n == 0 then "" else PrintRows(layout, md, n - 1) + To64(Value(layout.rows[n - 1], md), 4)
  }

  function Print(layout: Layout, md: seq<byte>): (s: string)
    requires layout.Sound() && |md| == layout.size
    ensures |s| == 4 * |layout.rows| + |layout.tail| + 1
  {
    PrintRows(layout, md, |layout.rows|) + PrintTail(layout, md)
  }

  function PrintTail(layout: Layout, md: seq<byte>): (s: string)
    requires layout.Sound() && |md| == layout.size
    ensures |s| == |layout.tail| + 1
  {
    To64(Value(layout.tail, md), |layout.tail| + 1)
  }

  const MD5 := Layout(16, [
    [0, 6, 12], [1, 7, 13], [2, 8, 14], [3, 9, 15], [4, 10, 5]], [11],
    i => if i < 4 then i else if i < 6 || i == 10 then 4 else if i < 10 then i - 6 else if i == 11 then 5 else i - 12,
    i => if i < 5 then 0 else if i == 5 then 2 else if i < 11 then 1 else if i == 11 then 0 else 2)

  const SHA256 := Layout(32, [
    [0, 10, 20], [21, 1, 11], [12, 22, 2], [3, 13, 23], [24, 4, 14],
    [15, 25, 5], [6, 16, 26], [27, 7, 17], [18, 28, 8], [9, 19, 29]], [31, 30],
    i => if i < 30 then i % 10 else 10,
    i => if i < 30 then (i / 10 + i % 10) % 3 else if i == 30 then 1 else 0)

  const SHA512 := Layout(64, [
    [0, 21, 42], [22, 43, 1], [44, 2, 23], [3, 24, 45], [25, 46, 4], [47, 5, 26],
    [6, 27, 48], [28, 49, 7], [50, 8, 29], [9, 30, 51], [31, 52, 10], [53, 11, 32],
    [12, 33, 54], [34, 55, 13], [56, 14, 35], [15, 36, 57], [37, 58, 16], [59, 17, 38],
    [18, 39, 60], [40, 61, 19], [62, 20, 41]], [63],
    i => if i < 63 then i % 21 else 21,
    i => if i < 63 then (i / 21 + 2 * (i % 21)) % 3 else 0)

  /** The rows of the SHA tables follow a pattern: three bytes a third of the digest apart,
      starting with another one in each row. */
  function Turned(r: nat, third: nat): seq<nat> {
    if r % 3 == 0 then [r, r + third, r + 2 * third]
    else if r % 3 == 1 then [r + third, r + 2 * third, r]
    else [r + 2 * third, r, r + third]
  }

  function TurnedBack(r: nat, third: nat): seq<nat> {
    if r % 3 == 0 then [r, r + third, r + 2 * third]
    else if r % 3 == 1 then [r + 2 * third, r, r + third]
    else [r + third, r + 2 * third, r]
  }

  lemma Sha512Row(r: nat)
    requires r < 21
    ensures |SHA512.rows| == 21 && SHA512.rows[r] == Turned(r, 21)
  {
  }

  lemma Sha256Row(r: nat)
    requires r < 10
    ensures |SHA256.rows| == 10 && SHA256.rows[r] == TurnedBack(r, 10)
  {
  }

  /** The bytes of a row of the MD5 table are six apart; the last row takes byte 5, for want of a
      sixteenth. */
  lemma Md5Row(r: nat, c: nat)
    requires r < 5 && c < 3
    ensures |MD5.rows| == 5 && |MD5.rows[r]| == 3 && MD5.tail == [11]
    ensures MD5.rows[r][c] == if r + 6 * c == 16 then 5 else r + 6 * c
  {
  }

  /** A group of three bytes is printed as one number, the first byte at the top. */
  lemma ValueIs(g: seq<nat>, md: seq<byte>)
    requires forall k :: 0 <= k < |g| ==> g[k] < |md|
    ensures |g| == 3 ==> Value(g, md) == 65536 * (md[g[0]] as int) + 256 * (md[g[1]] as int) + md[g[2]]
    ensures |g| == 2 ==> Value(g, md) == 256 * (md[g[0]] as int) + md[g[1]]
    ensures |g| == 1 ==> Value(g, md) == md[g[0]]
  {
    if |g| == 3 {
      assert g[..2][..1] == [g[0]] && [g[0]][..0] == [];
      assert Value(g[..2], md) == 256 * Value([g[0]], md) + md[g[1]];
    } else if |g| == 2 {
      assert g[..1] == [g[0]] && [g[0]][..0] == [];
    }
  }

  lemma Md5Sound()
    ensures MD5.Sound()
  {
    forall i | 0 <= i < 16
      ensures MD5.Holds(i)
    {
    }
  }

  lemma Sha256Sound()
    ensures SHA256.Sound()
  {
    forall r | 0 <= r < 10
      ensures |SHA256.rows[r]| == 3 && forall c :: 0 <= c < 3 ==> SHA256.rows[r][c] < 32
    {
      Sha256Row(r);
    }
    forall i | 0 <= i < 32
      ensures SHA256.Holds(i)
    {
      if i < 30 {
        Sha256Row(i % 10);
      }
    }
  }

  lemma Sha512Place(r: nat, k: nat)
    requires r < 21 && k < 3
    ensures Turned(r, 21)[(k + 2 * r) % 3] == r + 21 * k
  {
    if r % 3 == 0 {
      assert (k + 2 * r) % 3 == k;
    } else if r % 3 == 1 {
      assert (k + 2 * r) % 3 == (k + 2) % 3;
    } else {
      assert (k + 2 * r) % 3 == (k + 1) % 3;
    }
  }

  lemma Sha512Holds(i: nat)
    requires i < 64
    ensures SHA512.Holds(i)
  {
    if i < 63 {
      var r, k := i % 21, i / 21;
      Sha512Row(r);
      Sha512Place(r, k);
      assert SHA512.row(i) == r && SHA512.col(i) == (k + 2 * r) % 3;
    }
  }

  lemma Sha512Bounds(r: nat)
    requires r < 21
    ensures |SHA512.rows[r]| == 3 && forall c :: 0 <= c < 3 ==> SHA512.rows[r][c] < 64
  {
    Sha512Row(r);
  }

  lemma Sha512Sound()
    ensures SHA512.Sound()
  {
    forall r | 0 <= r < 21
      ensures |SHA512.rows[r]| == 3 && forall c :: 0 <= c < 3 ==> SHA512.rows[r][c] < 64
    {
      Sha512Bounds(r);
    }
    forall i | 0 <= i < 64
      ensures SHA512.Holds(i)
    {
      Sha512Holds(i);
    }
  }

  // --------------------------------------------------------------- reading back

  /** Digit c, from the left, of an n-digit number to base 256. */
  function Byte256(v: nat, n: nat, c: nat): byte
    requires c < n
  {
    if c == n - 1 then v % 256 else Byte256(v / 256, n - 1, c)
  }

  /** Byte i of the digest a text was printed from. */
  function ReadByte(layout: Layout, s: string, i: nat): byte
    requires layout.Sound() && |s| == 4 * |layout.rows| + |layout.tail| + 1 && i < layout.size
  {
    assert layout.Holds(i);
    var r, c := layout.row(i), layout.col(i);
    if r < |layout.rows| then Byte256(From64(s[4 * r..4 * r + 4]), 3, c)
    else Byte256(From64(s[4 * |layout.rows|..]), |layout.tail|, c)
  }

  function Read(layout: Layout, s: string): (md: seq<byte>)
    requires layout.Sound() && |s| == 4 * |layout.rows| + |layout.tail| + 1
    ensures |md| == layout.size
  {
    seq(layout.size, i requires 0 <= i < layout.size => ReadByte(layout, s, i))
  }

  lemma {:induction false} ValueByte(g: seq<nat>, md: seq<byte>, c: nat)
    requires (forall k :: 0 <= k < |g| ==> g[k] < |md|) && c < |g|
    ensures Byte256(Value(g, md), |g|, c) == md[g[c]]
  {
    if c < |g| - 1 {
      ValueByte(g[..|g| - 1], md, c);
    }
  }

  lemma {:induction false} ValueBound(g: seq<nat>, md: seq<byte>)
    requires forall k :: 0 <= k < |g| ==> g[k] < |md|
    ensures |g| == 1 ==> Value(g, md) < 256
    ensures |g| == 2 ==> Value(g, md) < 65536
    ensures |g| == 3 ==> Value(g, md) < 16777216
  {
    if |g| > 0 {
      ValueBound(g[..|g| - 1], md);
    }
  }

  lemma ValueFits(g: seq<nat>, md: seq<byte>)
    requires (forall k :: 0 <= k < |g| ==> g[k] < |md|) && 1 <= |g| <= 3
    ensures Value(g, md) < Power64(|g| + 1)
  {
    ValueBound(g, md);
    assert Power64(2) == 4096 && Power64(3) == 262144 && Power64(4) == 16777216;
  }

  lemma GroupRead(g: seq<nat>, md: seq<byte>, c: nat)
    requires (forall k :: 0 <= k < |g| ==> g[k] < |md|) && c < |g| <= 3
    ensures Byte256(From64(To64(Value(g, md), |g| + 1)), |g|, c) == md[g[c]]
  {
    ValueFits(g, md);
    From64To64(Value(g, md), |g| + 1);
    IsRemainder(Value(g, md), Power64(|g| + 1), 0, Value(g, md));
    ValueByte(g, md, c);
  }

  lemma {:induction false} RowPrinted(layout: Layout, md: seq<byte>, n: nat, r: nat)
    requires layout.Sound() && |md| == layout.size && r < n <= |layout.rows|
    ensures PrintRows(layout, md, n)[4 * r..4 * r + 4] == To64(Value(layout.rows[r], md), 4)
  {
    if r < n - 1 {
      RowPrinted(layout, md, n - 1, r);
      assert PrintRows(layout, md, n)[4 * r..4 * r + 4] == PrintRows(layout, md, n - 1)[4 * r..4 * r + 4];
    }
  }

  lemma PrintedRow(layout: Layout, md: seq<byte>, r: nat)
    requires layout.Sound() && |md| == layout.size && r < |layout.rows|
    ensures Print(layout, md)[4 * r..4 * r + 4] == To64(Value(layout.rows[r], md), 4)
  {
    var n := |layout.rows|;
    RowPrinted(layout, md, n, r);
    Slice(PrintRows(layout, md, n), PrintTail(layout, md), 4 * r, 4 * r + 4);
  }

  lemma Slice(a: string, b: string, i: nat, j: nat)
    requires i <= j <= |a|
    ensures (a + b)[i..j] == a[i..j]
  {
  }

  lemma Drop(a: string, b: string, n: nat)
    requires n == |a|
    ensures (a + b)[n..] == b
  {
  }

  lemma PrintedTail(layout: Layout, md: seq<byte>)
    requires layout.Sound() && |md| == layout.size
    ensures Print(layout, md)[4 * |layout.rows|..] == PrintTail(layout, md)
  {
    var n := |layout.rows|;
    Drop(PrintRows(layout, md, n), PrintTail(layout, md), 4 * n);
  }

  lemma ReadPrintedByte(layout: Layout, md: seq<byte>, i: nat)
    requires layout.Sound() && |md| == layout.size && i < layout.size
    ensures ReadByte(layout, Print(layout, md), i) == md[i]
  {
    assert layout.Holds(i);
    var r, c := layout.row(i), layout.col(i);
    if r < |layout.rows| {
      PrintedRow(layout, md, r);
      GroupRead(layout.rows[r], md, c);
    } else {
      PrintedTail(layout, md);
      GroupRead(layout.tail, md, c);
    }
  }

  /** The text form loses nothing. */
  lemma ReadPrint(layout: Layout, md: seq<byte>)
    requires layout.Sound() && |md| == layout.size
    ensures Read(layout, Print(layout, md)) == md
  {
    forall i | 0 <= i < layout.size
      ensures ReadByte(layout, Print(layout, md), i) == md[i]
    {
      ReadPrintedByte(layout, md, i);
    }
  }

  /** The printing loops of md5crypt, sha256crypt and sha512crypt. */
  method PrintDigest(layout: Layout, md: seq<byte>) returns (s: string)
    requires layout.Sound() && |md| == layout.size
    ensures s == Print(layout, md)
  {
    s := "";
    for r := 0 to |layout.rows|
      invariant s == PrintRows(layout, md, r)
    {
      var g := Put64(Value(layout.rows[r], md), 4);
      s := s + g;
    }
    var last := Put64(Value(layout.tail, md), |layout.tail| + 1);
    s := s + last;
  }

  /** The texts have 22, 43 and 86 characters. */
  lemma PrintedLengths(md5: seq<byte>, sha256: seq<byte>, sha512: seq<byte>)
    requires |md5| == 16 && |sha256| == 32 && |sha512| == 64
    ensures MD5.Sound() && |Print(MD5, md5)| == 22
    ensures SHA256.Sound() && |Print(SHA256, sha256)| == 43
    ensures SHA512.Sound() && |Print(SHA512, sha512)| == 86
  {
    Md5Sound();
    Sha256Sound();
    Sha512Sound();
  }
}
