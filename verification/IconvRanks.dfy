/** The codes of GB18030 and of CP949 that are not in a table (library/iconv/iconv.c): each stands
    for the code point with its number among those that the table leaves out. */
module IconvRanks {
  import opened Common
  import opened IconvDecode
  import opened GapFill

  // --------------------------------------------------------------------- GB18030

  /** The two-byte table, and the loop that numbers what it leaves out. */
  ghost predicate GbTable(t: Tables, gb: Rows) {
    && |gb| == 126 && (forall i :: 0 <= i < 126 ==> |gb[i]| == 190)
    && (forall i, j :: 0 <= i < 126 && 0 <= j < 190 ==> t.gb(i, j) == gb[i][j])
    && forall n: nat :: IsFilled(gb, 0, n, t.gbRank(n))
  }

  predicate IsFour(s: seq<byte>) {
    && |s| == 4 && 0x81 <= At(s, 0) < 0x81 + 126 && 0x30 <= At(s, 1) <= 0x39
    && 0x81 <= At(s, 2) <= 0x81 + 126 && 0x30 <= At(s, 3) <= 0x39
  }

  function Linear(s: seq<byte>): nat
    requires IsFour(s)
  {
    (10 * (At(s, 0) - 0x81) + (At(s, 1) - 0x30)) * 1260 + 10 * (At(s, 2) - 0x81) + (At(s, 3) - 0x30) + 128
  }

  lemma FourUnit(t: Tables, s: seq<byte>)
    requires IsFour(s)
    ensures UnitGb(t, GB18030, s) == Char(t.gbRank(Linear(s)), 4)
  {
  }

  lemma LinearDistinct(s: seq<byte>, s': seq<byte>)
    requires IsFour(s) && IsFour(s') && At(s, 2) != 0xff && At(s', 2) != 0xff && Linear(s) == Linear(s')
    ensures s == s'
  {
    var a, b := 10 * (At(s, 2) - 0x81) + (At(s, 3) - 0x30), 10 * (At(s', 2) - 0x81) + (At(s', 3) - 0x30);
    assert 10 * (At(s, 0) - 0x81) + (At(s, 1) - 0x30) == 10 * (At(s', 0) - 0x81) + (At(s', 1) - 0x30) && a == b;
  }

  /** Codes in the order of their bytes: the first that differs decides. */
  ghost predicate Sooner(s: seq<byte>, s': seq<byte>)
    requires |s| == |s'|
  {
    exists i :: 0 <= i < |s| && s[i] < s'[i] && s[..i] == s'[..i]
  }

  lemma FirstDiffers(s: seq<byte>, s': seq<byte>) returns (i: nat)
    requires |s| == |s'| && Sooner(s, s')
    ensures i < |s| && s[i] < s'[i] && forall k :: 0 <= k < i ==> s[k] == s'[k]
  {
    i :| 0 <= i < |s| && s[i] < s'[i] && s[..i] == s'[..i];
    assert forall k :: 0 <= k < i ==> s[..i][k] == s[k] && s'[..i][k] == s'[k];
  }

  lemma LinearOrder(s: seq<byte>, s': seq<byte>)
    requires IsFour(s) && IsFour(s') && At(s, 2) != 0xff && At(s', 2) != 0xff && Sooner(s, s')
    ensures Linear(s) < Linear(s')
  {
    var x, x' := 10 * (At(s, 0) - 0x81) + (At(s, 1) - 0x30), 10 * (At(s', 0) - 0x81) + (At(s', 1) - 0x30);
    var y, y' := 10 * (At(s, 2) - 0x81) + (At(s, 3) - 0x30), 10 * (At(s', 2) - 0x81) + (At(s', 3) - 0x30);
    var i := FirstDiffers(s, s');
    assert i == 0 || i == 1 || i == 2 || i == 3;
    assert x < x' || (x == x' && y < y');
  }

  /** Four-byte codes and characters are in the same order. */
  lemma FourOrder(t: Tables, gb: Rows, s: seq<byte>, s': seq<byte>)
    requires GbTable(t, gb) && IsFour(s) && IsFour(s') && At(s, 2) != 0xff && At(s', 2) != 0xff && Sooner(s, s')
    ensures UnitGb(t, GB18030, s).Char? && UnitGb(t, GB18030, s').Char? && UnitGb(t, GB18030, s).c < UnitGb(t, GB18030, s').c
  {
    FourUnit(t, s);
    FourUnit(t, s');
    LinearOrder(s, s');
    Increasing(gb, 0, Linear(s), Linear(s'), t.gbRank(Linear(s)), t.gbRank(Linear(s')));
  }

  /** Row and column of a two-byte code; the second byte leaves out 127. */
  lemma TwoRead(t: Tables, i: nat, j: nat, type': nat, rest: seq<byte>)
    requires i < 126 && j < 190 && (type' == GB18030 || type' == GBK)
    ensures UnitGb(t, type', [0x81 + i, if j < 63 then 0x40 + j else 0x41 + j] + rest) == Char(t.gb(i, j), 2)
  {
    var s := [0x81 + i, if j < 63 then 0x40 + j else 0x41 + j] + rest;
    assert s[0] == 0x81 + i && s[1] == if j < 63 then 0x40 + j else 0x41 + j;
  }

  /** GBK has no four-byte codes, and GB2312 only pairs of bytes from 0xA1 on; else they are read alike. */
  lemma OlderTypes(t: Tables, s: seq<byte>)
    requires |s| >= 2 && At(s, 0) >= 128
    ensures UnitGb(t, GBK, s) == if 0x30 <= At(s, 1) <= 0x39 then Illegal else UnitGb(t, GB18030, s)
    ensures UnitGb(t, GB2312, s) == if At(s, 0) < 0xa1 || At(s, 1) < 0xa1 then Illegal else UnitGb(t, GB18030, s)
  {
  }

  /** Two four-byte codes stand for the same character if and only if they have the same number. */
  lemma SameNumber(t: Tables, gb: Rows, s: seq<byte>, s': seq<byte>)
    requires GbTable(t, gb) && IsFour(s) && IsFour(s')
    ensures UnitGb(t, GB18030, s) == UnitGb(t, GB18030, s') <==> Linear(s) == Linear(s')
  {
    FourUnit(t, s);
    FourUnit(t, s');
    var n, n' := Linear(s), Linear(s');
    if n < n' {
      Increasing(gb, 0, n, n', t.gbRank(n), t.gbRank(n'));
    } else if n' < n {
      Increasing(gb, 0, n', n, t.gbRank(n'), t.gbRank(n));
    }
  }

  /** Four-byte codes whose third byte is not 0xFF are different characters, none of them in the
      two-byte table. */
  lemma FourByteCodes(t: Tables, gb: Rows, s: seq<byte>, s': seq<byte>)
    requires GbTable(t, gb) && IsFour(s) && IsFour(s') && At(s, 2) != 0xff && At(s', 2) != 0xff
    ensures UnitGb(t, GB18030, s) == UnitGb(t, GB18030, s') <==> s == s'
    ensures !Holds(gb, UnitGb(t, GB18030, s).c)
  {
    SameNumber(t, gb, s, s');
    FourUnit(t, s);
    assert IsFilled(gb, 0, Linear(s), t.gbRank(Linear(s)));
    if Linear(s) == Linear(s') {
      LinearDistinct(s, s');
    }
  }

  /** The third byte may be 0xFF, one more than there are: such a code is a second one for a
      character that has another. */
  lemma SecondCode(t: Tables)
    ensures UnitGb(t, GB18030, [0x81, 0x30, 0xff, 0x30]) == UnitGb(t, GB18030, [0x81, 0x31, 0x81, 0x30])
  {
    FourUnit(t, [0x81, 0x30, 0xff, 0x30]);
    FourUnit(t, [0x81, 0x31, 0x81, 0x30]);
  }

  function FourOf(m: nat): (s: seq<byte>)
    requires m < 126 * 10 * 1260
  {
    [0x81 + m / 12600, 0x30 + m / 1260 % 10, 0x81 + m % 1260 / 10, 0x30 + m % 10]
  }

  lemma LinearOf(m: nat)
    requires m < 126 * 10 * 1260
    ensures IsFour(FourOf(m)) && Linear(FourOf(m)) == m + 128 && At(FourOf(m), 2) != 0xff
  {
    assert m == 1260 * (m / 1260) + m % 1260;
    assert m / 1260 == 10 * (m / 12600) + m / 1260 % 10;
    assert m % 1260 == 10 * (m % 1260 / 10) + m % 10;
  }

  /** The bytes of a cell. */
  function TwoOf(i: nat, j: nat): (s: seq<byte>)
    requires i < 126 && j < 190
  {
    [0x81 + i, if j < 63 then 0x40 + j else 0x41 + j]
  }

  lemma TwoUnit(t: Tables, i: nat, j: nat)
    requires i < 126 && j < 190
    ensures UnitGb(t, GB18030, TwoOf(i, j)) == Char(t.gb(i, j), 2)
  {
  }

  /** Every code point has a code: of two bytes if the table has it, else of four.  The table holds
      no character twice and none of ASCII. */
  lemma GbCovers(t: Tables, gb: Rows, x: nat)
    requires GbTable(t, gb) && NoRepeats(gb, 0) && Count(gb, 0, 127) == 0 && 128 <= x < 0x110000
    ensures exists s :: |s| == (if Holds(gb, x) then 2 else 4) && UnitGb(t, GB18030, s) == Char(x, |s|)
  {
    if Holds(gb, x) {
      var i, j :| 0 <= i < |gb| && 0 <= j < |gb[i]| && gb[i][j] == x;
      TwoUnit(t, i, j);
    } else {
      var n := Number(gb, x);
      LinearOf(n - 128);
      FourUnit(t, FourOf(n - 128));
      Unique(gb, 0, n, x, t.gbRank(n));
    }
  }

  /** The number of a code point. */
  ghost function Number(gb: Rows, x: nat): (n: nat)
    requires NoRepeats(gb, 0) && Count(gb, 0, 127) == 0 && 128 <= x < 0x110000 && !Holds(gb, x)
    ensures IsFilled(gb, 0, n, x) && 128 <= n < 0x110000
  {
    Onto(gb, 0, x);
    Grows(gb, 0, x, x);
    Missing(gb, x, |gb|);
    Slow(gb, 0, 127, x - 1);
    x - Count(gb, 0, x)
  }

  /** When a four-byte code is a Unicode scalar value: its number lies below the surrogates, or
      between them and the end. */
  lemma FourScalar(t: Tables, gb: Rows, s: seq<byte>)
    requires GbTable(t, gb) && NoRepeats(gb, 0) && IsFour(s)
    ensures var n := Linear(s);
      Scalar(UnitGb(t, GB18030, s).c)
      <==> n + Count(gb, 0, 0xd7ff) <= 0xd7ff
           || (n + Count(gb, 0, 0xdfff) > 0xdfff && n + Count(gb, 0, 0x10ffff) <= 0x10ffff)
  {
    var n := Linear(s);
    FourUnit(t, s);
    var c := t.gbRank(n);
    assert IsFilled(gb, 0, n, c);
    AtMost(gb, 0, n, c, 0xd7ff);
    AtMost(gb, 0, n, c, 0xdfff);
    AtMost(gb, 0, n, c, 0x10ffff);
  }

  /** With a table of 21699 characters below the surrogates and 23940 in all: the codes from
      83 36 C7 39 on are surrogates, and those from D7 35 8F 34 on lie above U+10FFFF. */
  lemma FourOutside(t: Tables, gb: Rows, s: seq<byte>)
    requires GbTable(t, gb) && NoRepeats(gb, 0) && IsFour(s)
    requires Count(gb, 0, 0xd7ff) == Count(gb, 0, 0xdfff) == 21699 && Count(gb, 0, 0x10ffff) == 23940
    ensures Scalar(UnitGb(t, GB18030, s).c) <==> Linear(s) <= 33596 || 35645 <= Linear(s) <= 1090171
    ensures s == [0x83, 0x36, 0xc7, 0x39] || s == [0xd7, 0x35, 0x8f, 0x34] ==> !Scalar(UnitGb(t, GB18030, s).c)
  {
    FourScalar(t, gb, s);
  }

  // ----------------------------------------------------------------------- CP949

  ghost predicate KscTable(t: Tables, ksc: Rows) {
    forall n: nat :: n >= 0xac00 ==> IsFilled(ksc, 0xac00, n, t.kscRank(n))
  }

  /** A pair outside the square of KS X 1001. */
  predicate IsExtended(s: seq<byte>) {
    && |s| == 2 && 0x81 <= At(s, 0) < 0x81 + 93 && KrColumn(At(s, 1)) >= 0
    && !(0xa1 <= At(s, 0) && 0xa1 <= At(s, 1)) && !(At(s, 0) >= 0xc6 && At(s, 1) > 0x52)
  }

  function KrLinear(s: seq<byte>): nat
    requires IsExtended(s)
  {
    var r, k := At(s, 0) - 0x81, KrColumn(At(s, 1));
    (if r < 0x20 then 178 * r + k else 178 * 0x20 + 84 * (r - 0x20) + k) + 0xac00
  }

  lemma ExtendedUnit(t: Tables, s: seq<byte>)
    requires IsExtended(s)
    ensures UnitKr(t, s) == Char(t.kscRank(KrLinear(s)), 2)
  {
  }

  /** The column is below the width of the row. */
  lemma KrColumnFits(s: seq<byte>)
    requires IsExtended(s)
    ensures KrColumn(At(s, 1)) < if At(s, 0) - 0x81 < 0x20 then 178 else 84
  {
  }

  lemma ColumnDistinct(d: nat, d': nat)
    requires KrColumn(d) == KrColumn(d') >= 0
    ensures d == d'
  {
  }

  lemma KrLinearDistinct(s: seq<byte>, s': seq<byte>)
    requires IsExtended(s) && IsExtended(s') && KrLinear(s) == KrLinear(s')
    ensures s == s'
  {
    KrColumnFits(s);
    KrColumnFits(s');
    assert At(s, 0) == At(s', 0);
    ColumnDistinct(At(s, 1), At(s', 1));
  }

  /** Different pairs outside the square are different characters, none of them in the square. */
  lemma ExtendedCodes(t: Tables, ksc: Rows, s: seq<byte>, s': seq<byte>)
    requires KscTable(t, ksc) && IsExtended(s) && IsExtended(s')
    ensures UnitKr(t, s) == UnitKr(t, s') <==> s == s'
    ensures !Holds(ksc, UnitKr(t, s).c)
  {
    ExtendedUnit(t, s);
    ExtendedUnit(t, s');
    var n, n' := KrLinear(s), KrLinear(s');
    assert IsFilled(ksc, 0xac00, n, t.kscRank(n)) && IsFilled(ksc, 0xac00, n', t.kscRank(n'));
    if n < n' {
      Increasing(ksc, 0xac00, n, n', t.kscRank(n), t.kscRank(n'));
    } else if n' < n {
      Increasing(ksc, 0xac00, n', n, t.kscRank(n'), t.kscRank(n));
    } else {
      KrLinearDistinct(s, s');
    }
  }

  lemma ColumnOrder(d: nat, d': nat)
    requires KrColumn(d) >= 0 && KrColumn(d') >= 0 && d < d'
    ensures KrColumn(d) < KrColumn(d')
  {
  }

  lemma KrLinearOrder(s: seq<byte>, s': seq<byte>)
    requires IsExtended(s) && IsExtended(s') && Sooner(s, s')
    ensures KrLinear(s) < KrLinear(s')
  {
    var i := FirstDiffers(s, s');
    KrColumnFits(s);
    KrColumnFits(s');
    if s[0] == s'[0] {
      ColumnOrder(At(s, 1), At(s', 1));
    }
  }

  /** Pairs outside the square and their characters are in the same order; the square is read by row
      and column. */
  lemma ExtendedOrder(t: Tables, ksc: Rows, s: seq<byte>, s': seq<byte>)
    requires KscTable(t, ksc) && IsExtended(s) && IsExtended(s') && Sooner(s, s')
    ensures UnitKr(t, s).Char? && UnitKr(t, s').Char? && UnitKr(t, s).c < UnitKr(t, s').c
  {
    ExtendedUnit(t, s);
    ExtendedUnit(t, s');
    KrLinearOrder(s, s');
    Increasing(ksc, 0xac00, KrLinear(s), KrLinear(s'), t.kscRank(KrLinear(s)), t.kscRank(KrLinear(s')));
  }

  lemma SquareRead(t: Tables, i: nat, j: nat, rest: seq<byte>)
    requires i < 93 && j < 94
    ensures UnitKr(t, [0xa1 + i, 0xa1 + j] + rest) == Cell(t.ksc(i, j), 2)
  {
    var s := [0xa1 + i, 0xa1 + j] + rest;
    assert s[0] == 0xa1 + i && s[1] == 0xa1 + j;
  }

  function ColumnByte(k: nat): (d: nat)
    requires k < 178
    ensures KrColumn(d) == k && d < 256
  {
    if k < 26 then 0x41 + k else if k < 52 then 0x61 + k - 26 else 0x81 + k - 52
  }

  function ExtendedOf(m: nat): (s: seq<byte>)
    requires m < 8822
  {
    if m < 178 * 0x20 then [0x81 + m / 178, ColumnByte(m % 178)]
    else [0xa1 + (m - 178 * 0x20) / 84, ColumnByte((m - 178 * 0x20) % 84)]
  }

  lemma KrLinearOf(m: nat)
    requires m < 8822
    ensures IsExtended(ExtendedOf(m)) && KrLinear(ExtendedOf(m)) == m + 0xac00
  {
  }

  /** Every Hangul syllable outside the square, which holds 2350 of them, has a pair. */
  lemma KrCovers(t: Tables, ksc: Rows, x: nat)
    requires KscTable(t, ksc) && NoRepeats(ksc, 0xac00) && Count(ksc, 0xac00, 0xd7a3) == 2350
    requires 0xac00 <= x <= 0xd7a3 && !Holds(ksc, x)
    ensures exists s :: IsExtended(s) && UnitKr(t, s) == Char(x, 2)
  {
    var n := x - Count(ksc, 0xac00, x);
    IndexFromStart(ksc, 0xac00, x);
    Onto(ksc, 0xac00, x);
    Slow(ksc, 0xac00, x, 0xd7a3);
    KrLinearOf(n - 0xac00);
    ExtendedUnit(t, ExtendedOf(n - 0xac00));
    Unique(ksc, 0xac00, n, x, t.kscRank(n));
  }

  lemma KrBelow(s: seq<byte>)
    requires IsExtended(s)
    ensures KrLinear(s) + 2350 <= 0xd7a3 <==> At(s, 0) <= 0xc6
    ensures KrLinear(s) + 2350 <= 0xd7ff <==> At(s, 0) <= 0xc7
    ensures KrLinear(s) + 2350 <= 0xdfff
  {
    KrColumnFits(s);
    if At(s, 0) >= 0xc6 {
      assert KrColumn(At(s, 1)) <= 17;
    }
  }

  /** A pair outside the square is a Hangul syllable if and only if its first byte is at most 0xC6,
      and a Unicode scalar value if and only if it is at most 0xC7: the code goes on to 0xDD.  The
      table holds 2350 syllables, and nothing from there to the end of the surrogates. */
  lemma KrScalar(t: Tables, ksc: Rows, s: seq<byte>)
    requires KscTable(t, ksc) && NoRepeats(ksc, 0xac00) && IsExtended(s)
    requires Count(ksc, 0xac00, 0xd7a3) == Count(ksc, 0xac00, 0xd7ff) == Count(ksc, 0xac00, 0xdfff) == 2350
    ensures 0xac00 <= UnitKr(t, s).c <= 0xd7a3 <==> At(s, 0) <= 0xc6
    ensures Scalar(UnitKr(t, s).c) <==> At(s, 0) <= 0xc7
  {
    var n := KrLinear(s);
    ExtendedUnit(t, s);
    var c := t.kscRank(n);
    assert IsFilled(ksc, 0xac00, n, c);
    AtMost(ksc, 0xac00, n, c, 0xd7a3);
    AtMost(ksc, 0xac00, n, c, 0xd7ff);
    AtMost(ksc, 0xac00, n, c, 0xdfff);
    KrBelow(s);
  }
}
