/** Which texts come back from Shift_JIS, EUC-JP and ISO-2022-JP (library/iconv/iconv.c). */
module IconvJapanese {
  import opened Common
  import opened IconvDecode
  import opened IconvRun
  import opened IconvRoundTrip
  import Jis

  // ------------------------------------------------------------------ characters

  /** The character table is the given one, and toJis is a search in it. */
  ghost predicate SearchesIn(t: Tables, table: Jis.Table) {
    && table.Sorted() && table.Complete() && t.jis == table.cells
    && forall c: nat :: Jis.IsResult(table, c, t.toJis(c))
  }

  ghost predicate JisSound(t: Tables) {
    forall c: nat :: t.toJis(c) != 0 ==> InSquare(t.toJis(c)) && t.jis(t.toJis(c) / 256 - 33, t.toJis(c) % 256 - 33) == c
  }

  predicate InSquare(j: nat) {
    33 <= j / 256 < 117 && 33 <= j % 256 < 127
  }

  lemma BaseIsSquare(k: nat)
    requires k / 256 < 84 && k % 256 < 94
    ensures (k + Jis.BASE) / 256 == k / 256 + 33 && (k + Jis.BASE) % 256 == k % 256 + 33
  {
  }

  /** The search leads to a cell with the character, and to one whenever there is one. */
  lemma SearchIsSound(t: Tables, table: Jis.Table)
    requires SearchesIn(t, table)
    ensures JisSound(t)
    ensures forall c: nat :: c != 0 ==> (t.toJis(c) != 0 <==> Jis.Has(table, c))
  {
    forall c: nat
      ensures t.toJis(c) != 0 ==> InSquare(t.toJis(c)) && t.jis(t.toJis(c) / 256 - 33, t.toJis(c) % 256 - 33) == c
      ensures c != 0 ==> (t.toJis(c) != 0 <==> Jis.Has(table, c))
    {
      Jis.ResultMeans(table, c, t.toJis(c));
      if t.toJis(c) != 0 {
        BaseIsSquare(t.toJis(c) - Jis.BASE);
      }
    }
  }

  /** What a Japanese target makes of a character it does not have, where that comes to an end. */
  lemma StarOut(t: Tables, src: nat, to: nat, c: nat)
    requires Converts(t, src, to, c) && IsJapanese(to) && Direct(t, to, c).None?
    ensures Encode(t, src, to, c) == [42]
  {
  }

  function SjisBack(t: Tables, c: nat): nat {
    if c == 0xa5 then 0x5c else if c == 0x203e then 0x7e
    else if c < 128 || Katakana(c) || t.toJis(c) != 0 then c
    else STAR
  }

  /** The two bytes of a cell lead back to it. */
  /** The bytes of row k and cell m of JIS X 0208, both counted from 1, in Shift_JIS. */
  function SjisBytes(k: nat, m: nat): seq<byte>
    requires 1 <= k <= 84 && 1 <= m <= 94
  {
    [(k - 1) / 2 + if k <= 62 then 0x81 else 0xc1, if k % 2 == 0 then m + 0x9e else if m <= 63 then m + 0x3f else m + 0x40]
  }

  lemma SjisPairIs(k: nat, m: nat)
    requires 1 <= k <= 84 && 1 <= m <= 94
    ensures SjisPair(k + 0x20, m + 0x20) == SjisBytes(k, m)
  {
  }

  lemma SjisCellIs(t: Tables, k: nat, m: nat)
    requires 1 <= k <= 84 && 1 <= m <= 94
    ensures var s := SjisBytes(k, m);
      && (129 <= s[0] <= 159 || 224 <= s[0] <= 239)
      && SjisCell(t, if s[0] <= 159 then s[0] - 129 else s[0] - 193, s[1]) == Cell(t.jis(k - 1, m - 1), 2)
  {
    assert k <= 62 ==> (k - 1) / 2 <= 30;
    assert k > 62 ==> 31 <= (k - 1) / 2 <= 41;
  }

  lemma SjisCellBack(t: Tables, r: nat, k: nat)
    requires 33 <= r < 117 && 33 <= k < 127
    ensures var s := SjisPair(r, k);
      && (129 <= s[0] <= 159 || 224 <= s[0] <= 239)
      && SjisCell(t, if s[0] <= 159 then s[0] - 129 else s[0] - 193, s[1]) == Cell(t.jis(r - 33, k - 33), 2)
  {
    SjisPairIs(r - 32, k - 32);
    SjisCellIs(t, r - 32, k - 32);
  }

  lemma SjisUnit(t: Tables, c: nat, rest: seq<byte>)
    requires JisSound(t) && EncodeSjis(t, c).Some?
    ensures var e := EncodeSjis(t, c).value; UnitSjis(t, e + rest) == Char(SjisBack(t, c), |e|)
  {
    if c >= 128 && c != 0xa5 && c != 0x203e && !Katakana(c) {
      SjisCellBack(t, t.toJis(c) / 256, t.toJis(c) % 256);
    }
  }

  lemma BackSjis(t: Tables, src: nat, c: nat)
    requires JisSound(t) && Converts(t, src, SHIFT_JIS, c)
    ensures Back(t, src, SHIFT_JIS, 0, SHIFT_JIS, c, SjisBack(t, c))
  {
    forall rest
      ensures Decoded(t, SHIFT_JIS, 0, Encode(t, src, SHIFT_JIS, c) + rest)
           == Then([SjisBack(t, c)], Decoded(t, SHIFT_JIS, 0, rest))
    {
      if EncodeSjis(t, c).Some? {
        SjisUnit(t, c, rest);
      } else {
        StarOut(t, src, SHIFT_JIS, c);
      }
      BackAt(t, src, SHIFT_JIS, 0, SHIFT_JIS, c, SjisBack(t, c), rest);
    }
  }

  function EucBack(t: Tables, c: nat): nat {
    if c < 128 || Katakana(c) || t.toJis(c) != 0 then c else STAR
  }

  lemma EucCellBack(t: Tables, j: nat, rest: seq<byte>)
    requires InSquare(j)
    ensures UnitEucJp(t, [(j / 256 + 0x80) % 256, (j % 256 + 0x80) % 256] + rest) == Cell(t.jis(j / 256 - 33, j % 256 - 33), 2)
  {
  }

  lemma EucKana(t: Tables, c: nat, rest: seq<byte>)
    requires Katakana(c)
    ensures var j := c - 0xff61 + 0x0e21;
      UnitEucJp(t, [(j / 256 + 0x80) % 256, (j % 256 + 0x80) % 256] + rest) == Char(c, 2)
  {
  }

  lemma EucUnit(t: Tables, c: nat, rest: seq<byte>)
    requires JisSound(t) && EncodeEucJp(t, c).Some?
    ensures var e := EncodeEucJp(t, c).value; UnitEucJp(t, e + rest) == Char(EucBack(t, c), |e|)
  {
    if c < 128 {
    } else if Katakana(c) {
      EucKana(t, c, rest);
    } else {
      EucCellBack(t, t.toJis(c), rest);
    }
  }

  lemma BackEuc(t: Tables, src: nat, c: nat)
    requires JisSound(t) && Converts(t, src, EUC_JP, c)
    ensures Back(t, src, EUC_JP, 0, EUC_JP, c, EucBack(t, c))
  {
    forall rest
      ensures Decoded(t, EUC_JP, 0, Encode(t, src, EUC_JP, c) + rest) == Then([EucBack(t, c)], Decoded(t, EUC_JP, 0, rest))
    {
      if EncodeEucJp(t, c).Some? {
        EucUnit(t, c, rest);
      } else {
        StarOut(t, src, EUC_JP, c);
      }
      BackAt(t, src, EUC_JP, 0, EUC_JP, c, EucBack(t, c), rest);
    }
  }

  function IsoBack(t: Tables, c: nat): nat {
    if c < 128 || c == 0xa5 || c == 0x203e || Katakana(c) || t.toJis(c) != 0 then c else STAR
  }

  lemma ShiftTo(t: Tables, st: nat, a: nat, b: nat, st': nat, rest: seq<byte>)
    requires a < 256 && b < 256 && Escape(a, b) == Shift(st', 3)
    ensures Decoded(t, ISO2022_JP, st, [27, a, b] + rest) == Decoded(t, ISO2022_JP, st', rest)
  {
    var s := [27, a, b] + rest;
    assert s[3..] == rest;
  }

  lemma CharIn(t: Tables, st: nat, e: seq<byte>, c: nat, rest: seq<byte>)
    requires |e| > 0 && UnitIso2022(t, st, e + rest) == Char(c, |e|)
    ensures Decoded(t, ISO2022_JP, st, e + rest) == Then([c], Decoded(t, ISO2022_JP, st, rest))
  {
    assert (e + rest)[|e|..] == rest;
  }

  /** A character between its escape sequences; afterwards the decoder is in state 0 again. */
  lemma EscapedBack(t: Tables, st0: nat, a: byte, b: byte, e: seq<byte>, st: nat, c: nat, rest: seq<byte>)
    requires |e| > 0 && Escape(a, b) == Shift(st, 3)
    requires UnitIso2022(t, st, e + ([27, 0x28, 0x42] + rest)) == Char(c, |e|)
    ensures Decoded(t, ISO2022_JP, st0, Escaped(a, b, e) + rest) == Then([c], Decoded(t, ISO2022_JP, 0, rest))
  {
    var back := [27, 0x28, 0x42] + rest;
    Regroup([27, a, b], e, [27, 0x28, 0x42], rest);
    ShiftTo(t, st0, a, b, st, e + back);
    CharIn(t, st, e, c, back);
    ShiftTo(t, st, 0x28, 0x42, 0, rest);
  }

  /** A character that is put out between escape sequences comes back in any state. */
  lemma EscapedUnit(t: Tables, st: nat, c: nat, rest: seq<byte>)
    requires JisSound(t) && EncodeIso2022(t, c).Some? && c >= 128
    ensures Decoded(t, ISO2022_JP, st, EncodeIso2022(t, c).value + rest) == Then([c], Decoded(t, ISO2022_JP, 0, rest))
  {
    if c == 0xa5 {
      EscapedBack(t, st, 0x28, 0x4a, [0x5c], 1, c, rest);
    } else if c == 0x203e {
      EscapedBack(t, st, 0x28, 0x4a, [0x7e], 1, c, rest);
    } else if Katakana(c) {
      EscapedBack(t, st, 0x28, 0x49, [c - 0xff61 + 0x21], 4, c, rest);
    } else {
      EscapedBack(t, st, 0x24, 0x42, [t.toJis(c) / 256 % 256, t.toJis(c) % 256], 3, c, rest);
    }
  }

  /** All but the escape character, which is read as the start of a sequence. */
  lemma IsoUnit(t: Tables, src: nat, c: nat, rest: seq<byte>)
    requires JisSound(t) && Converts(t, src, ISO2022_JP, c) && c != ESC
    ensures Decoded(t, ISO2022_JP, 0, Encode(t, src, ISO2022_JP, c) + rest)
         == Then([IsoBack(t, c)], Decoded(t, ISO2022_JP, 0, rest))
  {
    if c < 128 {
      CharIn(t, 0, [c], c, rest);
    } else if EncodeIso2022(t, c).Some? {
      EscapedUnit(t, 0, c, rest);
    } else {
      StarOut(t, src, ISO2022_JP, c);
      CharIn(t, 0, [42], 42, rest);
    }
  }

  lemma BackIso(t: Tables, src: nat, c: nat)
    requires JisSound(t) && Converts(t, src, ISO2022_JP, c) && c != ESC
    ensures Back(t, src, ISO2022_JP, 0, ISO2022_JP, c, IsoBack(t, c))
  {
    forall rest
      ensures Decoded(t, ISO2022_JP, 0, Encode(t, src, ISO2022_JP, c) + rest)
           == Then([IsoBack(t, c)], Decoded(t, ISO2022_JP, 0, rest))
    {
      IsoUnit(t, src, c, rest);
    }
  }

  /** What comes back for c from a Japanese encoding. */
  function BackFrom(t: Tables, to: nat, c: nat): nat {
    if to == SHIFT_JIS then SjisBack(t, c) else if to == EUC_JP then EucBack(t, c) else IsoBack(t, c)
  }

  lemma BackJapanese(t: Tables, src: nat, to: nat, cs: seq<nat>)
    requires JisSound(t) && AllConvert(t, src, to, cs) && IsJapanese(to) && (to == ISO2022_JP ==> ESC !in cs)
    ensures Decoded(t, to, 0, EncodeAll(t, src, to, cs)) == Text(Each((c: nat) => BackFrom(t, to, c), cs), Ended)
  {
    var f := (c: nat) => BackFrom(t, to, c);
    forall c | c in cs
      ensures Back(t, src, to, 0, to, c, f(c))
    {
      if to == SHIFT_JIS {
        BackSjis(t, src, c);
      } else if to == EUC_JP {
        BackEuc(t, src, c);
      } else {
        BackIso(t, src, c);
      }
    }
    AllBack(t, src, to, 0, to, f, cs, []);
    Empty(EncodeAll(t, src, to, cs));
    Empty(Each(f, cs));
  }

  // ------------------------------------------------------ the table of Shift_JIS

  predicate IsLead(c: nat) {
    129 <= c <= 159 || 224 <= c <= 239
  }

  /** The row and the column of jis0208 that a pair is looked up in; 127 is refused before. */
  function SjisPlace(c: nat, d: nat): (nat, nat)
    requires IsLead(c) && d != 127
  {
    var row := 2 * (if c <= 159 then c - 129 else c - 193);
    if 64 <= d <= 158 then (row, (if d > 127 then d - 1 else d) - 64)
    else if 159 <= d <= 252 then (row + 1, d - 159)
    else (row, d)
  }

  /** A pair is looked up inside the table of 84 rows and 94 columns if and only if its first byte is
      at most 0xEA and its second at most 0xFC. */
  lemma SjisInside(t: Tables, c: byte, d: byte, rest: seq<byte>)
    requires IsLead(c) && d != 127
    ensures var (row, col) := SjisPlace(c, d);
      && UnitSjis(t, [c, d] + rest) == Cell(t.jis(row, col), 2)
      && (row < 84 && col < 94 <==> c <= 0xea && d <= 0xfc)
  {
    var s := [c, d] + rest;
    assert s[0] == c && s[1] == d;
  }

  /** A second byte below 0x40 is used as a column as it is: a second code for a character that has
      another. */
  lemma SjisSecondCode(t: Tables, c: byte, d: byte)
    requires IsLead(c) && d < 0x40
    ensures UnitSjis(t, [c, d]) == UnitSjis(t, [c, if d < 0x3f then d + 0x40 else 0x80])
  {
    var e := if d < 0x3f then d + 0x40 else 0x80;
    SjisInside(t, c, d, []);
    SjisInside(t, c, e, []);
    Empty([c, d]);
    Empty([c, e]);
  }

  // --------------------------------------------------------- rows and cells

  function EucBytes(k: nat, m: nat): seq<byte>
    requires 1 <= k <= 84 && 1 <= m <= 94
  {
    [k + 0xa0, m + 0xa0]
  }

  function JisBytes(k: nat, m: nat): seq<byte>
    requires 1 <= k <= 84 && 1 <= m <= 94
  {
    [k + 0x20, m + 0x20]
  }

  /** The three encodings have the same character for a row and a cell. */
  lemma CellRead(t: Tables, k: nat, m: nat, state: nat, rest: seq<byte>)
    requires 1 <= k <= 84 && 1 <= m <= 94 && (state == 2 || state == 3)
    ensures UnitSjis(t, SjisBytes(k, m) + rest) == Cell(t.jis(k - 1, m - 1), 2)
    ensures UnitEucJp(t, EucBytes(k, m) + rest) == Cell(t.jis(k - 1, m - 1), 2)
    ensures UnitIso2022(t, state, JisBytes(k, m) + rest) == Cell(t.jis(k - 1, m - 1), 2)
  {
    var s := SjisBytes(k, m);
    SjisInside(t, s[0], s[1], rest);
    assert s == [s[0], s[1]];
    assert (s[0] - if k <= 62 then 0x81 else 0xc1) == (k - 1) / 2;
  }

  /** And write it so, where the search finds that cell. */
  lemma CellWritten(t: Tables, c: nat, k: nat, m: nat)
    requires 1 <= k <= 84 && 1 <= m <= 94 && c >= 128 && !Katakana(c) && t.toJis(c) == 256 * (k + 0x20) + (m + 0x20)
    ensures c != 0xa5 && c != 0x203e ==> Direct(t, SHIFT_JIS, c) == Some(SjisBytes(k, m))
    ensures Direct(t, EUC_JP, c) == Some(EucBytes(k, m))
    ensures c != 0xa5 && c != 0x203e ==> Direct(t, ISO2022_JP, c) == Some([27, 0x24, 0x42] + JisBytes(k, m) + [27, 0x28, 0x42])
  {
    RowAndCell(t.toJis(c), k + 0x20, m + 0x20);
    SjisPairIs(k, m);
    assert Escaped(0x24, 0x42, JisBytes(k, m)) == [27, 0x24, 0x42] + JisBytes(k, m) + [27, 0x28, 0x42];
  }

  lemma RowAndCell(j: nat, a: nat, b: nat)
    requires a < 128 && b < 128 && j == 256 * a + b
    ensures j / 256 == a && j % 256 == b && j / 256 % 256 == a && (j / 256 + 0x80) % 256 == a + 0x80 && (j % 256 + 0x80) % 256 == b + 0x80
  {
  }

  /** Half-width katakana i of JIS X 0201 in the three encodings. */
  lemma KatakanaIs(t: Tables, i: nat, rest: seq<byte>)
    requires i < 63
    ensures UnitSjis(t, [0xa1 + i] + rest) == Char(0xff61 + i, 1) && Direct(t, SHIFT_JIS, 0xff61 + i) == Some([0xa1 + i])
    ensures UnitEucJp(t, [0x8e, 0xa1 + i] + rest) == Char(0xff61 + i, 2) && Direct(t, EUC_JP, 0xff61 + i) == Some([0x8e, 0xa1 + i])
    ensures UnitIso2022(t, 4, [0x21 + i] + rest) == Char(0xff61 + i, 1)
    ensures Direct(t, ISO2022_JP, 0xff61 + i) == Some([27, 0x28, 0x49] + [0x21 + i] + [27, 0x28, 0x42])
  {
    var s := [0x8e, 0xa1 + i] + rest;
    assert s[0] == 0x8e && s[1] == 0xa1 + i;
  }

  /** The escape sequences of RFC 1468, and the one of katakana; others of 7-bit characters are illegal. */
  lemma EscapesAre(a: nat, b: nat)
    requires b < 128
    ensures Escape(a, b) ==
      if [a, b] == [0x28, 0x42] then Shift(0, 3) else if [a, b] == [0x28, 0x4a] then Shift(1, 3)
      else if [a, b] == [0x24, 0x40] then Shift(2, 3) else if [a, b] == [0x24, 0x42] then Shift(3, 3)
      else if [a, b] == [0x28, 0x49] then Shift(4, 3) else Illegal
  {
    assert [a, b][0] == a && [a, b][1] == b;
  }

  // --------------------------------------------------------- escape characters

  /** The byte of a character that is put out without escape sequences. */
  function IsoByte(c: nat): byte {
    if c < 128 then c else 42
  }

  predicate IsBare(t: Tables, c: nat) {
    c < 128 || EncodeIso2022(t, c).None?
  }

  lemma BareByte(t: Tables, src: nat, c: nat)
    requires Converts(t, src, ISO2022_JP, c)
    ensures IsBare(t, c) ==> Encode(t, src, ISO2022_JP, c) == [IsoByte(c)]
    ensures !IsBare(t, c) ==> Encode(t, src, ISO2022_JP, c)[0] == 27
  {
    if c >= 128 && EncodeIso2022(t, c).None? {
      StarOut(t, src, ISO2022_JP, c);
    }
  }

  /** A text that does not start with an escape byte starts with a character that is a byte of its
      own, and that is no escape character. */
  lemma HeadByte(t: Tables, src: nat, cs: seq<nat>, s: seq<byte>)
    requires AllConvert(t, src, ISO2022_JP, cs) && s == EncodeAll(t, src, ISO2022_JP, cs) && |s| > 0 && s[0] != 27
    ensures cs != [] && cs[0] != ESC && s[1..] == EncodeAll(t, src, ISO2022_JP, cs[1..])
  {
    EncodeFirst(t, src, ISO2022_JP, cs);
    BareByte(t, src, cs[0]);
  }

  /** What becomes of a byte other than ESC where a unit is one byte. */
  lemma OneByteUnit(t: Tables, st: nat, b: byte, rest: seq<byte>)
    requires b < 128 && b != 27 && st != 2 && st != 3
    ensures var text := Decoded(t, ISO2022_JP, st, [b] + rest);
      text.stop != Ended || exists x :: text == Then([x], Decoded(t, ISO2022_JP, st, rest))
  {
    var s := [b] + rest;
    assert s[1..] == rest && s[0] == b;
    match UnitIso2022(t, st, s)
    case Char(x, l) => assert Decoded(t, ISO2022_JP, st, s) == Then([x], Decoded(t, ISO2022_JP, st, rest));
    case _ =>
  }

  /** And where it is two: the next byte is no escape byte either. */
  lemma TwoByteUnit(t: Tables, st: nat, b: byte, rest: seq<byte>)
    requires b < 128 && b != 27 && (st == 2 || st == 3)
    ensures var text := Decoded(t, ISO2022_JP, st, [b] + rest);
      text.stop != Ended || (rest != [] && rest[0] != 27 && exists x :: text == Then([x], Decoded(t, ISO2022_JP, st, rest[1..])))
  {
    var s := [b] + rest;
    assert s[0] == b;
    if rest != [] {
      assert s[1] == rest[0] && s[2..] == rest[1..];
    }
    match UnitIso2022(t, st, s)
    case Char(x, l) => assert Decoded(t, ISO2022_JP, st, s) == Then([x], Decoded(t, ISO2022_JP, st, rest[1..]));
    case _ =>
  }

  /** An escape byte that is not the first of a sequence takes two more bytes with it. */
  lemma EscapeUnit(t: Tables, st: nat, rest: seq<byte>)
    ensures var text := Decoded(t, ISO2022_JP, st, [27] + rest);
      text.stop != Ended
      || (|rest| >= 2 && rest[0] != 27 && rest[1] != 27 && exists st' :: text == Decoded(t, ISO2022_JP, st', rest[2..]))
  {
    var s := [27] + rest;
    if |rest| >= 2 {
      assert s[1] == rest[0] && s[2] == rest[1] && s[3..] == rest[2..];
      match Escape(rest[0], rest[1])
      case Shift(st', l) => assert Decoded(t, ISO2022_JP, st, s) == Decoded(t, ISO2022_JP, st', rest[2..]);
      case _ =>
    }
  }

  /** A text that is read to its end has no more characters than were put out, and fewer if there
      was an escape character. */
  ghost predicate Shrinks(text: Text, cs: seq<nat>) {
    text.stop == Ended ==> |text.cs| <= |cs| && (ESC in cs ==> |text.cs| < |cs|)
  }

  lemma BareShrinks(t: Tables, src: nat, st: nat, cs: seq<nat>, rest: seq<byte>)
    requires AllConvert(t, src, ISO2022_JP, cs) && cs != [] && rest == EncodeAll(t, src, ISO2022_JP, cs[1..])
    requires IsBare(t, cs[0]) && cs[0] != ESC
    requires forall st' :: Shrinks(Decoded(t, ISO2022_JP, st', rest), cs[1..])
    requires |cs| > 1 ==> forall st' :: Shrinks(Decoded(t, ISO2022_JP, st', EncodeAll(t, src, ISO2022_JP, cs[2..])), cs[2..])
    ensures Shrinks(Decoded(t, ISO2022_JP, st, [IsoByte(cs[0])] + rest), cs)
  {
    var b := IsoByte(cs[0]);
    if st == 2 || st == 3 {
      TwoByteUnit(t, st, b, rest);
      if rest != [] && rest[0] != 27 {
        HeadByte(t, src, cs[1..], rest);
        assert cs[1..][1..] == cs[2..];
        assert Shrinks(Decoded(t, ISO2022_JP, st, rest[1..]), cs[2..]);
      }
    } else {
      OneByteUnit(t, st, b, rest);
      assert Shrinks(Decoded(t, ISO2022_JP, st, rest), cs[1..]);
    }
  }

  lemma EscapeShrinks(t: Tables, src: nat, st: nat, cs: seq<nat>, rest: seq<byte>)
    requires AllConvert(t, src, ISO2022_JP, cs) && cs != [] && rest == EncodeAll(t, src, ISO2022_JP, cs[1..]) && cs[0] == ESC
    requires |cs| > 2 ==> forall st' :: Shrinks(Decoded(t, ISO2022_JP, st', EncodeAll(t, src, ISO2022_JP, cs[3..])), cs[3..])
    ensures Shrinks(Decoded(t, ISO2022_JP, st, [27] + rest), cs)
  {
    EscapeUnit(t, st, rest);
    if |rest| >= 2 && rest[0] != 27 && rest[1] != 27 {
      HeadByte(t, src, cs[1..], rest);
      assert cs[1..][1..] == cs[2..];
      HeadByte(t, src, cs[2..], rest[1..]);
      assert cs[2..][1..] == cs[3..] && rest[1..][1..] == rest[2..];
    }
  }

  lemma {:induction false} IsoShrinks(t: Tables, src: nat, st: nat, cs: seq<nat>)
    requires JisSound(t) && AllConvert(t, src, ISO2022_JP, cs)
    ensures Shrinks(Decoded(t, ISO2022_JP, st, EncodeAll(t, src, ISO2022_JP, cs)), cs)
    decreases |cs|
  {
    if cs != [] {
      var rest := EncodeAll(t, src, ISO2022_JP, cs[1..]);
      EncodeFirst(t, src, ISO2022_JP, cs);
      BareByte(t, src, cs[0]);
      forall st'
        ensures Shrinks(Decoded(t, ISO2022_JP, st', rest), cs[1..])
      {
        IsoShrinks(t, src, st', cs[1..]);
      }
      if cs[0] == ESC {
        if |cs| > 2 {
          forall st'
            ensures Shrinks(Decoded(t, ISO2022_JP, st', EncodeAll(t, src, ISO2022_JP, cs[3..])), cs[3..])
          {
            IsoShrinks(t, src, st', cs[3..]);
          }
        }
        EscapeShrinks(t, src, st, cs, rest);
      } else if IsBare(t, cs[0]) {
        if |cs| > 1 {
          forall st'
            ensures Shrinks(Decoded(t, ISO2022_JP, st', EncodeAll(t, src, ISO2022_JP, cs[2..])), cs[2..])
          {
            IsoShrinks(t, src, st', cs[2..]);
          }
        }
        BareShrinks(t, src, st, cs, rest);
      } else {
        EscapedUnit(t, st, cs[0], rest);
        assert Shrinks(Decoded(t, ISO2022_JP, 0, rest), cs[1..]);
      }
    }
  }

  /** A text with an escape character is lost, wherever it stands. */
  lemma EscapeIsLost(t: Tables, src: nat, cs: seq<nat>)
    requires JisSound(t) && AllConvert(t, src, ISO2022_JP, cs) && ESC in cs
    ensures var text := Decoded(t, ISO2022_JP, 0, EncodeAll(t, src, ISO2022_JP, cs));
      text.stop == Ended ==> |text.cs| < |cs|
  {
    IsoShrinks(t, src, 0, cs);
  }

  // ------------------------------------------------------------------ round trip

  /** The characters that a Japanese encoding gives back: those of the table, ASCII and half-width
      katakana; yen sign and overline only from ISO-2022-JP, or where the table has them, from
      EUC-JP; the escape character not from ISO-2022-JP. */
  ghost predicate Kept(table: Jis.Table, to: nat, c: nat) {
    if c < 128 || Katakana(c) then to == ISO2022_JP ==> c != ESC
    else if c == 0xa5 || c == 0x203e then to == ISO2022_JP || (to == EUC_JP && Jis.Has(table, c))
    else Jis.Has(table, c)
  }

  lemma KeptIs(t: Tables, table: Jis.Table, src: nat, to: nat, c: nat)
    requires SearchesIn(t, table) && IsJapanese(to)
    ensures Kept(table, to, c) <==> BackFrom(t, to, c) == c && (to == ISO2022_JP ==> c != ESC)
    ensures Kept(table, to, c) ==> Converts(t, src, to, c)
  {
    SearchIsSound(t, table);
    assert c != 0 ==> (t.toJis(c) != 0 <==> Jis.Has(table, c));
  }

  /** A text that can be put out in Shift_JIS, EUC-JP or ISO-2022-JP comes back if and only if each
      of its characters is one of those; and a text of such characters can be put out, from every
      source. */
  lemma RoundTripJapanese(t: Tables, table: Jis.Table, src: nat, to: nat, cs: seq<nat>)
    requires SearchesIn(t, table) && IsJapanese(to)
    ensures (forall c :: c in cs ==> Kept(table, to, c)) ==> AllConvert(t, src, to, cs)
    ensures AllConvert(t, src, to, cs) ==>
      (Decoded(t, to, 0, EncodeAll(t, src, to, cs)) == Text(cs, Ended) <==> forall c :: c in cs ==> Kept(table, to, c))
  {
    SearchIsSound(t, table);
    forall c: nat
      ensures Kept(table, to, c) <==> BackFrom(t, to, c) == c && (to == ISO2022_JP ==> c != ESC)
      ensures Kept(table, to, c) ==> Converts(t, src, to, c)
    {
      KeptIs(t, table, src, to, c);
    }
    if AllConvert(t, src, to, cs) {
      if to == ISO2022_JP && ESC in cs {
        EscapeIsLost(t, src, cs);
      } else {
        BackJapanese(t, src, to, cs);
        EachSame((c: nat) => BackFrom(t, to, c), cs);
      }
    }
  }

  /** How many characters of a text the encoding does not give back. */
  ghost function NotKept(table: Jis.Table, to: nat, cs: seq<nat>): nat {
    if cs == [] then 0 else NotKept(table, to, cs[..|cs| - 1]) + if Kept(table, to, cs[|cs| - 1]) then 0 else 1
  }

  /** iconv counts the characters that do not come back, so that the count is zero if and only if the
      text comes back; but escape characters in ISO-2022-JP are lost uncounted. */
  lemma CountTells(t: Tables, table: Jis.Table, src: nat, to: nat, cs: seq<nat>)
    requires SearchesIn(t, table) && IsJapanese(to) && AllConvert(t, src, to, cs) && (to == ISO2022_JP ==> ESC !in cs)
    ensures LostIn(t, src, to, cs) == NotKept(table, to, cs)
    ensures LostIn(t, src, to, cs) == 0 <==> Decoded(t, to, 0, EncodeAll(t, src, to, cs)) == Text(cs, Ended)
  {
    forall c | c in cs
      ensures Lost(t, src, to, c) == 0 <==> Kept(table, to, c)
    {
      CountIs(t, table, src, to, c);
    }
    NoneLost(t, src, to, cs);
    RoundTripJapanese(t, table, src, to, cs);
    CountAll(t, table, src, to, cs);
  }

  lemma {:induction false} CountAll(t: Tables, table: Jis.Table, src: nat, to: nat, cs: seq<nat>)
    requires SearchesIn(t, table) && IsJapanese(to) && AllConvert(t, src, to, cs) && (to == ISO2022_JP ==> ESC !in cs)
    ensures LostIn(t, src, to, cs) == NotKept(table, to, cs)
    decreases |cs|
  {
    if cs != [] {
      CountAll(t, table, src, to, cs[..|cs| - 1]);
      assert cs[|cs| - 1] in cs;
      CountIs(t, table, src, to, cs[|cs| - 1]);
    }
  }

  lemma CountIs(t: Tables, table: Jis.Table, src: nat, to: nat, c: nat)
    requires SearchesIn(t, table) && IsJapanese(to) && (to == ISO2022_JP ==> c != ESC) && Converts(t, src, to, c)
    ensures Lost(t, src, to, c) == if Kept(table, to, c) then 0 else 1
  {
    SearchIsSound(t, table);
    assert c != 0 ==> (t.toJis(c) != 0 <==> Jis.Has(table, c));
  }
}
