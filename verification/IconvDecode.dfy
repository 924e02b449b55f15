/** The decoding half of iconv (library/iconv/iconv.c): one unit of input at a time.

    The character tables are parameters.  UTF-8 and Big5, which rest on mbrtowc, wctomb and
    hard-wired pairs, are not part of this model. */
module IconvDecode {
  import opened Common
  import opened Legacy

  // Type codes of the character maps (library/iconv/iconv_priv.h).
  const UTF_32BE: nat := 192
  const UTF_16LE: nat := 193
  const UTF_16BE: nat := 194
  const UTF_32LE: nat := 195
  const UCS2BE: nat := 196
  const UCS2LE: nat := 197
  const WCHAR_T: nat := 198
  const US_ASCII: nat := 199
  const UTF_8: nat := 200
  const UTF_16: nat := 202
  const UTF_32: nat := 203
  const UCS2: nat := 204
  const EUC_JP: nat := 208
  const SHIFT_JIS: nat := 209
  const ISO2022_JP: nat := 210
  const GB18030: nat := 216
  const GBK: nat := 217
  const GB2312: nat := 218
  const BIG5: nat := 224
  const EUC_KR: nat := 232

  /** fromMap and toMap are the memory behind the type codes of the source and the target page and
      chars the characters above U+00FF.  jis, gb and ksc look up a cell, whatever lies there for an
      index out of range; gbRank and kscRank are the gap-filling loops; toJis is uni_to_jis. */
  datatype Tables = Tables(
    chars: nat -> nat, fromMap: nat -> bv8, toMap: nat -> bv8, jis: (nat, nat) -> nat, toJis: nat -> nat,
    gb: (nat, nat) -> nat, gbRank: nat -> nat, ksc: (nat, nat) -> nat, kscRank: nat -> nat)

  /** What the decoding switch makes of the input: too little of it, an illegal sequence, a unit
      that only changes the state, or a character; the last two with their length. */
  datatype Unit = Starved | Illegal | Shift(state: nat, l: nat) | Char(c: nat, l: nat)

  // ------------------------------------------------------------------ code units

  function At(s: seq<byte>, i: nat): (b: nat)
    requires i < |s|
    ensures b < 256
  {
    s[i]
  }

  /** get_16 and get_32: the lowest bits of the type code give the byte order. */
  function Get16(s: seq<byte>, i: nat, little: bool): (c: nat)
    requires i + 2 <= |s|
    ensures c < 0x10000
  {
    if little then 256 * At(s, i + 1) + At(s, i) else 256 * At(s, i) + At(s, i + 1)
  }

  function Get32(s: seq<byte>, little: bool): (c: nat)
    requires 4 <= |s|
  {
    if little then 0x1000000 * At(s, 3) + 0x10000 * At(s, 2) + 0x100 * At(s, 1) + At(s, 0)
    else 0x1000000 * At(s, 0) + 0x10000 * At(s, 1) + 0x100 * At(s, 2) + At(s, 3)
  }

  predicate Scalar(c: nat) {
    c < 0xd800 || 0xe000 <= c < 0x110000
  }

  function Unit32(s: seq<byte>, little: bool): Unit {
    if |s| < 4 then Starved
    else var c := Get32(s, little); if Scalar(c) then Char(c, 4) else Illegal
  }

  /** The 16-bit units.  The test that should let UTF-16 go on to the second half of a pair
      compares signed numbers and never does (see IconvRoundTrip). */
  function Unit16(s: seq<byte>, little: bool, type': int): Unit {
    if |s| < 2 then Starved
    else
      var c := Get16(s, 0, little);
      if 0xdc00 <= c < 0xe000 then Illegal
      else if 0xd800 <= c < 0xdc00 then
        if type' - UCS2BE < 2 then Illegal
        else if |s| < 4 then Starved
        else
          var d := Get16(s, 2, little);
          if 0xdc00 <= d < 0xe000 then Char((c - 0xd7c0) * 1024 + (d - 0xdc00), 4) else Illegal
      else Char(c, 2)
  }

  /** The byte order mark, which selects the type that is used from then on. */
  function Mark16(s: seq<byte>, big: nat, small: nat): Unit {
    if |s| < 2 then Starved
    else
      var c := Get16(s, 0, false);
      Shift(if c == 0xfffe then small else big, if c == 0xfffe || c == 0xfeff then 2 else 0)
  }

  function Mark32(s: seq<byte>): Unit {
    if |s| < 4 then Starved
    else
      var c := Get32(s, false);
      Shift(if c == 0xfffe0000 then UTF_32LE else UTF_32BE, if c == 0xfffe0000 || c == 0xfeff then 4 else 0)
  }

  // -------------------------------------------------------------------- Japanese

  function Cell(c: nat, l: nat): Unit {
    if c == 0 then Illegal else Char(c, l)
  }

  /** A trail byte that is in neither range is used as an index as it is. */
  function SjisCell(t: Tables, lead: nat, d: nat): Unit {
    var row := 2 * lead;
    if 64 <= d <= 158 then
      if d == 127 then Illegal else Cell(t.jis(row, (if d > 127 then d - 1 else d) - 64), 2)
    else if 159 <= d <= 252 then Cell(t.jis(row + 1, d - 159), 2)
    else Cell(t.jis(row, d), 2)
  }

  function UnitSjis(t: Tables, s: seq<byte>): Unit
    requires |s| > 0
  {
    var c := At(s, 0);
    if c < 128 then Char(c, 1)
    else if 0xa1 <= c <= 0xdf then Char(c + (0xff61 - 0xa1), 1)
    else if |s| < 2 then Starved
    else if 129 <= c <= 159 then SjisCell(t, c - 129, At(s, 1))
    else if 224 <= c <= 239 then SjisCell(t, c - 193, At(s, 1))
    else Illegal
  }

  /** A cell by row and column bytes with the given offset. */
  function Grid(t: Tables, c: nat, d: nat, offset: nat): Unit {
    if offset <= c < offset + 84 && offset <= d < offset + 94 then Cell(t.jis(c - offset, d - offset), 2) else Illegal
  }

  function UnitEucJp(t: Tables, s: seq<byte>): Unit
    requires |s| > 0
  {
    var c := At(s, 0);
    if c < 128 then Char(c, 1)
    else if |s| < 2 then Starved
    else if c == 0x8e then
      if 0xa1 <= At(s, 1) <= 0xdf then Char(At(s, 1) + (0xff61 - 0xa1), 2) else Illegal
    else Grid(t, c, At(s, 1), 0xa1)
  }

  const ESC: nat := 27

  /** The two characters after ESC.  They are told apart by one sum, so that 0xC0 and 0xC2 after an
      opening parenthesis count as well. */
  function Escape(a: nat, b: nat): Unit {
    var x := (if a == 0x24 then 128 else 0) + b;
    if a != 0x28 && a != 0x24 then Illegal
    else if x == 0x42 then Shift(0, 3)
    else if x == 0x4a then Shift(1, 3)
    else if x == 0x49 then Shift(4, 3)
    else if x == 128 + 0x40 then Shift(2, 3)
    else if x == 128 + 0x42 then Shift(3, 3)
    else Illegal
  }

  function UnitIso2022(t: Tables, state: nat, s: seq<byte>): Unit
    requires |s| > 0
  {
    var c := At(s, 0);
    if c >= 128 then Illegal
    else if c == ESC then
      if |s| < 3 then Starved else Escape(At(s, 1), At(s, 2))
    else if state == 1 then Char(if c == 0x5c then 0xa5 else if c == 0x7e then 0x203e else c, 1)
    else if state == 2 || state == 3 then
      if |s| < 2 then Starved else Grid(t, c, At(s, 1), 0x21)
    else if state == 4 then
      if 0x60 <= c < 0x7f then Illegal else Char(if 0x21 <= c < 0x7f then c + (0xff61 - 0x21) else c, 1)
    else Char(c, 1)
  }

  // ----------------------------------------------------------- Chinese and Korean

  function UnitGb(t: Tables, type': nat, s: seq<byte>): Unit
    requires |s| > 0
  {
    var c := At(s, 0);
    if c < 128 then Char(c, 1)
    else if type' == GB2312 && c < 0xa1 then Illegal
    else if !(0x81 <= c < 0x81 + 126) then Illegal
    else if |s| < 2 then Starved
    else
      var d := At(s, 1);
      if type' == GB2312 && d < 0xa1 then Illegal
      else if 0x40 <= d < 0x40 + 191 && d != 127 then
        Char(t.gb(c - 0x81, if d - 0x40 > 63 then d - 0x41 else d - 0x40), 2)
      else if !(0x30 <= d <= 0x39) || type' != GB18030 then Illegal
      else if |s| < 4 then Starved
      else if !(0x81 <= At(s, 2) <= 0x81 + 126) || !(0x30 <= At(s, 3) <= 0x39) then Illegal
      else Char(t.gbRank((10 * (c - 0x81) + (d - 0x30)) * 1260 + 10 * (At(s, 2) - 0x81) + (At(s, 3) - 0x30) + 128), 4)
  }

  /** The column of a trail byte outside the KS X 1001 square. */
  function KrColumn(d: nat): int {
    if 0x41 <= d < 0x41 + 26 then d - 0x41
    else if 0x61 <= d < 0x61 + 26 then d - 0x61 + 26
    else if 0x81 <= d < 0xff then d - 0x81 + 52
    else -1
  }

  function UnitKr(t: Tables, s: seq<byte>): Unit
    requires |s| > 0
  {
    var c := At(s, 0);
    if c < 128 then Char(c, 1)
    else if |s| < 2 then Starved
    else
      var d := At(s, 1);
      if 0xa1 <= c < 0xa1 + 93 && 0xa1 <= d < 0xa1 + 94 then Cell(t.ksc(c - 0xa1, d - 0xa1), 2)
      else if !(0x81 <= c < 0x81 + 93) || (c >= 0xc6 && d > 0x52) || KrColumn(d) < 0 then Illegal
      else
        var r, k := c - 0x81, KrColumn(d);
        Char(t.kscRank((if r < 0x20 then 178 * r + k else 178 * 0x20 + 84 * (r - 0x20) + k) + 0xac00), 2)
  }

  // -------------------------------------------------------------------- all types

  predicate IsMarked(type': nat) {
    type' == UCS2 || type' == UTF_16 || type' == UTF_32
  }

  /** The type that a source with a byte order mark is read as once it is known. */
  function Effective(type': nat, state: nat): nat {
    if IsMarked(type') && state != 0 then state else type'
  }

  function Decode(t: Tables, type': nat, state: nat, s: seq<byte>): Unit
    requires |s| > 0
  {
    if type' == US_ASCII then (if At(s, 0) >= 128 then Illegal else Char(At(s, 0), 1))
    else if type' == WCHAR_T || type' == UTF_32BE then Unit32(s, false)
    else if type' == UTF_32LE then Unit32(s, true)
    else if type' == UCS2BE || type' == UTF_16BE then Unit16(s, false, type')
    else if type' == UCS2LE || type' == UTF_16LE then Unit16(s, true, type')
    else if type' == UCS2 then Mark16(s, UCS2BE, UCS2LE)
    else if type' == UTF_16 then Mark16(s, UTF_16BE, UTF_16LE)
    else if type' == UTF_32 then Mark32(s)
    else if type' == SHIFT_JIS then UnitSjis(t, s)
    else if type' == EUC_JP then UnitEucJp(t, s)
    else if type' == ISO2022_JP then UnitIso2022(t, state, s)
    else if type' == GB18030 || type' == GBK || type' == GB2312 then UnitGb(t, type', s)
    else if type' == EUC_KR then UnitKr(t, s)
    else if At(s, 0) == 0 then Char(0, 1)
    else Cell(LegacyMap(t.chars, t.fromMap, type', At(s, 0)), 1)
  }

  /** The state of a descriptor: a resolved type where there is a byte order mark, else a shift
      state. */
  predicate ValidState(from: nat, state: nat) {
    && (from == UCS2 ==> state == 0 || state == UCS2BE || state == UCS2LE)
    && (from == UTF_16 ==> state == 0 || state == UTF_16BE || state == UTF_16LE)
    && (from == UTF_32 ==> state == 0 || state == UTF_32BE || state == UTF_32LE)
  }

  /** A unit lies within the input; only looking for a mark may take nothing, and it cannot do so
      twice. */
  lemma DecodeFits(t: Tables, from: nat, state: nat, s: seq<byte>)
    requires |s| > 0 && ValidState(from, state)
    ensures var u := Decode(t, Effective(from, state), state, s);
      && (u.Char? ==> 0 < u.l <= |s|)
      && (u.Shift? ==> u.l <= |s| && ValidState(from, u.state))
      && (u.Shift? && IsMarked(from) ==> state == 0 && u.state != 0)
      && (u.Shift? && !IsMarked(from) ==> u.l > 0)
  {
  }

  // More input does not change a unit that was complete.

  lemma Unit32Stable(little: bool, s: seq<byte>, more: seq<byte>)
    requires !Unit32(s, little).Starved?
    ensures Unit32(s + more, little) == Unit32(s, little)
  {
  }

  lemma Unit16Stable(little: bool, type': int, s: seq<byte>, more: seq<byte>)
    requires !Unit16(s, little, type').Starved?
    ensures Unit16(s + more, little, type') == Unit16(s, little, type')
  {
  }

  lemma Mark16Stable(big: nat, small: nat, s: seq<byte>, more: seq<byte>)
    requires !Mark16(s, big, small).Starved?
    ensures Mark16(s + more, big, small) == Mark16(s, big, small)
  {
  }

  lemma Mark32Stable(s: seq<byte>, more: seq<byte>)
    requires !Mark32(s).Starved?
    ensures Mark32(s + more) == Mark32(s)
  {
  }

  lemma UnitSjisStable(t: Tables, s: seq<byte>, more: seq<byte>)
    requires |s| > 0 && !UnitSjis(t, s).Starved?
    ensures UnitSjis(t, s + more) == UnitSjis(t, s)
  {
  }

  lemma UnitEucJpStable(t: Tables, s: seq<byte>, more: seq<byte>)
    requires |s| > 0 && !UnitEucJp(t, s).Starved?
    ensures UnitEucJp(t, s + more) == UnitEucJp(t, s)
  {
  }

  lemma UnitIso2022Stable(t: Tables, state: nat, s: seq<byte>, more: seq<byte>)
    requires |s| > 0 && !UnitIso2022(t, state, s).Starved?
    ensures UnitIso2022(t, state, s + more) == UnitIso2022(t, state, s)
  {
  }

  lemma UnitGbStable(t: Tables, type': nat, s: seq<byte>, more: seq<byte>)
    requires |s| > 0 && !UnitGb(t, type', s).Starved?
    ensures UnitGb(t, type', s + more) == UnitGb(t, type', s)
  {
  }

  lemma UnitKrStable(t: Tables, s: seq<byte>, more: seq<byte>)
    requires |s| > 0 && !UnitKr(t, s).Starved?
    ensures UnitKr(t, s + more) == UnitKr(t, s)
  {
  }

  lemma DecodeStable(t: Tables, type': nat, state: nat, s: seq<byte>, more: seq<byte>)
    requires |s| > 0 && !Decode(t, type', state, s).Starved?
    ensures Decode(t, type', state, s + more) == Decode(t, type', state, s)
  {
    if type' == WCHAR_T || type' == UTF_32BE {
      Unit32Stable(false, s, more);
    } else if type' == UTF_32LE {
      Unit32Stable(true, s, more);
    } else if type' == UCS2BE || type' == UTF_16BE {
      Unit16Stable(false, type', s, more);
    } else if type' == UCS2LE || type' == UTF_16LE {
      Unit16Stable(true, type', s, more);
    } else if type' == UCS2 {
      Mark16Stable(UCS2BE, UCS2LE, s, more);
    } else if type' == UTF_16 {
      Mark16Stable(UTF_16BE, UTF_16LE, s, more);
    } else if type' == UTF_32 {
      Mark32Stable(s, more);
    } else if type' == SHIFT_JIS {
      UnitSjisStable(t, s, more);
    } else if type' == EUC_JP {
      UnitEucJpStable(t, s, more);
    } else if type' == ISO2022_JP {
      UnitIso2022Stable(t, state, s, more);
    } else if type' == GB18030 || type' == GBK || type' == GB2312 {
      UnitGbStable(t, type', s, more);
    } else if type' == EUC_KR {
      UnitKrStable(t, s, more);
    }
  }
}
