/** Which texts come back when they are encoded and decoded again (library/iconv/iconv.c). */
module IconvRoundTrip {
  import opened Common
  import opened Legacy
  import opened IconvDecode
  import opened IconvRun

  // ----------------------------------------------------------------- one by one

  /** The encoding of c, whatever follows, is decoded as d, and decoding goes on after it. */
  ghost predicate Back(t: Tables, src: nat, from: nat, st: nat, to: nat, c: nat, d: nat) {
    ValidState(from, st)
    && forall rest :: Decoded(t, from, st, Encode(t, src, to, c) + rest) == Then([d], Decoded(t, from, st, rest))
  }

  lemma BackAt(t: Tables, src: nat, from: nat, st: nat, to: nat, c: nat, d: nat, rest: seq<byte>)
    requires ValidState(from, st)
    requires Decode(t, Effective(from, st), st, Encode(t, src, to, c) + rest) == Char(d, |Encode(t, src, to, c)|)
    ensures Decoded(t, from, st, Encode(t, src, to, c) + rest) == Then([d], Decoded(t, from, st, rest))
  {
    var e := Encode(t, src, to, c);
    assert (e + rest)[|e|..] == rest;
  }

  function Each(f: nat -> nat, cs: seq<nat>): (ds: seq<nat>)
    ensures |ds| == |cs| && forall i :: 0 <= i < |cs| ==> ds[i] == f(cs[i])
  {
    seq(|cs|, i requires 0 <= i < |cs| => f(cs[i]))
  }

  /** One more character at the end. */
  lemma BackLast(t: Tables, src: nat, from: nat, st: nat, to: nat, f: nat -> nat, front: seq<nat>, c: nat, rest: seq<byte>)
    requires ValidState(from, st) && Back(t, src, from, st, to, c, f(c))
    requires var e := Encode(t, src, to, c);
      Decoded(t, from, st, EncodeAll(t, src, to, front) + (e + rest)) == Then(Each(f, front), Decoded(t, from, st, e + rest))
    ensures Decoded(t, from, st, EncodeAll(t, src, to, front + [c]) + rest) == Then(Each(f, front + [c]), Decoded(t, from, st, rest))
  {
    EncodeMore(t, src, to, front, c);
    Associate(EncodeAll(t, src, to, front), Encode(t, src, to, c), rest);
    ThenThen(Each(f, front), [f(c)], Decoded(t, from, st, rest));
    assert Each(f, front + [c]) == Each(f, front) + [f(c)];
  }

  /** A whole text is decoded character by character. */
  lemma {:induction false} AllBack(t: Tables, src: nat, from: nat, st: nat, to: nat, f: nat -> nat, cs: seq<nat>, rest: seq<byte>)
    requires ValidState(from, st) && forall c :: c in cs ==> Back(t, src, from, st, to, c, f(c))
    ensures Decoded(t, from, st, EncodeAll(t, src, to, cs) + rest) == Then(Each(f, cs), Decoded(t, from, st, rest))
    decreases |cs|
  {
    if cs == [] {
      Empty(rest);
      ThenNothing(Decoded(t, from, st, rest));
    } else {
      var front, c := cs[..|cs| - 1], cs[|cs| - 1];
      assert cs == front + [c];
      AllBack(t, src, from, st, to, f, front, Encode(t, src, to, c) + rest);
      BackLast(t, src, from, st, to, f, front, c, rest);
    }
  }

  // --------------------------------------------------------------- UTF-32 and 16

  lemma FourBytes(c: nat)
    requires c < 0x1_0000_0000
    ensures c == 0x1000000 * (c / 0x1000000 % 256) + 0x10000 * (c / 0x10000 % 256) + 0x100 * (c / 0x100 % 256) + c % 256
  {
    assert c / 0x100 == 0x100 * (c / 0x10000) + c / 0x100 % 256;
    assert c / 0x10000 == 0x100 * (c / 0x1000000) + c / 0x10000 % 256;
  }

  lemma Get32Put32(c: nat, little: bool, rest: seq<byte>)
    requires c < 0x110000
    ensures Get32(Put32(c, little) + rest, little) == c
  {
    FourBytes(c);
  }

  lemma Back32(t: Tables, src: nat, from: nat, st: nat, to: nat, c: nat)
    requires ValidState(from, st) && Effective(from, st) == to && (to == UTF_32BE || to == UTF_32LE) && Scalar(c)
    ensures Back(t, src, from, st, to, c, c)
  {
    forall rest
      ensures Decoded(t, from, st, Encode(t, src, to, c) + rest) == Then([c], Decoded(t, from, st, rest))
    {
      Get32Put32(c, to == UTF_32LE, rest);
      BackAt(t, src, from, st, to, c, c, rest);
    }
  }

  lemma Get16Put16(c: nat, little: bool, rest: seq<byte>)
    requires c < 0x10000
    ensures Get16(Put16(c, little) + rest, 0, little) == c
  {
  }

  /** What the 16-bit types make of a character. */
  function Narrow(c: nat): nat {
    if c < 0x10000 then c else 0xfffd
  }

  predicate IsType16(to: nat) {
    to == UTF_16BE || to == UTF_16LE || to == UCS2BE || to == UCS2LE
  }

  lemma Back16(t: Tables, src: nat, from: nat, st: nat, to: nat, c: nat)
    requires ValidState(from, st) && Effective(from, st) == to && IsType16(to) && Scalar(c)
    ensures Back(t, src, from, st, to, c, Narrow(c))
  {
    forall rest
      ensures Decoded(t, from, st, Encode(t, src, to, c) + rest) == Then([Narrow(c)], Decoded(t, from, st, rest))
    {
      Get16Put16(Narrow(c), to == UTF_16LE || to == UCS2LE, rest);
      BackAt(t, src, from, st, to, c, Narrow(c), rest);
    }
  }

  ghost predicate AllScalar(cs: seq<nat>) {
    forall c :: c in cs ==> Scalar(c)
  }

  /** The byte order mark in front of a text of the given type. */
  function MarkOf(to: nat): seq<byte> {
    if to == UTF_32BE then [0, 0, 0xfe, 0xff]
    else if to == UTF_32LE then [0xff, 0xfe, 0, 0]
    else if to == UTF_16BE || to == UCS2BE then [0xfe, 0xff]
    else [0xff, 0xfe]
  }

  lemma Decoded32(t: Tables, src: nat, from: nat, st: nat, to: nat, cs: seq<nat>)
    requires ValidState(from, st) && Effective(from, st) == to && (to == UTF_32BE || to == UTF_32LE) && AllScalar(cs)
    ensures Decoded(t, from, st, EncodeAll(t, src, to, cs)) == Text(cs, Ended)
  {
    forall c | c in cs
      ensures Back(t, src, from, st, to, c, Same(c))
    {
      Back32(t, src, from, st, to, c);
    }
    AllBack(t, src, from, st, to, Same, cs, []);
    Empty(EncodeAll(t, src, to, cs));
    assert Each(Same, cs) == cs;
    Empty(cs);
  }

  function Same(c: nat): nat {
    c
  }

  lemma Decoded16(t: Tables, src: nat, from: nat, st: nat, to: nat, cs: seq<nat>)
    requires ValidState(from, st) && Effective(from, st) == to && IsType16(to) && AllScalar(cs)
    ensures Decoded(t, from, st, EncodeAll(t, src, to, cs)) == Text(Each(Narrow, cs), Ended)
  {
    forall c | c in cs
      ensures Back(t, src, from, st, to, c, Narrow(c))
    {
      Back16(t, src, from, st, to, c);
    }
    AllBack(t, src, from, st, to, Narrow, cs, []);
    Empty(EncodeAll(t, src, to, cs));
    Empty(Each(Narrow, cs));
  }

  lemma AfterMark(t: Tables, from: nat, to: nat, s: seq<byte>)
    requires (from == UTF_32 && (to == UTF_32BE || to == UTF_32LE))
          || (from == UTF_16 && (to == UTF_16BE || to == UTF_16LE))
          || (from == UCS2 && (to == UCS2BE || to == UCS2LE))
    ensures Decoded(t, from, 0, MarkOf(to) + s) == Decoded(t, from, to, s)
  {
    var m := MarkOf(to);
    assert (m + s)[|m|..] == s;
    assert m == if to == UTF_32BE then [0, 0, 0xfe, 0xff] else if to == UTF_32LE then [0xff, 0xfe, 0, 0]
                else if to == UTF_16BE || to == UCS2BE then [0xfe, 0xff] else [0xff, 0xfe];
  }

  /** UTF-32 texts come back, with and without a byte order mark. */
  lemma RoundTrip32(t: Tables, src: nat, to: nat, cs: seq<nat>)
    requires (to == UTF_32BE || to == UTF_32LE) && AllScalar(cs)
    ensures Decoded(t, to, 0, EncodeAll(t, src, to, cs)) == Text(cs, Ended)
    ensures Decoded(t, UTF_32, 0, MarkOf(to) + EncodeAll(t, src, to, cs)) == Text(cs, Ended)
  {
    Decoded32(t, src, to, 0, to, cs);
    AfterMark(t, UTF_32, to, EncodeAll(t, src, to, cs));
    Decoded32(t, src, UTF_32, to, to, cs);
  }

  lemma BackWchar(t: Tables, src: nat, c: nat)
    requires Scalar(c)
    ensures Back(t, src, WCHAR_T, 0, WCHAR_T, c, Same(c))
  {
    forall rest
      ensures Decoded(t, WCHAR_T, 0, Encode(t, src, WCHAR_T, c) + rest) == Then([c], Decoded(t, WCHAR_T, 0, rest))
    {
      Get32Put32(c, false, rest);
      BackAt(t, src, WCHAR_T, 0, WCHAR_T, c, c, rest);
    }
  }

  /** So do texts of wide characters. */
  lemma RoundTripWchar(t: Tables, src: nat, cs: seq<nat>)
    requires AllScalar(cs)
    ensures Decoded(t, WCHAR_T, 0, EncodeAll(t, src, WCHAR_T, cs)) == Text(cs, Ended)
  {
    forall c | c in cs
      ensures Back(t, src, WCHAR_T, 0, WCHAR_T, c, Same(c))
    {
      BackWchar(t, src, c);
    }
    AllBack(t, src, WCHAR_T, 0, WCHAR_T, Same, cs, []);
    Empty(EncodeAll(t, src, WCHAR_T, cs));
    assert Each(Same, cs) == cs;
    Empty(cs);
  }

  lemma EachSame(f: nat -> nat, cs: seq<nat>)
    ensures Each(f, cs) == cs <==> forall c :: c in cs ==> f(c) == c
  {
    if forall c :: c in cs ==> f(c) == c {
      assert forall i :: 0 <= i < |cs| ==> cs[i] in cs;
    } else {
      var i :| 0 <= i < |cs| && f(cs[i]) != cs[i];
      assert Each(f, cs)[i] != cs[i];
    }
  }

  /** UTF-16 texts come back if and only if they have no supplementary characters: the others
      are replaced. */
  lemma RoundTrip16(t: Tables, src: nat, to: nat, cs: seq<nat>)
    requires (to == UTF_16BE || to == UTF_16LE) && AllScalar(cs)
    ensures Decoded(t, to, 0, EncodeAll(t, src, to, cs)) == Text(cs, Ended) <==> forall c :: c in cs ==> c < 0x10000
    ensures Decoded(t, UTF_16, 0, MarkOf(to) + EncodeAll(t, src, to, cs)) == Text(cs, Ended)
            <==> forall c :: c in cs ==> c < 0x10000
  {
    Decoded16(t, src, to, 0, to, cs);
    AfterMark(t, UTF_16, to, EncodeAll(t, src, to, cs));
    Decoded16(t, src, UTF_16, to, to, cs);
    EachSame(Narrow, cs);
  }

  /** A character that does not survive the round trip through UTF-16, and is not counted as lost. */
  lemma SupplementaryIsLost(t: Tables, src: nat)
    ensures LostIn(t, src, UTF_16BE, [0x10000]) == 0
    ensures Decoded(t, UTF_16BE, 0, EncodeAll(t, src, UTF_16BE, [0x10000])) == Text([0xfffd], Ended)
  {
    Decoded16(t, src, UTF_16BE, 0, UTF_16BE, [0x10000]);
  }

  lemma BackPlain(t: Tables, src: nat, c: nat)
    requires Scalar(c) && c < 0x10000
    ensures Back(t, src, UTF_16, UTF_16BE, UTF_16, c, Same(c))
  {
    Back16(t, src, UTF_16, UTF_16BE, UTF_16BE, c);
    assert Encode(t, src, UTF_16, c) == Encode(t, src, UTF_16BE, c);
  }

  /** The pairs that the target UTF_16 does write are refused when they are read. */
  lemma PairRefused(t: Tables, src: nat, c: nat, rest: seq<byte>)
    requires 0x10000 <= c < 0x110000
    ensures Decoded(t, UTF_16, UTF_16BE, Encode(t, src, UTF_16, c) + rest) == Text([], IllegalStop)
  {
    var h, low := (c - 0x10000) / 1024 + 0xd800, Put16((c - 0x10000) % 1024 + 0xdc00, false);
    Associate(Put16(h, false), low, rest);
    Get16Put16(h, false, low + rest);
  }

  lemma PlainPrefix(t: Tables, src: nat, cs: seq<nat>, rest: seq<byte>)
    requires AllScalar(cs) && forall c :: c in cs ==> c < 0x10000
    ensures Decoded(t, UTF_16, UTF_16BE, EncodeAll(t, src, UTF_16, cs) + rest) == Then(cs, Decoded(t, UTF_16, UTF_16BE, rest))
  {
    forall c | c in cs
      ensures Back(t, src, UTF_16, UTF_16BE, UTF_16, c, Same(c))
    {
      BackPlain(t, src, c);
    }
    AllBack(t, src, UTF_16, UTF_16BE, UTF_16, Same, cs, rest);
    assert Each(Same, cs) == cs;
  }

  lemma EncodedAt(t: Tables, src: nat, to: nat, cs: seq<nat>, k: nat)
    requires k < |cs|
    ensures EncodeAll(t, src, to, cs) == EncodeAll(t, src, to, cs[..k]) + (Encode(t, src, to, cs[k]) + EncodeAll(t, src, to, cs[k + 1..]))
  {
    var tail := [cs[k]] + cs[k + 1..];
    assert cs == cs[..k] + tail;
    EncodeBoth(t, src, to, cs[..k], tail);
    EncodeBoth(t, src, to, [cs[k]], cs[k + 1..]);
    EncodeMore(t, src, to, [], cs[k]);
    Empty([cs[k]]);
    Empty(Encode(t, src, to, cs[k]));
  }

  lemma EncodeFirst(t: Tables, src: nat, to: nat, cs: seq<nat>)
    requires cs != []
    ensures EncodeAll(t, src, to, cs) == Encode(t, src, to, cs[0]) + EncodeAll(t, src, to, cs[1..])
  {
    EncodedAt(t, src, to, cs, 0);
    assert cs[..0] == [];
    Empty(Encode(t, src, to, cs[0]) + EncodeAll(t, src, to, cs[1..]));
  }

  lemma StopsAtPair(t: Tables, src: nat, cs: seq<nat>, k: nat)
    requires AllScalar(cs) && k < |cs| && cs[k] >= 0x10000 && forall j :: 0 <= j < k ==> cs[j] < 0x10000
    ensures Decoded(t, UTF_16, UTF_16BE, EncodeAll(t, src, UTF_16, cs)) == Text(cs[..k], IllegalStop)
  {
    var tail := EncodeAll(t, src, UTF_16, cs[k + 1..]);
    EncodedAt(t, src, UTF_16, cs, k);
    assert cs[k] in cs;
    PlainPrefix(t, src, cs[..k], Encode(t, src, UTF_16, cs[k]) + tail);
    PairRefused(t, src, cs[k], tail);
    Empty(cs[..k]);
  }

  /** A text written as UTF_16 can be read again if and only if it has no supplementary
      characters; otherwise reading stops at the first of them. */
  lemma RoundTripPairs(t: Tables, src: nat, cs: seq<nat>)
    requires AllScalar(cs)
    ensures var text := Decoded(t, UTF_16, 0, [0xfe, 0xff] + EncodeAll(t, src, UTF_16, cs));
      && (text == Text(cs, Ended) <==> forall c :: c in cs ==> c < 0x10000)
      && text.stop == (if forall c :: c in cs ==> c < 0x10000 then Ended else IllegalStop)
  {
    AfterMark(t, UTF_16, UTF_16BE, EncodeAll(t, src, UTF_16, cs));
    if forall c :: c in cs ==> c < 0x10000 {
      PlainPrefix(t, src, cs, []);
      Empty(EncodeAll(t, src, UTF_16, cs));
      Empty(cs);
    } else {
      StopsAtPair(t, src, cs, FirstPair(cs, 0));
    }
  }

  ghost function FirstPair(cs: seq<nat>, i: nat): (k: nat)
    requires i <= |cs| && (forall j :: 0 <= j < i ==> cs[j] < 0x10000) && exists c :: c in cs && c >= 0x10000
    ensures k < |cs| && cs[k] >= 0x10000 && forall j :: 0 <= j < k ==> cs[j] < 0x10000
    decreases |cs| - i
  {
    if i < |cs| && cs[i] < 0x10000 then FirstPair(cs, i + 1) else i
  }

  // ------------------------------------------------------------------ code pages

  /** What comes back from a page for c: the character, or an asterisk. */
  function PageBack(t: Tables, to: nat, c: nat): nat {
    if Emit(t, to, to, c).Some? then c else STAR
  }

  ghost predicate OnPage(t: Tables, to: nat, c: nat) {
    exists b :: 0 <= b < 256 && Page(t, to, b) == c
  }

  /** A byte that stands for c is read as c. */
  lemma PageUnit(t: Tables, to: nat, b: byte, c: nat, rest: seq<byte>)
    requires 0 < to <= 64 && t.fromMap == t.toMap && Page(t, to, b) == c && (c == 0 ==> b == 0)
    ensures Decode(t, to, 0, [b] + rest) == Char(c, 1)
  {
  }

  lemma NulIsFirst(t: Tables, to: nat)
    requires 0 < to
    ensures Emit(t, to, to, 0) == Some(0)
  {
  }

  lemma BackPage(t: Tables, to: nat, c: nat)
    requires 0 < to <= 64 && t.fromMap == t.toMap && OnPage(t, to, STAR)
    ensures Back(t, to, to, 0, to, c, PageBack(t, to, c))
  {
    SamePage(t, to, c);
    SamePage(t, to, STAR);
    NulIsFirst(t, to);
    forall rest
      ensures Decoded(t, to, 0, Encode(t, to, to, c) + rest) == Then([PageBack(t, to, c)], Decoded(t, to, 0, rest))
    {
      PageUnit(t, to, Single(t, to, to, c), PageBack(t, to, c), rest);
      BackAt(t, to, to, 0, to, c, PageBack(t, to, c), rest);
    }
  }

  /** A text that is put out on an 8-bit page, from a page that leaves out as many entries, and read
      from that page comes back if and only if the page has all of its characters. */
  lemma RoundTripPage(t: Tables, to: nat, cs: seq<nat>)
    requires 0 < to <= 64 && t.fromMap == t.toMap && OnPage(t, to, STAR)
    ensures Decoded(t, to, 0, EncodeAll(t, to, to, cs)) == Text(cs, Ended) <==> forall c :: c in cs ==> OnPage(t, to, c)
  {
    var f := (c: nat) => PageBack(t, to, c);
    forall c | c in cs
      ensures Back(t, to, to, 0, to, c, f(c))
    {
      BackPage(t, to, c);
    }
    AllBack(t, to, to, 0, to, f, cs, []);
    Empty(EncodeAll(t, to, to, cs));
    Empty(Each(f, cs));
    EachSame(f, cs);
    forall c: nat
      ensures f(c) == c <==> OnPage(t, to, c)
    {
      SamePage(t, to, c);
    }
  }

  lemma LostOnPage(t: Tables, to: nat, c: nat)
    requires to <= 64
    ensures Lost(t, to, to, c) == if OnPage(t, to, c) then 0 else 1
  {
    SamePage(t, to, c);
  }

  /** How many characters of a text the page does not have. */
  ghost function NotOnPage(t: Tables, to: nat, cs: seq<nat>): nat {
    if cs == [] then 0 else NotOnPage(t, to, cs[..|cs| - 1]) + if OnPage(t, to, cs[|cs| - 1]) then 0 else 1
  }

  lemma {:induction false} CountAll(t: Tables, to: nat, cs: seq<nat>)
    requires to <= 64
    ensures LostIn(t, to, to, cs) == NotOnPage(t, to, cs)
    decreases |cs|
  {
    if cs != [] {
      CountAll(t, to, cs[..|cs| - 1]);
      LostOnPage(t, to, cs[|cs| - 1]);
    }
  }

  /** iconv counts the characters that the page does not have; there are none if and only if the text
      comes back. */
  lemma CountTells(t: Tables, to: nat, cs: seq<nat>)
    requires 0 < to <= 64 && t.fromMap == t.toMap && OnPage(t, to, STAR)
    ensures LostIn(t, to, to, cs) == NotOnPage(t, to, cs)
    ensures Decoded(t, to, 0, EncodeAll(t, to, to, cs)) == Text(cs, Ended) <==> LostIn(t, to, to, cs) == 0
  {
    CountAll(t, to, cs);
    RoundTripPage(t, to, cs);
    NoneLost(t, to, to, cs);
    forall c | c in cs
      ensures Lost(t, to, to, c) == 0 <==> OnPage(t, to, c)
    {
      LostOnPage(t, to, c);
    }
  }

  // ----------------------------------------------------------------------- ASCII

  function AsciiBack(c: nat): nat {
    if c < 128 then c else STAR
  }

  lemma BackAscii(t: Tables, src: nat, c: nat)
    requires src >= 64
    ensures Back(t, src, US_ASCII, 0, US_ASCII, c, AsciiBack(c)) && Lost(t, src, US_ASCII, c) == if c < 128 then 0 else 1
  {
    PageIgnored(t, src, US_ASCII, First(US_ASCII, c));
    forall rest
      ensures Decoded(t, US_ASCII, 0, Encode(t, src, US_ASCII, c) + rest) == Then([AsciiBack(c)], Decoded(t, US_ASCII, 0, rest))
    {
      assert Encode(t, src, US_ASCII, c) == [AsciiBack(c)];
      BackAt(t, src, US_ASCII, 0, US_ASCII, c, AsciiBack(c), rest);
    }
  }

  /** Texts in ASCII, from a source that is no 8-bit page, come back if and only if all of their
      characters are below U+0080; the others are asterisks then, and counted. */
  lemma RoundTripAscii(t: Tables, src: nat, cs: seq<nat>)
    requires src >= 64
    ensures Decoded(t, US_ASCII, 0, EncodeAll(t, src, US_ASCII, cs)) == Text(cs, Ended) <==> forall c :: c in cs ==> c < 128
    ensures LostIn(t, src, US_ASCII, cs) == 0 <==> forall c :: c in cs ==> c < 128
  {
    forall c | c in cs
      ensures Back(t, src, US_ASCII, 0, US_ASCII, c, AsciiBack(c)) && Lost(t, src, US_ASCII, c) == if c < 128 then 0 else 1
    {
      BackAscii(t, src, c);
    }
    NoneLost(t, src, US_ASCII, cs);
    AllBack(t, src, US_ASCII, 0, US_ASCII, AsciiBack, cs, []);
    Empty(EncodeAll(t, src, US_ASCII, cs));
    Empty(Each(AsciiBack, cs));
    EachSame(AsciiBack, cs);
  }

  /** Bytes from 0x80 on are refused: a text in ASCII can be read if and only if it has none, and then
      its bytes are its characters. */
  lemma {:induction false} AsciiText(t: Tables, s: seq<byte>)
    ensures (forall i :: 0 <= i < |s| ==> s[i] < 128) ==> Decoded(t, US_ASCII, 0, s) == Text(Numbers(s), Ended)
    ensures !(forall i :: 0 <= i < |s| ==> s[i] < 128) ==> Decoded(t, US_ASCII, 0, s).stop == IllegalStop
    decreases |s|
  {
    if s != [] {
      AsciiText(t, s[1..]);
      AsciiFirst(t, s);
      assert Numbers(s) == [s[0] as nat] + Numbers(s[1..]);
      assert forall i :: 1 <= i < |s| ==> s[i] == s[1..][i - 1];
    }
  }

  lemma AsciiFirst(t: Tables, s: seq<byte>)
    requires s != []
    ensures Decoded(t, US_ASCII, 0, s)
         == if s[0] < 128 then Then([s[0] as nat], Decoded(t, US_ASCII, 0, s[1..])) else Text([], IllegalStop)
  {
  }

  function Numbers(s: seq<byte>): (cs: seq<nat>)
    ensures |cs| == |s| && forall i :: 0 <= i < |s| ==> cs[i] == s[i]
  {
    seq(|s|, i requires 0 <= i < |s| => s[i])
  }

  // --------------------------------------------------------------- runs of calls

  /** Once nothing is left, what has been put out is the whole. */
  lemma Consumed(t: Tables, from: nat, to: nat, text: seq<byte>, out: seq<byte>, st: nat)
    requires Underway(t, from, to, 0, text, out, st, [])
    ensures out == Whole(t, from, to, 0, text)
  {
    Empty(out);
  }

  predicate IsWide(via: nat) {
    via == UTF_32BE || via == UTF_32LE || IsType16(via)
  }

  /** From a wide source every text can be put out, whatever the target. */
  lemma WideConverts(t: Tables, via: nat, to: nat, cs: seq<nat>)
    requires IsWide(via)
    ensures AllConvert(t, via, to, cs)
  {
    forall c | c in cs
      ensures Converts(t, via, to, c)
    {
      StarIsThere(t, via, to, c);
    }
  }

  /** A text that was put out in UTF-32, or in a 16-bit type without supplementary characters, is
      read in calls with windows and room of any size: what they put out is a prefix of the text in
      the target encoding, and all of it once the input is used up. */
  method Recode(t: Tables, src: nat, via: nat, to: nat, cs: seq<nat>, calls: seq<(nat, nat)>)
    returns (out: seq<byte>, rest: seq<byte>)
    requires IsWide(via) && to != UTF_8 && AllScalar(cs) && (IsType16(via) ==> forall c :: c in cs ==> c < 0x10000)
    ensures out <= EncodeAll(t, via, to, cs)
    ensures rest == [] ==> out == EncodeAll(t, via, to, cs)
  {
    var text := EncodeAll(t, src, via, cs);
    if IsType16(via) {
      Decoded16(t, src, via, 0, via, cs);
      EachSame(Narrow, cs);
    } else {
      Decoded32(t, src, via, 0, via, cs);
    }
    WideConverts(t, via, to, cs);
    var st;
    out, st, rest := Run(t, via, to, text, calls);
    if rest == [] {
      Consumed(t, via, to, text, out, st);
    }
  }
}
