/** iconv as a whole (library/iconv/iconv.c): decode a unit, encode it, stop for lack of input
    or room; and why the cuts between calls do not show. */
module IconvRun {
  import opened Common
  import opened Legacy
  import opened IconvDecode

  // ------------------------------------------------------------------- encoding

  function Put16(c: nat, little: bool): (s: seq<byte>)
    ensures |s| == 2
  {
    if little then [c % 256, c / 256 % 256] else [c / 256 % 256, c % 256]
  }

  function Put32(c: nat, little: bool): (s: seq<byte>)
    ensures |s| == 4
  {
    if little then [c % 256, c / 0x100 % 256, c / 0x10000 % 256, c / 0x1000000 % 256]
    else [c / 0x1000000 % 256, c / 0x10000 % 256, c / 0x100 % 256, c % 256]
  }

  predicate Katakana(c: nat) {
    0xff61 <= c <= 0xff9f
  }

  function SjisPair(c: nat, d: nat): (s: seq<byte>)
    ensures |s| == 2
  {
    [((c + 1) / 2 + (if c < 95 then 112 else 176)) % 256, (if c % 2 == 1 then d + 31 + d / 96 else d + 126) % 256]
  }

  function EncodeSjis(t: Tables, c: nat): Option<seq<byte>> {
    if c < 128 then Some([c])
    else if c == 0xa5 then Some([0x5c])
    else if c == 0x203e then Some([0x7e])
    else if Katakana(c) then Some([c - 0xff61 + 0xa1])
    else if t.toJis(c) == 0 then None
    else Some(SjisPair(t.toJis(c) / 256, t.toJis(c) % 256))
  }

  function EncodeEucJp(t: Tables, c: nat): Option<seq<byte>> {
    if c < 128 then Some([c])
    else
      var j := if Katakana(c) then c - 0xff61 + 0x0e21 else t.toJis(c);
      if j == 0 then None else Some([(j / 256 + 0x80) % 256, (j % 256 + 0x80) % 256])
  }

  /** Shift out of ASCII and back again. */
  function Escaped(a: byte, b: byte, s: seq<byte>): seq<byte> {
    [27, a, b] + s + [27, 0x28, 0x42]
  }

  function EncodeIso2022(t: Tables, c: nat): Option<seq<byte>> {
    if c < 128 then Some([c])
    else if c == 0xa5 then Some(Escaped(0x28, 0x4a, [0x5c]))
    else if c == 0x203e then Some(Escaped(0x28, 0x4a, [0x7e]))
    else if Katakana(c) then Some(Escaped(0x28, 0x49, [c - 0xff61 + 0x21]))
    else if t.toJis(c) == 0 then None
    else Some(Escaped(0x24, 0x42, [t.toJis(c) / 256 % 256, t.toJis(c) % 256]))
  }

  /** Only UTF_16 goes on to surrogate pairs: the test compares signed numbers here, too. */
  function Encode16(c: nat, little: bool, to: int): (s: seq<byte>)
    ensures |s| > 0
  {
    if c < 0x10000 || to - UCS2BE < 2 then Put16(if c >= 0x10000 then 0xfffd else c, little)
    else Put16((c - 0x10000) / 1024 + 0xd800, little) + Put16((c - 0x10000) % 1024 + 0xdc00, little)
  }

  predicate IsJapanese(to: nat) {
    to == SHIFT_JIS || to == EUC_JP || to == ISO2022_JP
  }

  /** What the cases of the wide and the Japanese targets put out; the others, and characters that
      a Japanese target does not have, go to the single-byte case. */
  function Direct(t: Tables, to: nat, c: nat): (s: Option<seq<byte>>)
    ensures s.Some? ==> |s.value| > 0
  {
    if to == WCHAR_T || to == UTF_32BE || to == UTF_32 then Some(Put32(c, false))
    else if to == UTF_32LE then Some(Put32(c, true))
    else if to == UCS2 || to == UCS2BE then Some(Encode16(c, false, UCS2BE))
    else if to == UTF_16 || to == UTF_16BE then Some(Encode16(c, false, to))
    else if to == UCS2LE || to == UTF_16LE then Some(Encode16(c, true, to))
    else if to == SHIFT_JIS then EncodeSjis(t, c)
    else if to == EUC_JP then EncodeEucJp(t, c)
    else if to == ISO2022_JP then EncodeIso2022(t, c)
    else None
  }

  // ------------------------------------------------------------ single-byte case

  /** The character that stands for all that cannot be represented. */
  const STAR: nat := 42

  /** How the single-byte case reads the target page: with the type of the source. */
  function Page(t: Tables, type': nat, c: nat): nat {
    LegacyMap(t.chars, t.toMap, type', c)
  }

  /** The first byte from k on that stands for d. */
  function Search(t: Tables, type': nat, k: nat, d: nat): (b: Option<byte>)
    ensures b.Some? ==> k <= b.value && Page(t, type', b.value) == d
    ensures b.None? ==> forall j :: k <= j < 256 ==> Page(t, type', j) != d
    decreases 256 - k
  {
    if k >= 256 then None else if Page(t, type', k) == d then Some(k) else Search(t, type', k + 1, d)
  }

  /** One pass through the single-byte case for c: the byte that is put out, if there is one. */
  function Emit(t: Tables, type': nat, to: nat, c: nat): Option<byte> {
    if c < 256 && c == Page(t, type', c) then Some(c) else Search(t, type', 4 * to, c)
  }

  /** The case is entered with an asterisk in place of the character. */
  predicate AsStar(to: nat, c: nat) {
    IsJapanese(to) || (to == US_ASCII && c > 0x7f)
  }

  /** What the first pass is asked for. */
  function First(to: nat, c: nat): nat {
    if AsStar(to, c) then STAR else c
  }

  /** What pass n is asked for. */
  function Asked(to: nat, c: nat, n: nat): nat {
    if n == 0 then First(to, c) else STAR
  }

  /** Some pass puts something out. */
  predicate Ends(t: Tables, type': nat, to: nat, c: nat) {
    Emit(t, type', to, First(to, c)).Some? || Emit(t, type', to, STAR).Some?
  }

  /** The byte of the first pass that puts one out; where none does there is no such byte, and the
      value is of no use. */
  function Single(t: Tables, type': nat, to: nat, c: nat): byte {
    var b := Emit(t, type', to, First(to, c));
    if b.Some? then b.value
    else var star := Emit(t, type', to, STAR); if star.Some? then star.value else 0
  }

  method SearchPage(t: Tables, type': nat, k: nat, d: nat) returns (b: Option<byte>)
    ensures b == Search(t, type', k, d)
  {
    var c := k;
    while c < 256
      invariant 0 <= c && Search(t, type', k, d) == Search(t, type', c, d)
    {
      if d == Page(t, type', c) {
        return Some(c);
      }
      c := c + 1;
    }
    b := None;
  }

  method Pass(t: Tables, type': nat, to: nat, c: nat) returns (b: Option<byte>)
    ensures b == Emit(t, type', to, c)
  {
    if c < 256 && c == Page(t, type', c) {
      return Some(c);
    }
    b := SearchPage(t, type', 4 * to, c);
  }

  /** The passes, one after the other. */
  method PutByte(t: Tables, type': nat, to: nat, c: nat) returns (b: byte, passes: nat)
    requires Ends(t, type', to, c)
    ensures b == Single(t, type', to, c)
    ensures Emit(t, type', to, Asked(to, c, passes)) == Some(b)
    ensures passes == if Emit(t, type', to, First(to, c)).Some? then 0 else 1
    ensures forall n :: 0 <= n < passes ==> Emit(t, type', to, Asked(to, c, n)).None?
  {
    passes := 0;
    var found := Pass(t, type', to, First(to, c));
    while found.None?
      invariant found == Emit(t, type', to, Asked(to, c, passes)) && passes <= 1
      invariant forall n :: 0 <= n < passes ==> Emit(t, type', to, Asked(to, c, n)).None?
      decreases 1 - passes
    {
      passes := passes + 1;
      found := Pass(t, type', to, STAR);
    }
    b := found.value;
  }

  /** The passes come to an end if and only if the page, read with the type of the source, has the
      character or an asterisk. */
  lemma PassesEnd(t: Tables, type': nat, to: nat, c: nat)
    ensures (exists n: nat :: Emit(t, type', to, Asked(to, c, n)).Some?) <==> Ends(t, type', to, c)
    ensures Emit(t, type', to, STAR).Some?
            <==> Page(t, type', STAR) == STAR || exists k :: 4 * to <= k < 256 && Page(t, type', k) == STAR
  {
    if Ends(t, type', to, c) {
      if Emit(t, type', to, First(to, c)).Some? {
        assert Emit(t, type', to, Asked(to, c, 0)).Some?;
      } else {
        assert Emit(t, type', to, Asked(to, c, 1)).Some?;
      }
    }
  }

  /** A page that leaves out more than the first 42 entries has the asterisk. */
  lemma StarIsThere(t: Tables, type': nat, to: nat, c: nat)
    requires type' >= 11
    ensures Ends(t, type', to, c)
  {
  }

  /** From a source that is not a page with entries of its own, the target page is not looked at:
      characters below U+0100 go out as they are. */
  lemma PageIgnored(t: Tables, type': nat, to: nat, c: nat)
    requires type' >= 64
    ensures Emit(t, type', to, c) == if c < 256 then Some(c) else None
  {
  }

  /** Where source and target leave out the same number of entries, there is a byte if and only if
      the target page has the character, and it stands for it. */
  lemma SamePage(t: Tables, to: nat, c: nat)
    ensures Emit(t, to, to, c).Some? <==> exists b :: 0 <= b < 256 && Page(t, to, b) == c
    ensures Emit(t, to, to, c).Some? ==> Page(t, to, Emit(t, to, to, c).value) == c
  {
  }

  // --------------------------------------------------------------- one character

  /** The conversion of c comes to an end. */
  predicate Converts(t: Tables, type': nat, to: nat, c: nat) {
    Direct(t, to, c).Some? || Ends(t, type', to, c)
  }

  /** The bytes of one character, from a source of the given type. */
  function Encode(t: Tables, type': nat, to: nat, c: nat): (s: seq<byte>)
    ensures |s| > 0
  {
    var s := Direct(t, to, c);
    if s.Some? then s.value else [Single(t, type', to, c)]
  }

  /** How often a character is counted as converted irreversibly. */
  function Lost(t: Tables, type': nat, to: nat, c: nat): nat {
    if Direct(t, to, c).Some? then (if to == SHIFT_JIS && (c == 0xa5 || c == 0x203e) then 1 else 0)
    else (if AsStar(to, c) then 1 else 0) + (if Emit(t, type', to, First(to, c)).Some? then 0 else 1)
  }

  function LostIn(t: Tables, type': nat, to: nat, cs: seq<nat>): nat {
    if cs == [] then 0 else LostIn(t, type', to, cs[..|cs| - 1]) + Lost(t, type', to, cs[|cs| - 1])
  }

  lemma LostMore(t: Tables, type': nat, to: nat, cs: seq<nat>, c: nat)
    ensures LostIn(t, type', to, cs + [c]) == LostIn(t, type', to, cs) + Lost(t, type', to, c)
  {
    assert (cs + [c])[..|cs|] == cs;
  }

  lemma {:induction false} NoneLost(t: Tables, type': nat, to: nat, cs: seq<nat>)
    ensures LostIn(t, type', to, cs) == 0 <==> forall c :: c in cs ==> Lost(t, type', to, c) == 0
    decreases |cs|
  {
    if cs != [] {
      var front, c := cs[..|cs| - 1], cs[|cs| - 1];
      NoneLost(t, type', to, front);
      assert cs == front + [c];
    }
  }

  /** A mark that has been found does not change how characters are put out. */
  lemma SameOutput(t: Tables, from: nat, state: nat, to: nat, c: nat)
    requires ValidState(from, state)
    ensures Encode(t, Effective(from, state), to, c) == Encode(t, from, to, c)
    ensures Converts(t, Effective(from, state), to, c) == Converts(t, from, to, c)
    ensures Lost(t, Effective(from, state), to, c) == Lost(t, from, to, c)
  {
    if IsMarked(from) && state != 0 {
      PageIgnored(t, from, to, First(to, c));
      PageIgnored(t, from, to, STAR);
      PageIgnored(t, state, to, First(to, c));
      PageIgnored(t, state, to, STAR);
    }
  }

  method EncodeChar(t: Tables, type': nat, to: nat, c: nat) returns (s: seq<byte>, x: nat)
    requires Converts(t, type', to, c)
    ensures s == Encode(t, type', to, c) && x == Lost(t, type', to, c)
  {
    var direct := Direct(t, to, c);
    if direct.Some? {
      return direct.value, if to == SHIFT_JIS && (c == 0xa5 || c == 0x203e) then 1 else 0;
    }
    var b, passes := PutByte(t, type', to, c);
    s, x := [b], passes + if AsStar(to, c) then 1 else 0;
  }

  function EncodeAll(t: Tables, type': nat, to: nat, cs: seq<nat>): seq<byte> {
    if cs == [] then [] else EncodeAll(t, type', to, cs[..|cs| - 1]) + Encode(t, type', to, cs[|cs| - 1])
  }

  ghost predicate AllConvert(t: Tables, type': nat, to: nat, cs: seq<nat>) {
    forall c :: c in cs ==> Converts(t, type', to, c)
  }

  // -------------------------------------------------------------- decoding a text

  /** Too little input, an illegal sequence, or the end. */
  datatype Stop = Ended | StarvedStop | IllegalStop

  /** The characters of a text, and why there are no more. */
  datatype Text = Text(cs: seq<nat>, stop: Stop)

  /** Everything iconv decodes when it is given all of the input and never runs out of room. */
  function Decoded(t: Tables, from: nat, state: nat, s: seq<byte>): Text
    requires ValidState(from, state)
    decreases |s|, if IsMarked(from) && state == 0 then 1 else 0
  {
    if s == [] then Text([], Ended)
    else
      DecodeFits(t, from, state, s);
      match Decode(t, Effective(from, state), state, s)
      case Starved => Text([], StarvedStop)
      case Illegal => Text([], IllegalStop)
      case Shift(st, l) => Decoded(t, from, st, s[l..])
      case Char(c, l) => Then([c], Decoded(t, from, state, s[l..]))
  }

  function Then(cs: seq<nat>, text: Text): Text {
    text.(cs := cs + text.cs)
  }

  lemma ThenNothing(text: Text)
    ensures Then([], text) == text
  {
    assert [] + text.cs == text.cs;
  }

  lemma ThenThen(a: seq<nat>, b: seq<nat>, text: Text)
    ensures Then(a, Then(b, text)) == Then(a + b, text)
  {
    assert a + (b + text.cs) == (a + b) + text.cs;
  }

  lemma EncodeMore(t: Tables, from: nat, to: nat, cs: seq<nat>, c: nat)
    ensures EncodeAll(t, from, to, cs + [c]) == EncodeAll(t, from, to, cs) + Encode(t, from, to, c)
  {
    assert (cs + [c])[..|cs|] == cs;
  }

  /** A unit at the start of an input is decoded the same way whatever comes after the input. */
  lemma OneChar(t: Tables, from: nat, state: nat, s: seq<byte>, more: seq<byte>, c: nat, l: nat)
    requires |s| > 0 && ValidState(from, state) && Decode(t, Effective(from, state), state, s) == Char(c, l)
    ensures 0 < l <= |s|
    ensures Decoded(t, from, state, s + more) == Then([c], Decoded(t, from, state, s[l..] + more))
  {
    DecodeFits(t, from, state, s);
    DecodeStable(t, Effective(from, state), state, s, more);
    assert (s + more)[l..] == s[l..] + more;
  }

  lemma OneShift(t: Tables, from: nat, state: nat, s: seq<byte>, more: seq<byte>, st: nat, l: nat)
    requires |s| > 0 && ValidState(from, state) && Decode(t, Effective(from, state), state, s) == Shift(st, l)
    ensures l <= |s| && ValidState(from, st) && (if IsMarked(from) then state == 0 && st != 0 else l > 0)
    ensures Decoded(t, from, state, s + more) == Decoded(t, from, st, s[l..] + more)
  {
    DecodeFits(t, from, state, s);
    DecodeStable(t, Effective(from, state), state, s, more);
    assert (s + more)[l..] == s[l..] + more;
  }

  // ------------------------------------------------------------------------ iconv

  /** The types this model covers. */
  predicate Covered(from: nat, to: nat) {
    from != UTF_8 && from != BIG5 && to != UTF_8
  }

  /** Every character of a text can be put out: exactly then the conversion comes to an end. */
  ghost predicate Convertible(t: Tables, from: nat, to: nat, state: nat, s: seq<byte>)
    requires ValidState(from, state)
  {
    AllConvert(t, from, to, Decoded(t, from, state, s).cs)
  }

  const IBM1047: nat := 1

  /** The bytes of the list of character maps that a conversion from IBM1047 to US-ASCII looks at for
      the letter A: entry 0xC1 of IBM1047, and bytes of the names behind US-ASCII. */
  ghost predicate FromIbm1047(t: Tables) {
    && t.fromMap(236) == 4 && t.fromMap(237) == 33
    && t.toMap(47) == 105 && t.toMap(48) == 115 && t.toMap(76) == 107 && t.toMap(77) == 0
    && t.chars(566) == 9488
  }

  lemma Ibm1047Entries(t: Tables)
    requires FromIbm1047(t)
    ensures LegacyMap(t.chars, t.fromMap, IBM1047, 0xc1) == 65
    ensures Page(t, IBM1047, 42) == 9488 && Page(t, IBM1047, 65) == 26
  {
    assert Bits(4, 33, 1) == 65;
    assert Bits(105, 115, 2) == 822;
    assert Bits(107, 0, 1) == 26;
  }

  /** The letter A cannot be converted: no pass ever puts it, or an asterisk, out. */
  lemma Ibm1047NeverEnds(t: Tables, n: nat)
    requires FromIbm1047(t)
    ensures Decoded(t, IBM1047, 0, [0xc1]) == Text([65], Ended)
    ensures Emit(t, IBM1047, US_ASCII, Asked(US_ASCII, 65, n)).None?
    ensures !Convertible(t, IBM1047, US_ASCII, 0, [0xc1])
  {
    Ibm1047Entries(t);
    assert 65 in [65];
  }

  lemma Remaining(t: Tables, from: nat, to: nat, cs: seq<nat>, text: Text)
    requires AllConvert(t, from, to, Then(cs, text).cs)
    ensures AllConvert(t, from, to, text.cs)
  {
    assert forall c :: c in text.cs ==> c in cs + text.cs;
  }

  lemma NextConverts(t: Tables, from: nat, to: nat, all: Text, done: seq<nat>, c: nat, text: Text)
    requires AllConvert(t, from, to, all.cs) && all == Then(done, Then([c], text))
    ensures Converts(t, from, to, c)
  {
    assert all.cs[|done|] == c;
  }

  datatype Result = Finished | EINVAL | EILSEQ | E2BIG

  /** Why a call stops where it does. */
  ghost predicate StopsFor(t: Tables, from: nat, to: nat, state: nat, s: seq<byte>, room: int, r: Result) {
    if s == [] then r == Finished
    else
      match Decode(t, Effective(from, state), state, s)
      case Starved => r == EINVAL
      case Illegal => r == EILSEQ
      case Shift(_, _) => false
      case Char(c, _) => r == E2BIG && |Encode(t, from, to, c)| > room
  }

  /** The characters `done` of a text that was begun in state st0 have become `out`; `rest` is
      before the converter. */
  ghost predicate Sofar(t: Tables, from: nat, to: nat, st0: nat, text: seq<byte>, done: seq<nat>, out: seq<byte>,
                        st: nat, rest: seq<byte>)
    requires ValidState(from, st0)
  {
    && ValidState(from, st) && out == EncodeAll(t, from, to, done)
    && Decoded(t, from, st0, text) == Then(done, Decoded(t, from, st, rest))
  }

  lemma AtFirst(t: Tables, from: nat, to: nat, st: nat, text: seq<byte>)
    requires ValidState(from, st)
    ensures Sofar(t, from, to, st, text, [], [], st, text)
  {
    ThenNothing(Decoded(t, from, st, text));
  }

  lemma AfterChar(t: Tables, from: nat, to: nat, st0: nat, text: seq<byte>, done: seq<nat>, out: seq<byte>,
                  st: nat, s: seq<byte>, more: seq<byte>, c: nat, l: nat)
    requires ValidState(from, st0) && Sofar(t, from, to, st0, text, done, out, st, s + more)
    requires Convertible(t, from, to, st0, text)
    requires |s| > 0 && Decode(t, Effective(from, st), st, s) == Char(c, l)
    ensures 0 < l <= |s| && Converts(t, Effective(from, st), to, c)
    ensures Encode(t, Effective(from, st), to, c) == Encode(t, from, to, c)
    ensures LostIn(t, from, to, done + [c]) == LostIn(t, from, to, done) + Lost(t, Effective(from, st), to, c)
    ensures Sofar(t, from, to, st0, text, done + [c], out + Encode(t, Effective(from, st), to, c), st, s[l..] + more)
  {
    OneChar(t, from, st, s, more, c, l);
    var after := Decoded(t, from, st, s[l..] + more);
    NextConverts(t, from, to, Decoded(t, from, st0, text), done, c, after);
    SameOutput(t, from, st, to, c);
    ThenThen(done, [c], after);
    EncodeMore(t, from, to, done, c);
    LostMore(t, from, to, done, c);
  }

  lemma AfterShift(t: Tables, from: nat, to: nat, st0: nat, text: seq<byte>, done: seq<nat>, out: seq<byte>,
                   st: nat, s: seq<byte>, more: seq<byte>, st': nat, l: nat)
    requires ValidState(from, st0) && Sofar(t, from, to, st0, text, done, out, st, s + more)
    requires |s| > 0 && Decode(t, Effective(from, st), st, s) == Shift(st', l)
    ensures l <= |s| && (if IsMarked(from) then st == 0 && Effective(from, st') == st' else l > 0)
    ensures Sofar(t, from, to, st0, text, done, out, st', s[l..] + more)
  {
    OneShift(t, from, st, s, more, st', l);
  }

  lemma Onward(input: seq<byte>, n: nat, l: nat)
    requires n + l <= |input|
    ensures input[n..][l..] == input[n + l..]
  {
  }

  /** Once around the loop: why it ends here, or how far it gets. */
  method OneUnit(t: Tables, from: nat, to: nat, type0: nat, st: nat, s: seq<byte>, room: nat,
                 ghost st0: nat, ghost text: seq<byte>, ghost done: seq<nat>, ghost out: seq<byte>, ghost more: seq<byte>)
    returns (r: Option<Result>, type': nat, st': nat, l: nat, e: seq<byte>, x: nat, ghost done': seq<nat>)
    requires ValidState(from, st0) && Convertible(t, from, to, st0, text)
    requires |s| > 0 && Sofar(t, from, to, st0, text, done, out, st, s + more)
    requires type0 == from || type0 == Effective(from, st)
    ensures r.Some? ==> st' == st && done' == done && StopsFor(t, from, to, st, s, room, r.value)
    ensures r.None? ==> l <= |s| && |e| <= room && Sofar(t, from, to, st0, text, done', out + e, st', s[l..] + more)
    ensures r.None? ==> LostIn(t, from, to, done') == LostIn(t, from, to, done) + x
    ensures r.None? ==> type' == from || type' == Effective(from, st')
    ensures r.None? ==> l > 0 || (IsMarked(type0) && !IsMarked(type'))
  {
    r, type', st', l, e, x, done' := None, type0, st, 0, [], 0, done;
    Empty(out);
    if IsMarked(type0) && st != 0 {
      type' := st;
      return;
    }
    match Decode(t, type0, st, s)
    case Starved => r := Some(EINVAL);
    case Illegal => r := Some(EILSEQ);
    case Shift(found, len) =>
      AfterShift(t, from, to, st0, text, done, out, st, s, more, found, len);
      st', l := found, len;
      if IsMarked(type0) {
        type' := found;
      }
    case Char(c, len) =>
      AfterChar(t, from, to, st0, text, done, out, st, s, more, c, len);
      var bytes, lost := EncodeChar(t, type0, to, c);
      if |bytes| > room {
        r := Some(E2BIG);
      } else {
        l, e, x, done' := len, bytes, lost, done + [c];
      }
  }

  /** One call.  `more` is what may follow the input in later calls, `done` the characters that
      were converted; a call that finishes returns x. */
  method Iconv(t: Tables, from: nat, to: nat, state0: nat, input: seq<byte>, room: nat, ghost more: seq<byte>)
    returns (n: nat, out: seq<byte>, state: nat, r: Result, x: nat, ghost done: seq<nat>)
    requires Covered(from, to) && ValidState(from, state0) && Convertible(t, from, to, state0, input + more)
    ensures n <= |input| && |out| <= room
    ensures Sofar(t, from, to, state0, input + more, done, out, state, input[n..] + more)
    ensures x == LostIn(t, from, to, done)
    ensures StopsFor(t, from, to, state, input[n..], room - |out|, r)
  {
    n, out, state, x, done := 0, [], state0, 0, [];
    var type', s := from, input;
    ghost var text := input + more;
    AtFirst(t, from, to, state0, text);
    while n < |input|
      invariant n <= |input| && |out| <= room && s == input[n..]
      invariant type' == from || type' == Effective(from, state)
      invariant Sofar(t, from, to, state0, text, done, out, state, s + more) && x == LostIn(t, from, to, done)
      decreases |input| - n, if IsMarked(type') then 1 else 0
    {
      var stop, l, e, lost;
      stop, type', state, l, e, lost, done := OneUnit(t, from, to, type', state, s, room - |out|, state0, text, done, out, more);
      if stop.Some? {
        r := stop.value;
        return;
      }
      Onward(input, n, l);
      n, s, out, x := n + l, s[l..], out + e, x + lost;
    }
    r := Finished;
  }

  // --------------------------------------------------------------- runs of calls

  lemma LastOf<T>(s: seq<T>)
    requires |s| > 0
    ensures s == s[..|s| - 1] + [s[|s| - 1]]
  {
  }

  lemma {:induction false} EncodeBoth(t: Tables, from: nat, to: nat, a: seq<nat>, b: seq<nat>)
    ensures EncodeAll(t, from, to, a + b) == EncodeAll(t, from, to, a) + EncodeAll(t, from, to, b)
    decreases |b|
  {
    if b == [] {
      Empty(a);
      Empty(EncodeAll(t, from, to, a));
    } else {
      var front, last := b[..|b| - 1], b[|b| - 1];
      LastOf(b);
      Associate(a, front, [last]);
      EncodeMore(t, from, to, a + front, last);
      EncodeBoth(t, from, to, a, front);
      Associate(EncodeAll(t, from, to, a), EncodeAll(t, from, to, front), Encode(t, from, to, last));
    }
  }

  /** What a conversion of the whole text in one go puts out. */
  function Whole(t: Tables, from: nat, to: nat, state: nat, s: seq<byte>): seq<byte>
    requires ValidState(from, state)
  {
    EncodeAll(t, from, to, Decoded(t, from, state, s).cs)
  }

  /** A conversion of `text` that started in state st0 has put out `out` and has `rest` before it. */
  ghost predicate Underway(t: Tables, from: nat, to: nat, st0: nat, text: seq<byte>, out: seq<byte>,
                           st: nat, rest: seq<byte>)
    requires ValidState(from, st0)
  {
    && ValidState(from, st) && Convertible(t, from, to, st, rest)
    && Whole(t, from, to, st0, text) == out + Whole(t, from, to, st, rest)
    && Decoded(t, from, st0, text).stop == Decoded(t, from, st, rest).stop
  }

  lemma Started(t: Tables, from: nat, to: nat, st: nat, text: seq<byte>)
    requires ValidState(from, st) && Convertible(t, from, to, st, text)
    ensures Underway(t, from, to, st, text, [], st, text)
  {
    Empty(Whole(t, from, to, st, text));
  }

  lemma Continued(t: Tables, from: nat, to: nat, st0: nat, text: seq<byte>, out: seq<byte>, st: nat, rest: seq<byte>,
                  o: seq<byte>, st': nat, rest': seq<byte>)
    requires ValidState(from, st0) && Underway(t, from, to, st0, text, out, st, rest)
    requires ValidState(from, st') && Convertible(t, from, to, st', rest')
    requires Whole(t, from, to, st, rest) == o + Whole(t, from, to, st', rest')
    requires Decoded(t, from, st, rest).stop == Decoded(t, from, st', rest').stop
    ensures Underway(t, from, to, st0, text, out + o, st', rest')
  {
    Associate(out, o, Whole(t, from, to, st', rest'));
  }

  /** A call in terms of what it puts out. */
  method IconvWhole(t: Tables, from: nat, to: nat, st: nat, input: seq<byte>, room: nat, ghost more: seq<byte>)
    returns (n: nat, out: seq<byte>, st': nat, r: Result)
    requires Covered(from, to) && ValidState(from, st) && Convertible(t, from, to, st, input + more)
    ensures ValidState(from, st') && n <= |input| && |out| <= room
    ensures Convertible(t, from, to, st', input[n..] + more)
    ensures Whole(t, from, to, st, input + more) == out + Whole(t, from, to, st', input[n..] + more)
    ensures Decoded(t, from, st, input + more).stop == Decoded(t, from, st', input[n..] + more).stop
  {
    ghost var done;
    var x;
    n, out, st', r, x, done := Iconv(t, from, to, st, input, room, more);
    Remaining(t, from, to, done, Decoded(t, from, st', input[n..] + more));
    EncodeBoth(t, from, to, done, Decoded(t, from, st', input[n..] + more).cs);
  }

  /** A call that is shown `window` bytes of what is left of the text. */
  method Call(t: Tables, from: nat, to: nat, ghost st0: nat, ghost text: seq<byte>, ghost out: seq<byte>,
              st: nat, rest: seq<byte>, window: nat, room: nat) returns (o: seq<byte>, st': nat, n: nat, r: Result)
    requires Covered(from, to) && ValidState(from, st0) && Underway(t, from, to, st0, text, out, st, rest)
    ensures n <= |rest| && |o| <= room && Underway(t, from, to, st0, text, out + o, st', rest[n..])
  {
    var w := if window <= |rest| then window else |rest|;
    var input := rest[..w];
    ghost var more := rest[w..];
    Split(rest, w, 0);
    n, o, st', r := IconvWhole(t, from, to, st, input, room, more);
    Split(rest, w, n);
    Continued(t, from, to, st0, text, out, st, rest, o, st', rest[n..]);
  }

  lemma Split(s: seq<byte>, w: nat, n: nat)
    requires n <= w <= |s|
    ensures s[..w] + s[w..] == s && s[..w][n..] + s[w..] == s[n..]
  {
  }

  /** A descriptor from iconv_open and the conversion under way with it. */
  class Converter {
    const t: Tables
    const from: nat
    const to: nat
    var state: nat

    ghost predicate Valid()
      reads this
    {
      Covered(from, to) && ValidState(from, state)
    }

    constructor (t: Tables, from: nat, to: nat)
      requires Covered(from, to)
      ensures Valid() && this.t == t && this.from == from && this.to == to && state == 0
    {
      this.t, this.from, this.to, state := t, from, to, 0;
    }

    /** A call takes n bytes and puts out what the whole conversion would put out for them;
        nothing is taken or written for a character there is no room for. */
    method Convert(input: seq<byte>, room: nat, ghost more: seq<byte>) returns (n: nat, out: seq<byte>, r: Result, x: nat, ghost done: seq<nat>)
      requires Valid() && Convertible(t, from, to, state, input + more)
      modifies this
      ensures Valid() && n <= |input| && |out| <= room && Convertible(t, from, to, state, input[n..] + more)
      ensures Whole(t, from, to, old(state), input + more) == out + Whole(t, from, to, state, input[n..] + more)
      ensures Decoded(t, from, old(state), input + more).stop == Decoded(t, from, state, input[n..] + more).stop
      ensures StopsFor(t, from, to, state, input[n..], room - |out|, r)
      ensures out == EncodeAll(t, from, to, done) && x == LostIn(t, from, to, done)
    {
      n, out, state, r, x, done := Iconv(t, from, to, state, input, room, more);
      Remaining(t, from, to, done, Decoded(t, from, state, input[n..] + more));
      EncodeBoth(t, from, to, done, Decoded(t, from, state, input[n..] + more).cs);
    }
  }

  /** Any run of calls on one descriptor, each with a window of some size and some room: what has
      been put out and what is still to come make up the whole. */
  method Run(t: Tables, from: nat, to: nat, text: seq<byte>, calls: seq<(nat, nat)>)
    returns (out: seq<byte>, st: nat, rest: seq<byte>)
    requires Covered(from, to) && Convertible(t, from, to, 0, text)
    ensures Underway(t, from, to, 0, text, out, st, rest)
    ensures |rest| <= |text| && rest == text[|text| - |rest|..]
  {
    out, st, rest := [], 0, text;
    Started(t, from, to, 0, text);
    for k := 0 to |calls|
      invariant Underway(t, from, to, 0, text, out, st, rest)
      invariant |rest| <= |text| && rest == text[|text| - |rest|..]
    {
      var o, n, r;
      o, st, n, r := Call(t, from, to, 0, text, out, st, rest, calls[k].0, calls[k].1);
      out, rest := out + o, rest[n..];
    }
  }

  lemma StopMeans(t: Tables, from: nat, to: nat, state: nat, s: seq<byte>, room: int, r: Result)
    requires ValidState(from, state) && StopsFor(t, from, to, state, s, room, r)
    ensures r != E2BIG ==> Decoded(t, from, state, s).cs == [] && Whole(t, from, to, state, s) == []
    ensures r == E2BIG ==> |Whole(t, from, to, state, s)| > room
  {
    if r == E2BIG {
      DecodeFits(t, from, state, s);
      var u := Decode(t, Effective(from, state), state, s);
      var rest := Decoded(t, from, state, s[u.l..]).cs;
      EncodeBoth(t, from, to, [u.c], rest);
      EncodeMore(t, from, to, [], u.c);
      Empty([u.c]);
    }
  }

  /** One call with all of the text and room enough puts out the whole. */
  method OneCall(t: Tables, from: nat, to: nat, text: seq<byte>, room: nat) returns (out: seq<byte>, r: Result, x: nat)
    requires Covered(from, to) && Convertible(t, from, to, 0, text)
    ensures r == E2BIG <==> |Whole(t, from, to, 0, text)| > room
    ensures out <= Whole(t, from, to, 0, text) && (r != E2BIG ==> out == Whole(t, from, to, 0, text))
    ensures r != E2BIG ==> x == LostIn(t, from, to, Decoded(t, from, 0, text).cs)
    ensures r == EINVAL <==> r != E2BIG && Decoded(t, from, 0, text).stop == StarvedStop
    ensures r == EILSEQ <==> r != E2BIG && Decoded(t, from, 0, text).stop == IllegalStop
  {
    var n, st;
    ghost var done;
    Empty(text);
    n, out, st, r, x, done := Iconv(t, from, to, 0, text, room, []);
    Empty(text[n..]);
    EncodeBoth(t, from, to, done, Decoded(t, from, st, text[n..]).cs);
    StopMeans(t, from, to, st, text[n..], room - |out|, r);
    Empty(out);
    Empty(done);
  }
}
