/** The wide encodings as their standards have them: what iconv puts out is read by the algorithm of
    section 2.2 of RFC 2781, and by plain base-256 numbers (library/iconv/iconv.c). */
module IconvUnits {
  import opened Common
  import opened IconvDecode
  import opened IconvRun
  import opened IconvRoundTrip
  import Charmaps

  // ------------------------------------------------------------------ code units

  /** The number that bytes spell, the most significant first. */
  function Number(s: seq<byte>): nat {
    if s == [] then 0 else 256 * Number(s[..|s| - 1]) + s[|s| - 1]
  }

  function Backwards(s: seq<byte>): (r: seq<byte>)
    ensures |r| == |s|
  {
    if s == [] then [] else Backwards(s[1..]) + [s[0]]
  }

  /** The number of one code unit in a byte order. */
  function Unit(s: seq<byte>, little: bool): nat {
    Number(if little then Backwards(s) else s)
  }

  lemma Number2(a: byte, b: byte)
    ensures Number([a, b]) == 256 * a + b
  {
    assert [a, b][..1] == [a] && [a][..0] == [];
    assert Number([a]) == a;
  }

  lemma Unit2(a: byte, b: byte)
    ensures Unit([a, b], false) == 256 * a + b && Unit([a, b], true) == 256 * b + a
  {
    Number2(a, b);
    Number2(b, a);
    assert [a, b][1..] == [b] && [b][1..] == [];
    assert Backwards([b]) == [b];
    assert Backwards([a, b]) == [b, a];
  }

  lemma Number4(a: byte, b: byte, c: byte, d: byte)
    ensures Number([a, b, c, d]) == 0x1000000 * a + 0x10000 * b + 0x100 * c + d
  {
    assert [a, b, c, d][..3] == [a, b, c] && [a, b, c][..2] == [a, b] && [a, b][..1] == [a] && [a][..0] == [];
    assert Number([a]) == a;
    assert Number([a, b]) == 256 * Number([a]) + b;
    assert Number([a, b, c]) == 256 * Number([a, b]) + c;
  }

  lemma Backwards4(a: byte, b: byte, c: byte, d: byte)
    ensures Backwards([a, b, c, d]) == [d, c, b, a]
  {
    assert [a, b, c, d][1..] == [b, c, d] && [b, c, d][1..] == [c, d] && [c, d][1..] == [d] && [d][1..] == [];
    assert Backwards([d]) == [d];
    assert Backwards([c, d]) == [d, c];
    assert Backwards([b, c, d]) == [d, c, b];
  }

  lemma Unit4(a: byte, b: byte, c: byte, d: byte)
    ensures Unit([a, b, c, d], false) == 0x1000000 * a + 0x10000 * b + 0x100 * c + d
    ensures Unit([a, b, c, d], true) == 0x1000000 * d + 0x10000 * c + 0x100 * b + a
  {
    Number4(a, b, c, d);
    Number4(d, c, b, a);
    Backwards4(a, b, c, d);
  }

  /** get_16 and get_32 read code units. */
  lemma GetsUnit(s: seq<byte>, little: bool)
    ensures |s| >= 2 ==> Get16(s, 0, little) == Unit(s[..2], little)
    ensures |s| >= 4 ==> Get32(s, little) == Unit(s[..4], little)
  {
    if |s| >= 2 {
      assert s[..2] == [s[0], s[1]];
      Unit2(s[0], s[1]);
    }
    if |s| >= 4 {
      assert s[..4] == [s[0], s[1], s[2], s[3]];
      Unit4(s[0], s[1], s[2], s[3]);
    }
  }

  /** put_16 and put_32 write them. */
  lemma PutsUnit(c: nat, little: bool)
    ensures c < 0x10000 ==> Unit(Put16(c, little), little) == c
    ensures c < 0x1_0000_0000 ==> Unit(Put32(c, little), little) == c
  {
    var s := Put16(c, little);
    Unit2(s[0], s[1]);
    assert s == [s[0], s[1]];
    var r := Put32(c, little);
    Unit4(r[0], r[1], r[2], r[3]);
    assert r == [r[0], r[1], r[2], r[3]];
    if c < 0x1_0000_0000 {
      FourBytes(c);
    }
  }

  /** A text of code units of the given size. */
  function Units(s: seq<byte>, size: nat, little: bool): seq<nat>
    requires size > 0
    decreases |s|
  {
    if |s| < size then [] else [Unit(s[..size], little)] + Units(s[size..], size, little)
  }

  lemma UnitsFirst(u: seq<byte>, rest: seq<byte>, little: bool)
    requires |u| > 0
    ensures Units(u + rest, |u|, little) == [Unit(u, little)] + Units(rest, |u|, little)
  {
    assert (u + rest)[..|u|] == u && (u + rest)[|u|..] == rest;
  }

  // ---------------------------------------------------------------------- UTF-16

  function After(c: nat, cs: Option<seq<nat>>): Option<seq<nat>> {
    if cs.Some? then Some([c] + cs.value) else None
  }

  /** Section 2.2 of RFC 2781. */
  function Utf16(us: seq<nat>): Option<seq<nat>>
    decreases |us|
  {
    if us == [] then Some([])
    else if us[0] < 0xd800 || us[0] > 0xdfff then After(us[0], Utf16(us[1..]))
    else if us[0] > 0xdbff || |us| < 2 || us[1] < 0xdc00 || us[1] > 0xdfff then None
    else After(us[0] % 1024 * 1024 + us[1] % 1024 + 0x10000, Utf16(us[2..]))
  }

  lemma OneUnit(us: seq<nat>, c: nat)
    requires c < 0xd800 || c > 0xdfff
    ensures Utf16([c] + us) == After(c, Utf16(us))
  {
    assert ([c] + us)[1..] == us;
  }

  lemma TwoUnits(us: seq<nat>, h: nat, l: nat)
    requires 0xd800 <= h < 0xdc00 <= l < 0xe000
    ensures Utf16([h] + ([l] + us)) == After(0x10000 + (h - 0xd800) * 1024 + (l - 0xdc00), Utf16(us))
  {
    var s := [h] + ([l] + us);
    assert s[2..] == us && s[1] == l;
    assert h % 1024 == h - 0xd800 && l % 1024 == l - 0xdc00;
  }

  /** A pair: its units are the halves of the character. */
  lemma PairIs(c: nat)
    requires 0x10000 <= c < 0x110000
    ensures var s := Encode16(c, false, UTF_16);
      && |s| == 4
      && var h, l := Unit(s[..2], false), Unit(s[2..], false);
         0xd800 <= h < 0xdc00 <= l < 0xe000 && 0x10000 + (h - 0xd800) * 1024 + (l - 0xdc00) == c
  {
    var h, l := (c - 0x10000) / 1024 + 0xd800, (c - 0x10000) % 1024 + 0xdc00;
    var s := Encode16(c, false, UTF_16);
    assert s[..2] == Put16(h, false) && s[2..] == Put16(l, false);
    PutsUnit(h, false);
    PutsUnit(l, false);
  }

  /** What the 16-bit targets write for a character, read by the standard. */
  function Meant(to: nat, c: nat): nat {
    if to == UTF_16 || c < 0x10000 then c else 0xfffd
  }

  predicate IsTarget16(to: nat) {
    to == UTF_16 || IsType16(to)
  }

  predicate IsLittle(to: nat) {
    to == UTF_16LE || to == UCS2LE
  }

  lemma First16(t: Tables, src: nat, to: nat, c: nat, rest: seq<byte>)
    requires IsTarget16(to) && Scalar(c)
    ensures Utf16(Units(Encode(t, src, to, c) + rest, 2, IsLittle(to))) == After(Meant(to, c), Utf16(Units(rest, 2, IsLittle(to))))
  {
    var e, little := Encode(t, src, to, c), IsLittle(to);
    if to == UTF_16 && c >= 0x10000 {
      assert e == Encode16(c, false, UTF_16);
      PairIs(c);
      assert e + rest == e[..2] + (e[2..] + rest);
      UnitsFirst(e[..2], e[2..] + rest, false);
      UnitsFirst(e[2..], rest, false);
      TwoUnits(Units(rest, 2, false), Unit(e[..2], false), Unit(e[2..], false));
    } else {
      var d := Meant(to, c);
      assert e == Put16(d, little);
      PutsUnit(d, little);
      UnitsFirst(e, rest, little);
      OneUnit(Units(rest, 2, little), d);
    }
  }

  function AllMeant(to: nat, cs: seq<nat>): (ds: seq<nat>)
    ensures |ds| == |cs| && forall i :: 0 <= i < |cs| ==> ds[i] == Meant(to, cs[i])
  {
    seq(|cs|, i requires 0 <= i < |cs| => Meant(to, cs[i]))
  }

  /** The standard reads a text in UTF-16 as its characters, pairs included; the other 16-bit types
      have U+FFFD for the supplementary ones. */
  lemma {:induction false} Standard16(t: Tables, src: nat, to: nat, cs: seq<nat>)
    requires IsTarget16(to) && AllScalar(cs)
    ensures Utf16(Units(EncodeAll(t, src, to, cs), 2, IsLittle(to))) == Some(AllMeant(to, cs))
    ensures to == UTF_16 ==> AllMeant(to, cs) == cs
    decreases |cs|
  {
    if cs == [] {
      assert Utf16([]) == Some([]);
    } else {
      var c, rest := cs[0], cs[1..];
      EncodeFirst(t, src, to, cs);
      First16(t, src, to, c, EncodeAll(t, src, to, rest));
      Standard16(t, src, to, rest);
      assert AllMeant(to, cs) == [Meant(to, c)] + AllMeant(to, rest);
    }
  }

  // ---------------------------------------------------------------------- UTF-32

  lemma First32(t: Tables, src: nat, to: nat, c: nat, rest: seq<byte>)
    requires (to == UTF_32 || to == UTF_32BE || to == UTF_32LE || to == WCHAR_T) && Scalar(c)
    ensures |Encode(t, src, to, c)| == 4
    ensures Units(Encode(t, src, to, c) + rest, 4, to == UTF_32LE) == [c] + Units(rest, 4, to == UTF_32LE)
  {
    var e, little := Encode(t, src, to, c), to == UTF_32LE;
    assert e == Put32(c, little);
    PutsUnit(c, little);
    UnitsFirst(e, rest, little);
  }

  /** A text in UTF-32 is its characters, four bytes each. */
  lemma {:induction false} Standard32(t: Tables, src: nat, to: nat, cs: seq<nat>)
    requires (to == UTF_32 || to == UTF_32BE || to == UTF_32LE || to == WCHAR_T) && AllScalar(cs)
    ensures |EncodeAll(t, src, to, cs)| == 4 * |cs| && Units(EncodeAll(t, src, to, cs), 4, to == UTF_32LE) == cs
    decreases |cs|
  {
    if cs == [] {
      assert EncodeAll(t, src, to, cs) == [];
    } else {
      var c, rest := cs[0], cs[1..];
      EncodeFirst(t, src, to, cs);
      First32(t, src, to, c, EncodeAll(t, src, to, rest));
      Standard32(t, src, to, rest);
      assert cs == [c] + rest;
    }
  }

  /** Without a byte order mark a text is read with the most significant byte first. */
  lemma NoMark(t: Tables, from: nat, s: seq<byte>)
    requires (from == UTF_32 && |s| >= 4 && Unit(s[..4], false) != 0xfeff && Unit(s[..4], true) != 0xfeff)
          || ((from == UTF_16 || from == UCS2) && |s| >= 2 && Unit(s[..2], false) != 0xfeff && Unit(s[..2], true) != 0xfeff)
    ensures Decoded(t, from, 0, s) == Decoded(t, from, if from == UTF_32 then UTF_32BE else if from == UTF_16 then UTF_16BE else UCS2BE, s)
  {
    GetsUnit(s, false);
    GetsUnit(s, true);
    assert s[0..] == s;
  }

  /** If the test for the types that have no pairs let UTF-16 pass, pairs would be read as the standard
      has it. */
  lemma PairWouldBeRead(h: nat, l: nat, little: bool, type': int, rest: seq<byte>)
    requires 0xd800 <= h < 0xdc00 <= l < 0xe000 && type' >= UCS2BE + 2
    ensures Unit16(Put16(h, little) + (Put16(l, little) + rest), little, type') == Char(0x10000 + (h - 0xd800) * 1024 + (l - 0xdc00), 4)
  {
    var s := Put16(h, little) + (Put16(l, little) + rest);
    Get16Put16(h, little, Put16(l, little) + rest);
    Get16Put16(l, little, rest);
    assert s[2..] == Put16(l, little) + rest;
    assert Get16(s, 2, little) == Get16(s[2..], 0, little);
  }

  // ----------------------------------------------------------------------- states

  predicate Changes(code: nat) {
    code == UTF_16 || code == UTF_32 || code == UCS2 || code == ISO2022_JP
  }

  lemma ChangesIs(t: Tables, code: nat)
    ensures Changes(code) <==> exists state, s :: |s| > 0 && Decode(t, code, state, s).Shift?
  {
    if Changes(code) {
      var s := [27, 0x28, 0x42, 0];
      assert Decode(t, code, 0, s).Shift?;
    }
  }

  lemma SameCode(code: bv8, n: nat)
    requires n == code as int
    ensures Charmaps.HasState(code) <==> Changes(n)
  {
  }

  /** The sources for which iconv_open keeps a state are those with units that change it. */
  lemma StateIsNeeded(t: Tables, code: bv8, n: nat)
    requires n == code as int
    ensures Charmaps.HasState(code) <==> exists state, s :: |s| > 0 && Decode(t, n, state, s).Shift?
  {
    ChangesIs(t, n);
    SameCode(code, n);
  }
}
