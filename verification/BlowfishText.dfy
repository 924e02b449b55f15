/** BF_encode and BF_decode (library/crypt/crypt_blowfish.c): the text form of bcrypt. */
module BlowfishText {
  import opened Common

  /** BF_itoa64. */
  function Letter(i: nat): char
    requires i < 64
  {
    if i == 0 then '.' else if i == 1 then '/'
    else if i < 28 then ('A' as int + i - 2) as char
    else if i < 54 then ('a' as int + i - 28) as char
    else ('0' as int + i - 54) as char
  }

  /** BF_safe_atoi64: 64 stands for the error return. */
  function Digit(c: char): (d: nat)
    ensures d <= 64
  {
    if c == '.' then 0 else if c == '/' then 1
    else if 'A' <= c <= 'Z' then c as int - 'A' as int + 2
    else if 'a' <= c <= 'z' then c as int - 'a' as int + 28
    else if '0' <= c <= '9' then c as int - '0' as int + 54
    else 64
  }

  lemma DigitOfLetter(i: nat)
    requires i < 64
    ensures Digit(Letter(i)) == i
  {
  }

  // -------------------------------------------------------------------- encoding

  function Encode(s: seq<byte>): string
    decreases |s|
  {
    if |s| == 0 then ""
    else if |s| == 1 then [Letter(s[0] / 4), Letter(s[0] % 4 * 16)]
    else if |s| == 2 then [Letter(s[0] / 4), Letter(s[0] % 4 * 16 + s[1] / 16), Letter(s[1] % 16 * 4)]
    else Group(s[0], s[1], s[2]) + Encode(s[3..])
  }

  function Group(a: byte, b: byte, c: byte): (t: string)
    ensures |t| == 4
  {
    [Letter(a / 4), Letter(a % 4 * 16 + b / 16), Letter(b % 16 * 4 + c / 64), Letter(c % 64)]
  }

  /** The digit of character i of a C string. */
  function DigitAt(s: string, i: nat): (d: nat)
    ensures d <= 64
  {
    if i < |s| then Digit(s[i]) else 64
  }

  /** The bytes of four digits. */
  function First(c1: nat, c2: nat): byte
    requires c1 < 64 && c2 < 64
  {
    c1 * 4 + c2 / 16
  }

  function Second(c2: nat, c3: nat): byte
    requires c2 < 64 && c3 < 64
  {
    c2 % 16 * 16 + c3 / 4
  }

  function Third(c3: nat, c4: nat): byte
    requires c3 < 64 && c4 < 64
  {
    c3 % 4 * 64 + c4
  }

  /** n bytes from the start of a text, or an error. */
  function Decode(s: string, n: nat): Option<seq<byte>>
    requires n > 0
    decreases n
  {
    var c1, c2 := DigitAt(s, 0), DigitAt(s, 1);
    if c1 == 64 || c2 == 64 then None
    else if n == 1 then Some([First(c1, c2)])
    else
      var c3 := DigitAt(s, 2);
      if c3 == 64 then None
      else if n == 2 then Some([First(c1, c2), Second(c2, c3)])
      else
        var c4 := DigitAt(s, 3);
        if c4 == 64 then None
        else
          var three := [First(c1, c2), Second(c2, c3), Third(c3, c4)];
          if n == 3 then Some(three)
          else After(three, Decode(s[4..], n - 3))
  }

  function After(d: seq<byte>, rest: Option<seq<byte>>): Option<seq<byte>> {
    match rest
    case None => None
    case Some(m) => Some(d + m)
  }

  lemma GroupDigits(a: byte, b: byte, c: byte)
    ensures var g := Group(a, b, c);
      && Digit(g[0]) == a / 4 && Digit(g[1]) == a % 4 * 16 + b / 16
      && Digit(g[2]) == b % 16 * 4 + c / 64 && Digit(g[3]) == c % 64
  {
    DigitOfLetter(a / 4);
    DigitOfLetter(a % 4 * 16 + b / 16);
    DigitOfLetter(b % 16 * 4 + c / 64);
    DigitOfLetter(c % 64);
  }

  lemma GroupBytes(a: byte, b: byte, c: byte)
    ensures First(a / 4, a % 4 * 16 + b / 16) == a
    ensures Second(a % 4 * 16 + b / 16, b % 16 * 4 + c / 64) == b
    ensures Third(b % 16 * 4 + c / 64, c % 64) == c
  {
  }

  /** The alphabet: a full stop, a slash, the capital letters, the small ones and the digits. */
  lemma LetterIs(i: nat)
    requires i < 64
    ensures Letter(0) == '.' && Letter(1) == '/' && Letter(2) == 'A' && Letter(27) == 'Z'
    ensures Letter(28) == 'a' && Letter(53) == 'z' && Letter(54) == '0' && Letter(63) == '9'
    ensures i != 1 && i != 27 && i != 53 && i != 63 ==> Letter(i + 1) as int == Letter(i) as int + 1
  {
  }

  /** Bytes and letters spell the same number, the first at the top; what is left over of the bits of
      the last letter is zero. */
  lemma SameNumber(a: byte, b: byte, c: byte)
    ensures var g := Group(a, b, c);
      262144 * Digit(g[0]) + 4096 * Digit(g[1]) + 64 * Digit(g[2]) + Digit(g[3]) == 65536 * a + 256 * b + c
    ensures var s := Encode([a, b]); |s| == 3 && 4096 * Digit(s[0]) + 64 * Digit(s[1]) + Digit(s[2]) == 4 * (256 * a + b)
    ensures var s := Encode([a]); |s| == 2 && 64 * Digit(s[0]) + Digit(s[1]) == 16 * a
  {
    GroupDigits(a, b, c);
    DigitOfLetter(a / 4);
    DigitOfLetter(a % 4 * 16 + b / 16);
    DigitOfLetter(b % 16 * 4);
    DigitOfLetter(a % 4 * 16);
  }

  /** A text that starts with a group decodes to its bytes and the rest. */
  lemma DecodeGroup(a: byte, b: byte, c: byte, rest: string, n: nat)
    requires n >= 3
    ensures Decode(Group(a, b, c) + rest, n) ==
      if n == 3 then Some([a, b, c]) else After([a, b, c], Decode(rest, n - 3))
  {
    GroupDigits(a, b, c);
    GroupBytes(a, b, c);
    assert (Group(a, b, c) + rest)[4..] == rest;
  }

  lemma DecodeOne(a: byte, after: string)
    ensures Decode([Letter(a / 4), Letter(a % 4 * 16)] + after, 1) == Some([a])
  {
    DigitOfLetter(a / 4);
    DigitOfLetter(a % 4 * 16);
    FirstByte(a);
  }

  lemma FirstByte(a: byte)
    ensures First(a / 4, a % 4 * 16) == a
  {
  }

  lemma DecodeTwo(a: byte, b: byte, after: string)
    ensures Decode([Letter(a / 4), Letter(a % 4 * 16 + b / 16), Letter(b % 16 * 4)] + after, 2) == Some([a, b])
  {
    DigitOfLetter(a / 4);
    DigitOfLetter(a % 4 * 16 + b / 16);
    DigitOfLetter(b % 16 * 4);
    GroupBytes(a, b, 0);
  }

  lemma Triple(s: seq<byte>)
    requires |s| >= 3
    ensures s == [s[0], s[1], s[2]] + s[3..]
    ensures |s| == 3 ==> s == [s[0], s[1], s[2]]
  {
  }

  /** Decoding undoes encoding: for every byte string of positive length, whatever follows. */
  lemma {:induction false} DecodeEncode(s: seq<byte>, after: string)
    requires |s| > 0
    ensures Decode(Encode(s) + after, |s|) == Some(s)
    decreases |s|
  {
    if |s| == 1 {
      DecodeOne(s[0], after);
      assert s == [s[0]];
    } else if |s| == 2 {
      DecodeTwo(s[0], s[1], after);
      assert s == [s[0], s[1]];
    } else {
      Associate(Group(s[0], s[1], s[2]), Encode(s[3..]), after);
      DecodeGroup(s[0], s[1], s[2], Encode(s[3..]) + after, |s|);
      Triple(s);
      if |s| > 3 {
        DecodeEncode(s[3..], after);
      }
    }
  }

  predicate SameDigits(s: string, t: string) {
    |s| >= 4 && |t| >= 4 && forall i :: 0 <= i < 4 ==> DigitAt(s, i) == DigitAt(t, i)
  }

  predicate SameUpper(c: char, d: char) {
    Digit(c) < 64 && Digit(d) == Digit(c) / 16 * 16
  }

  /** The texts agree in that many groups and one letter; the next letter of t is that of s with the
      lower four bits cleared. */
  predicate Cleared(s: string, t: string, groups: nat) {
    if groups == 0 then |s| > 1 && |t| > 1 && DigitAt(s, 0) == DigitAt(t, 0) && SameUpper(s[1], t[1])
    else SameDigits(s, t) && Cleared(s[4..], t[4..], groups - 1)
  }

  lemma {:induction false} IsCleared(s: string, t: string, groups: nat, k: nat)
    requires k == 4 * groups + 1 && k < |s| && k < |t| && s[..k] == t[..k] && SameUpper(s[k], t[k])
    ensures Cleared(s, t, groups)
    decreases groups
  {
    if groups == 0 {
      assert s[0] == s[..1][0] == t[..1][0];
    } else {
      Shorter(s, t, k);
      SameStart(s, t, k);
      IsCleared(s[4..], t[4..], groups - 1, k - 4);
    }
  }

  ghost predicate DecodeSame(s: string, t: string, n: nat)
    requires n > 0
  {
    Decode(s, n) == Decode(t, n)
  }

  lemma SameGroup(s: string, t: string, s': string, t': string, n: nat)
    requires n > 3 && SameDigits(s, t) && s' == s[4..] && t' == t[4..] && DecodeSame(s', t', n - 3)
    ensures DecodeSame(s, t, n)
  {
  }

  /** Where a text is decoded only up to the first byte of a group, the last letter may be replaced
      by the one with the unused bits cleared. */
  lemma {:induction false} DecodeCleared(s: string, t: string, groups: nat, n: nat)
    requires Cleared(s, t, groups) && n == 3 * groups + 1
    ensures DecodeSame(s, t, n)
    decreases groups
  {
    if groups > 0 {
      DecodeCleared(s[4..], t[4..], groups - 1, n - 3);
      SameGroup(s, t, s[4..], t[4..], n);
    }
  }

  lemma Shorter(s: string, t: string, k: nat)
    requires 4 <= k < |s| && k < |t| && s[..k] == t[..k]
    ensures s[4..][..k - 4] == t[4..][..k - 4] && s[4..][k - 4] == s[k] && t[4..][k - 4] == t[k]
  {
    assert s[4..][..k - 4] == s[..k][4..] && t[4..][..k - 4] == t[..k][4..];
  }

  lemma SameStart(s: string, t: string, k: nat)
    requires 4 <= k <= |s| && k <= |t| && s[..k] == t[..k]
    ensures forall i :: 0 <= i < 4 ==> DigitAt(s, i) == DigitAt(t, i)
  {
    forall i | 0 <= i < 4
      ensures s[i] == t[i]
    {
      assert s[i] == s[..k][i] == t[..k][i];
    }
  }

  lemma {:induction false} EncodeLength(s: seq<byte>)
    ensures |Encode(s)| == |s| / 3 * 4 + (if |s| % 3 == 0 then 0 else |s| % 3 + 1)
    decreases |s|
  {
    if |s| >= 3 {
      EncodeLength(s[3..]);
    }
  }

  // ------------------------------------------------------------------- the loops

  lemma Appended(t: string, a: char, b: char, c: char, d: char)
    ensures t + [a] + [b] == t + [a, b]
    ensures t + [a] + [b] + [c] == t + [a, b, c]
    ensures t + [a] + [b] + [c] + [d] == t + [a, b, c, d]
  {
  }

  method BfEncode(s: seq<byte>) returns (t: string)
    requires |s| > 0
    ensures t == Encode(s)
  {
    t := "";
    var p := 0;
    assert s[p..] == s;
    while true
      invariant p < |s| && t + Encode(s[p..]) == Encode(s)
      decreases |s| - p
    {
      ghost var was, left := t, s[p..];
      var c1 := s[p];
      p := p + 1;
      t := t + [Letter(c1 / 4)];
      if p >= |s| {
        t := t + [Letter(c1 % 4 * 16)];
        Appended(was, Letter(c1 / 4), Letter(c1 % 4 * 16), '.', '.');
        break;
      }
      var c2 := s[p];
      p := p + 1;
      t := t + [Letter(c1 % 4 * 16 + c2 / 16)];
      if p >= |s| {
        t := t + [Letter(c2 % 16 * 4)];
        Appended(was, Letter(c1 / 4), Letter(c1 % 4 * 16 + c2 / 16), Letter(c2 % 16 * 4), '.');
        break;
      }
      var c3 := s[p];
      p := p + 1;
      t := t + [Letter(c2 % 16 * 4 + c3 / 64)] + [Letter(c3 % 64)];
      Appended(was, Letter(c1 / 4), Letter(c1 % 4 * 16 + c2 / 16), Letter(c2 % 16 * 4 + c3 / 64), Letter(c3 % 64));
      assert left[3..] == s[p..];
      Associate(was, Group(c1, c2, c3), Encode(s[p..]));
      if p >= |s| {
        break;
      }
    }
  }

  lemma AfterNothing(rest: Option<seq<byte>>)
    ensures After([], rest) == rest
  {
    assert forall m: seq<byte> :: [] + m == m;
  }

  lemma AfterAfter(a: seq<byte>, b: seq<byte>, rest: Option<seq<byte>>)
    ensures After(a, After(b, rest)) == After(a + b, rest)
  {
    if rest.Some? {
      assert a + (b + rest.value) == (a + b) + rest.value;
    }
  }

  method BfDecode(s: string, n: nat) returns (r: Option<seq<byte>>)
    requires n > 0
    ensures r == Decode(s, n)
  {
    var d: seq<byte>, q, m := [], 0, n;
    assert s[q..] == s;
    AfterNothing(Decode(s, n));
    while true
      invariant q <= |s| && 0 < m <= n && Decode(s, n) == After(d, Decode(s[q..], m))
      decreases m
    {
      ghost var t := s[q..];
      var c1, c2 := DigitAt(s, q), DigitAt(s, q + 1);
      if c1 == 64 || c2 == 64 {
        return None;
      }
      if m == 1 {
        return Some(d + [First(c1, c2)]);
      }
      var c3 := DigitAt(s, q + 2);
      if c3 == 64 {
        return None;
      }
      if m == 2 {
        return Some(d + [First(c1, c2), Second(c2, c3)]);
      }
      var c4 := DigitAt(s, q + 3);
      if c4 == 64 {
        return None;
      }
      var three := [First(c1, c2), Second(c2, c3), Third(c3, c4)];
      if m == 3 {
        return Some(d + three);
      }
      assert t[4..] == s[q + 4..];
      AfterAfter(d, three, Decode(s[q + 4..], m - 3));
      d, q, m := d + three, q + 4, m - 3;
    }
  }
}
