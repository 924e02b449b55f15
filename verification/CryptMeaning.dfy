/** What the results of crypt(3) mean: which settings are accepted, and what can be read from the
    result (library/crypt/crypt_r.c and the schemes behind it). */
module CryptMeaning {
  import opened Arith
  import opened Common
  import opened CryptSetting
  import opened Crypt
  import HashText
  import BlowfishText

  // --------------------------------------------------------------------- dispatch

  /** The prefix of a setting selects the scheme. */
  lemma SchemeIs(s: string)
    ensures SchemeOf(s) == Md5 <==> "$1$" <= s
    ensures SchemeOf(s) == Sha256 <==> "$5$" <= s
    ensures SchemeOf(s) == Sha512 <==> "$6$" <= s
    ensures SchemeOf(s) == Blowfish <==> |s| >= 4 && s[..2] == "$2" && s[2] != '\0' && s[3] == '$'
  {
  }

  // ------------------------------------------------------------------------ salts

  /** The salt is everything up to a dollar sign or the end, or as much as is allowed. */
  ghost predicate IsSalt(salt: string, rest: string, max: nat) {
    '$' !in salt && |salt| <= max && (|salt| == max || rest == "" || rest[0] == '$')
  }

  lemma {:induction false} SaltIs(salt: string, rest: string, max: nat)
    requires IsSalt(salt, rest, max)
    ensures SaltOf(salt + rest, max) == salt
    decreases |salt|
  {
    if salt == "" {
      assert salt + rest == rest;
    } else {
      assert (salt + rest)[1..] == salt[1..] + rest;
      SaltIs(salt[1..], rest, max - 1);
    }
  }

  lemma SaltOfIs(s: string, max: nat)
    ensures var salt := SaltOf(s, max); s == salt + s[|salt|..] && IsSalt(salt, s[|salt|..], max)
  {
    SaltEnds(s, max);
  }

  // -------------------------------------------------------------------------- MD5

  /** md5crypt accepts keys of up to 30000 characters, and every setting with its prefix; salt and
      digest stand in the result. */
  lemma Md5Means(h: Hashes, key: string, salt: string, rest: string)
    requires h.Sound() && IsSalt(salt, rest, 8)
    ensures var r := Crypt.Crypt(h, key, "$1$" + (salt + rest));
      && (r.Some? <==> |key| <= 30000)
      && (r.Some? ==>
            && |r.value| == |salt| + 26 && r.value[..|salt| + 4] == "$1$" + salt + "$"
            && HashText.MD5.Sound() && HashText.Read(HashText.MD5, r.value[|salt| + 4..]) == h.md5(key, salt))
  {
    var s := "$1$" + (salt + rest);
    SchemeIs(s);
    assert s[3..] == salt + rest;
    SaltIs(salt, rest, 8);
    HashText.Md5Sound();
    if |key| <= 30000 {
      var text := HashText.Print(HashText.MD5, h.md5(key, salt));
      HashText.ReadPrint(HashText.MD5, h.md5(key, salt));
      var t := "$1$" + salt + "$" + text;
      assert t[|salt| + 4..] == text && t[..|salt| + 4] == "$1$" + salt + "$";
    }
  }

  // ------------------------------------------------------------------ SHA-256/512

  /** The part of a setting before the salt: nothing, or a number of rounds. */
  ghost predicate IsFront(s: string, front: string, rounds: Option<nat>) {
    if rounds.None? then front == "" && !("rounds=" <= s)
    else
      exists d :: d != "" && AllDigits(d) && front == "rounds=" + d + "$" && Number(d) <= 9999999
        && rounds.value == if Number(d) < 1000 then 1000 else Number(d)
  }

  /** A setting: rounds, if any, salt, and what is not looked at. */
  ghost predicate IsSetting(s: string, p: ShaSetting, front: string, rest: string) {
    && s == front + (p.salt + rest) && IsFront(s, front, p.rounds)
    && IsSalt(p.salt, rest, 16) && '\n' !in p.salt && ':' !in p.salt
  }

  lemma SafeIs(rounds: Option<nat>, salt: string, rest: string)
    requires IsSalt(salt, rest, 16) && '\n' !in salt && ':' !in salt
    ensures SafeSalt(rounds, salt + rest) == Some(ShaSetting(rounds, salt))
  {
    SaltIs(salt, rest, 16);
  }

  lemma NumberParsed(d: string, x: string)
    requires d != "" && AllDigits(d)
    ensures ParseSha("rounds=" + d + "$" + x)
         == if Number(d) > 9999999 then None else SafeSalt(Some(if Number(d) < 1000 then 1000 else Number(d)), x)
  {
    var s, t := "rounds=" + d + "$" + x, d + ("$" + x);
    assert s[7..] == t;
    RunOfDigits(d, "$" + x);
    assert t[..|d|] == d && t[|d| + 1..] == x;
  }

  lemma ParsesSetting(s: string, p: ShaSetting, front: string, rest: string)
    requires IsSetting(s, p, front, rest)
    ensures ParseSha(s) == Some(p)
  {
    SafeIs(p.rounds, p.salt, rest);
    if p.rounds.None? {
      assert s == p.salt + rest;
    } else {
      var d :| d != "" && AllDigits(d) && front == "rounds=" + d + "$" && Number(d) <= 9999999
        && p.rounds.value == if Number(d) < 1000 then 1000 else Number(d);
      NumberParsed(d, p.salt + rest);
    }
  }

  lemma SplitAt(t: string, n: nat)
    requires n < |t|
    ensures t == t[..n] + [t[n]] + t[n + 1..]
  {
  }

  lemma Digits(t: string, n: nat)
    requires n == DigitRun(t) > 0 && At(t, n) == '$'
    ensures n < |t| && t[..n] != "" && AllDigits(t[..n]) && t == t[..n] + "$" + t[n + 1..]
  {
    SplitAt(t, n);
  }

  lemma FrontIs(s: string, d: string, rounds: nat)
    requires d != "" && AllDigits(d) && Number(d) <= 9999999 && rounds == if Number(d) < 1000 then 1000 else Number(d)
    ensures IsFront(s, "rounds=" + d + "$", Some(rounds))
  {
  }

  lemma SafeSaltIs(rounds: Option<nat>, x: string, p: ShaSetting)
    requires SafeSalt(rounds, x) == Some(p)
    ensures p.rounds == rounds && x == p.salt + x[|p.salt|..] && IsSalt(p.salt, x[|p.salt|..], 16) && '\n' !in p.salt && ':' !in p.salt
  {
    SaltOfIs(x, 16);
  }

  lemma WithFront(d: string, x: string) returns (rest: string)
    requires d != "" && AllDigits(d) && ParseSha("rounds=" + d + "$" + x).Some?
    ensures var s := "rounds=" + d + "$" + x; IsSetting(s, ParseSha(s).value, "rounds=" + d + "$", rest)
  {
    var s := "rounds=" + d + "$" + x;
    var p := ParseSha(s).value;
    NumberParsed(d, x);
    SafeSaltIs(p.rounds, x, p);
    FrontIs(s, d, p.rounds.value);
    rest := x[|p.salt|..];
  }

  lemma NumberGiven(s: string)
    requires "rounds=" <= s && ParseSha(s).Some?
    ensures var t := s[7..]; DigitRun(t) > 0 && At(t, DigitRun(t)) == '$'
  {
  }

  lemma IsParsed(s: string) returns (front: string, rest: string)
    requires ParseSha(s).Some?
    ensures IsSetting(s, ParseSha(s).value, front, rest)
  {
    if "rounds=" <= s {
      var t := s[7..];
      var n := DigitRun(t);
      NumberGiven(s);
      Digits(t, n);
      assert s == "rounds=" + t[..n] + "$" + t[n + 1..];
      front := "rounds=" + t[..n] + "$";
      rest := WithFront(t[..n], t[n + 1..]);
    } else {
      SafeSaltIs(None, s, ParseSha(s).value);
      front, rest := "", s[|ParseSha(s).value.salt|..];
      assert s == front + s;
    }
  }

  /** A setting is parsed exactly if it has that form. */
  lemma ParsesIs(s: string, p: ShaSetting)
    ensures ParseSha(s) == Some(p) <==> exists front, rest :: IsSetting(s, p, front, rest)
  {
    if ParseSha(s) == Some(p) {
      var front, rest := IsParsed(s);
    }
    if exists front, rest :: IsSetting(s, p, front, rest) {
      var front, rest :| IsSetting(s, p, front, rest);
      ParsesSetting(s, p, front, rest);
    }
  }

  /** What follows the prefix in a result: rounds where some were given, salt and digest. */
  ghost predicate IsResult(p: ShaSetting, layout: HashText.Layout, md: seq<byte>, t: string) {
    layout.Sound() && exists front, text ::
      && t == front + p.salt + "$" + text && |text| == 4 * |layout.rows| + |layout.tail| + 1
      && HashText.Read(layout, text) == md
      && if p.rounds.None? then front == "" else front == "rounds=" + Decimal(p.rounds.value) + "$"
  }

  lemma ShaMeans(prefix: string, layout: HashText.Layout, hash: (string, string, nat) -> seq<byte>,
                 key: string, s: string, p: ShaSetting, front: string, rest: string)
    requires layout.Sound() && (forall k, x, r :: |hash(k, x, r)| == layout.size) && IsSetting(s, p, front, rest)
    ensures var r := ShaCrypt(prefix, layout, hash, key, prefix + s);
      && (r.Some? <==> |key| <= 256)
      && (r.Some? ==>
            && prefix <= r.value
            && IsResult(p, layout, hash(key, p.salt, if p.rounds.None? then 5000 else p.rounds.value), r.value[|prefix|..]))
  {
    ParsesSetting(s, p, front, rest);
    assert (prefix + s)[|prefix|..] == s;
    if |key| <= 256 {
      var md := hash(key, p.salt, RoundsOf(p));
      var text, w := HashText.Print(layout, md), WriteRounds(p.rounds);
      HashText.ReadPrint(layout, md);
      var t := w + p.salt + "$" + text;
      assert (prefix + t)[|prefix|..] == t;
      assert IsResult(p, layout, md, t);
    }
  }

  lemma ShaRefuses(prefix: string, layout: HashText.Layout, hash: (string, string, nat) -> seq<byte>, key: string, s: string)
    requires layout.Sound() && (forall k, x, r :: |hash(k, x, r)| == layout.size)
    requires forall p, front, rest :: !IsSetting(s, p, front, rest)
    ensures ShaCrypt(prefix, layout, hash, key, prefix + s).None?
  {
    assert (prefix + s)[|prefix|..] == s;
    if ParseSha(s).Some? {
      var front, rest := IsParsed(s);
      assert false;
    }
  }

  /** sha256crypt and sha512crypt accept keys of up to 256 characters and settings of that form, and
      nothing else; rounds, salt and digest stand in the result. */
  lemma Sha256Means(h: Hashes, key: string, s: string, p: ShaSetting, front: string, rest: string)
    requires h.Sound() && IsSetting(s, p, front, rest)
    ensures var r := Crypt.Crypt(h, key, "$5$" + s);
      && (r.Some? <==> |key| <= 256)
      && (r.Some? ==>
            && "$5$" <= r.value
            && IsResult(p, HashText.SHA256, h.sha256(key, p.salt, if p.rounds.None? then 5000 else p.rounds.value), r.value[3..]))
  {
    SchemeIs("$5$" + s);
    HashText.Sha256Sound();
    ShaMeans("$5$", HashText.SHA256, h.sha256, key, s, p, front, rest);
  }

  lemma Sha512Means(h: Hashes, key: string, s: string, p: ShaSetting, front: string, rest: string)
    requires h.Sound() && IsSetting(s, p, front, rest)
    ensures var r := Crypt.Crypt(h, key, "$6$" + s);
      && (r.Some? <==> |key| <= 256)
      && (r.Some? ==>
            && "$6$" <= r.value
            && IsResult(p, HashText.SHA512, h.sha512(key, p.salt, if p.rounds.None? then 5000 else p.rounds.value), r.value[3..]))
  {
    SchemeIs("$6$" + s);
    HashText.Sha512Sound();
    ShaMeans("$6$", HashText.SHA512, h.sha512, key, s, p, front, rest);
  }

  // ----------------------------------------------------------------------- bcrypt

  /** x selects the reading with the bug, a the safety measure. */
  lemma FlagsAre(c: char)
    ensures BfFlags(c) != 0 <==> c == 'a' || c == 'b' || c == 'x' || c == 'y'
    ensures BfFlags(c) % 2 == 1 <==> c == 'x'
    ensures BfFlags(c) / 2 % 2 == 1 <==> c == 'a'
  {
  }

  /** Letters, as many as n bytes take, can be decoded. */
  lemma {:induction false} LettersDecode(t: string, n: nat)
    requires n > 0 && |t| > n + (n - 1) / 3 && forall i :: 0 <= i <= n + (n - 1) / 3 ==> BlowfishText.Digit(t[i]) < 64
    ensures BlowfishText.Decode(t, n).Some?
    decreases n
  {
    if n > 3 {
      LettersDecode(t[4..], n - 3);
    }
  }

  /** The number of two digits. */
  function Cost(a: char, b: char): nat
    requires IsDigit(a) && IsDigit(b)
  {
    Number([a, b])
  }

  lemma TwoDigits(a: char, b: char)
    requires IsDigit(a) && IsDigit(b)
    ensures Cost(a, b) == 10 * (a as int - '0' as int) + (b as int - '0' as int)
  {
    assert [a, b][..1] == [a] && [a][..0] == "";
    assert Number([a]) == a as int - '0' as int;
  }

  /** The form of a bcrypt setting with digits for the cost. */
  ghost predicate IsBfSetting(s: string) {
    && |s| >= 29 && s[..2] == "$2" && s[2] in "abxy" && s[3] == '$' && s[4] in "01" && IsDigit(s[5]) && s[6] == '$'
    && Cost(s[4], s[5]) >= 4 && forall i :: 7 <= i < 29 ==> BlowfishText.Digit(s[i]) < 64
  }

  lemma CostIs(s: string)
    requires |s| >= 7 && IsDigit(s[4]) && IsDigit(s[5])
    ensures BfShift(s) == Cost(s[4], s[5])
  {
    TwoDigits(s[4], s[5]);
  }

  lemma BfResultIs(h: Hashes, key: string, s: string, salt: seq<byte>, cost: int)
    requires h.Sound() && |s| >= 29 && BlowfishText.Digit(s[28]) < 64 && cost == BfShift(s)
    ensures var t := BfResult(h, key, s, salt);
      && |t| == 60 && t[..28] == s[..28] && BlowfishText.Digit(t[28]) == BlowfishText.Digit(s[28]) / 16 * 16
      && BlowfishText.Decode(t[29..], 23) == Some(h.blowfish(key, BfFlags(s[2]), cost, salt))
  {
    var md := h.blowfish(key, BfFlags(s[2]), cost, salt);
    var t := BfResult(h, key, s, salt);
    ClearedTwice(s[28]);
    BlowfishText.EncodeLength(md);
    BlowfishText.DecodeEncode(md, "");
    Empty(BlowfishText.Encode(md));
    assert t[29..] == BlowfishText.Encode(md);
  }

  lemma BfStarts(s: string)
    requires IsBfSetting(s)
    ensures SchemeOf(s) == Blowfish && Defined(s) && BfShape(s) && BfShift(s) == Cost(s[4], s[5]) >= 4
    ensures BlowfishText.Decode(s[7..], 16).Some?
  {
    assert s[0] == s[..2][0] && s[1] == s[..2][1];
    CostIs(s);
    assert forall i :: 0 <= i <= 21 ==> s[7..][i] == s[i + 7];
    LettersDecode(s[7..], 16);
  }

  /** Such a setting is accepted; the result repeats it up to the last letter of the salt, which loses
      its unused bits, and the digest can be decoded from the rest. */
  lemma BfMeans(h: Hashes, key: string, s: string, salt: seq<byte>)
    requires h.Sound() && IsBfSetting(s) && BlowfishText.Decode(s[7..], 16) == Some(salt)
    ensures Defined(s)
    ensures var r := Crypt.Crypt(h, key, s);
      && r.Some? && |r.value| == 60 && r.value[..28] == s[..28]
      && BlowfishText.Digit(r.value[28]) == BlowfishText.Digit(s[28]) / 16 * 16
      && BlowfishText.Decode(r.value[29..], 23) == Some(h.blowfish(key, BfFlags(s[2]), Cost(s[4], s[5]), salt))
  {
    BfStarts(s);
    BfResultIs(h, key, s, salt, Cost(s[4], s[5]));
  }

  /** And nothing else with digits for the cost is accepted. */
  lemma BfAccepted(h: Hashes, key: string, s: string)
    requires h.Sound() && SchemeOf(s) == Blowfish && Defined(s) && IsDigit(At(s, 4)) && IsDigit(At(s, 5))
    requires Crypt.Crypt(h, key, s).Some?
    ensures IsBfSetting(s)
  {
    forall i | 7 <= i < 29
      ensures i < |s| && BlowfishText.Digit(s[i]) < 64
    {
      DecodedLetters(s[7..], 16, i - 7);
      assert s[7..][i - 7] == s[i];
    }
    CostIs(s);
    assert s[..2] == "$2";
  }

  // -------------------------------------------------------------------------- DES

  lemma SameDigit(a: char, b: char)
    requires HashText.Digit(a) == HashText.Digit(b) < 64
    ensures a == b
  {
  }

  lemma PlaceOf(c: char)
    requires HashText.Digit(c) < 64
    ensures AsciiToBin(c) == HashText.Digit(c)
  {
  }

  /** A character of the alphabet stands for its place, and no other character is accepted. */
  lemma PlaceIs(c: char)
    ensures IsAscii64(c) <==> HashText.Digit(c) < 64
    ensures IsAscii64(c) ==> AsciiToBin(c) == HashText.Digit(c)
  {
    HashText.DigitOfB64(AsciiToBin(c));
    if HashText.Digit(c) < 64 {
      PlaceOf(c);
      SameDigit(c, HashText.B64[AsciiToBin(c)]);
    }
  }

  /** Count and salt are numbers of four digits and of two, the lowest first. */
  lemma FourIs(s: string, i: nat)
    requires i + 4 <= |s| && AllAscii64(s, i, i + 4)
    ensures Four(s, i) == HashText.From64(s[i..i + 4])
  {
    PlaceIs(s[i]);
    PlaceIs(s[i + 1]);
    PlaceIs(s[i + 2]);
    PlaceIs(s[i + 3]);
    var a, b, c, d := s[i], s[i + 1], s[i + 2], s[i + 3];
    assert At(s, i) == a && At(s, i + 1) == b && At(s, i + 2) == c && At(s, i + 3) == d;
    assert s[i..i + 4] == [a, b, c, d];
    FourDigits(a, b, c, d);
  }

  lemma FourDigits(a: char, b: char, c: char, d: char)
    ensures HashText.From64([a, b, c, d])
         == HashText.Digit(a) + 64 * HashText.Digit(b) + 4096 * HashText.Digit(c) + 262144 * HashText.Digit(d)
  {
    assert [a, b, c, d][1..] == [b, c, d] && [b, c, d][1..] == [c, d] && [c, d][1..] == [d] && [d][1..] == "";
    assert HashText.From64([d]) == HashText.Digit(d);
    assert HashText.From64([c, d]) == HashText.Digit(c) + 64 * HashText.From64([d]);
    assert HashText.From64([b, c, d]) == HashText.Digit(b) + 64 * HashText.From64([c, d]);
  }

  lemma TwoIs(a: char, b: char)
    requires IsAscii64(a) && IsAscii64(b)
    ensures Two(a, b) == HashText.From64([a, b])
  {
    PlaceIs(a);
    PlaceIs(b);
    assert [a, b][1..] == [b] && [b][1..] == "";
    assert HashText.From64([b]) == HashText.Digit(b);
  }

  /** A text as a number, the highest digit first. */
  function Big64(t: string): nat {
    if t == "" then 0 else 64 * Big64(t[..|t| - 1]) + HashText.Digit(t[|t| - 1])
  }

  lemma {:induction false} BigBoth(a: string, b: string)
    ensures Big64(a + b) == Big64(a) * HashText.Power64(|b|) + Big64(b)
    decreases |b|
  {
    if b == "" {
      assert a + b == a;
    } else {
      var front, s := b[..|b| - 1], a + b;
      assert s[..|s| - 1] == a + front;
      BigBoth(a, front);
      Scale(Big64(a), 64, HashText.Power64(|front|));
    }
  }

  lemma DigitOf(v: nat)
    ensures HashText.Digit(HashText.B64[v % 64]) == v % 64
  {
    HashText.DigitOfB64(v % 64);
  }

  lemma Big3(a: char, b: char, c: char)
    ensures Big64([a, b, c]) == 4096 * HashText.Digit(a) + 64 * HashText.Digit(b) + HashText.Digit(c)
  {
    assert [a, b, c][..2] == [a, b] && [a, b][..1] == [a] && [a][..0] == "";
    assert Big64([a]) == HashText.Digit(a);
    assert Big64([a, b]) == 64 * Big64([a]) + HashText.Digit(b);
  }

  lemma Big4(a: char, b: char, c: char, d: char)
    ensures Big64([a, b, c, d]) == 262144 * HashText.Digit(a) + 4096 * HashText.Digit(b) + 64 * HashText.Digit(c) + HashText.Digit(d)
  {
    assert [a, b, c, d][..3] == [a, b, c];
    Big3(a, b, c);
  }

  lemma Lowest24(v: nat)
    ensures 262144 * (v / 262144 % 64) + 4096 * (v / 4096 % 64) + 64 * (v / 64 % 64) + v % 64 == v % 0x1000000
  {
    assert v / 64 == 64 * (v / 4096) + v / 64 % 64;
    assert v / 4096 == 64 * (v / 262144) + v / 4096 % 64;
    assert v / 262144 == 64 * (v / 0x1000000) + v / 262144 % 64;
  }

  lemma Lowest18(v: nat)
    ensures 4096 * (v / 4096 % 64) + 64 * (v / 64 % 64) + v % 64 == v % 0x40000
  {
    assert v / 64 == 64 * (v / 4096) + v / 64 % 64;
    assert v / 4096 == 64 * (v / 0x40000) + v / 4096 % 64;
  }

  lemma Text4Is(v: nat)
    ensures Big64(Text4(v)) == v % 0x1000000
  {
    DigitOf(v / 262144);
    DigitOf(v / 4096);
    DigitOf(v / 64);
    DigitOf(v);
    var t := Text4(v);
    Big4(t[0], t[1], t[2], t[3]);
    assert t == [t[0], t[1], t[2], t[3]];
    Lowest24(v);
  }

  lemma Text3Is(v: nat)
    ensures Big64(Text3(v)) == v % 0x40000
  {
    DigitOf(v / 4096);
    DigitOf(v / 64);
    DigitOf(v);
    var t := Text3(v);
    Big3(t[0], t[1], t[2]);
    assert t == [t[0], t[1], t[2]];
    Lowest18(v);
  }

  lemma Powers()
    ensures HashText.Power64(3) == 262144 && HashText.Power64(7) == 262144 * 16777216
  {
    assert HashText.Power64(2) == 4096;
    assert HashText.Power64(3) == 262144;
    assert HashText.Power64(5) == 64 * 64 * HashText.Power64(3);
    assert HashText.Power64(7) == 64 * 64 * HashText.Power64(5);
  }

  function Weighted(a: nat, b: nat, c: nat): nat {
    a % 0x1000000 * (262144 * 16777216) + (b % 0x1000000 * 262144 + c % 0x40000)
  }

  lemma BigParts(a: nat, b: nat, c: nat)
    ensures Big64(Joined(a, b, c)) == Weighted(a, b, c)
  {
    BigBoth(Text4(a), Text4(b) + Text3(c));
    BigBoth(Text4(b), Text3(c));
    Text4Is(a);
    Text4Is(b);
    Text3Is(c);
    Powers();
  }

  /** The eleven characters are the 64 bits of the result and two zeros, the highest first. */
  lemma DesTextIs(hi: nat, lo: nat)
    requires hi < 0x1_0000_0000 && lo < 0x1_0000_0000
    ensures Big64(DesText((hi, lo))) == 4 * (hi * 0x1_0000_0000 + lo)
  {
    BigParts(hi / 256, hi * 65536 + lo / 65536 % 65536, lo * 4);
    Halves(hi, lo);
  }

  lemma Halves(hi: nat, lo: nat)
    requires hi < 0x1_0000_0000 && lo < 0x1_0000_0000
    ensures Weighted(hi / 256, hi * 65536 + lo / 65536 % 65536, lo * 4) == 4 * (hi * 0x1_0000_0000 + lo)
  {
    var h, l := hi % 256, lo % 65536;
    assert hi == 256 * (hi / 256) + h && lo == 65536 * (lo / 65536) + l;
    assert (hi * 65536 + lo / 65536) % 0x1000000 == h * 65536 + lo / 65536;
    assert lo * 4 % 0x40000 == 4 * l;
  }

  /** The traditional form: any two characters but NUL, line feed and colon, and 25 rounds. */
  lemma TraditionalMeans(h: Hashes, key: string, s: string)
    requires h.Sound() && SchemeOf(s) == Des && At(s, 0) != '_'
    ensures var r := Crypt.Crypt(h, key, s);
      && (r.Some? <==> |s| >= 2 && s[0] !in "\0\n:" && s[1] !in "\0\n:")
      && (r.Some? ==> |r.value| == 13 && r.value[..2] == s[..2] && r.value[2..] == DesText(h.des(key, 25, Two(s[0], s[1]))))
  {
  }

  /** The extended form: an underscore, four digits of a count that is not zero, and four of salt. */
  lemma ExtendedMeans(h: Hashes, key: string, s: string)
    requires h.Sound() && At(s, 0) == '_'
    ensures var r := Crypt.Crypt(h, key, s);
      && (r.Some? <==> |s| >= 9 && (forall i :: 1 <= i < 9 ==> HashText.Digit(s[i]) < 64) && HashText.From64(s[1..5]) > 0)
      && (r.Some? ==>
            && |s| >= 9 && |r.value| == 20 && r.value[..9] == s[..9]
            && r.value[9..] == DesText(h.des(key, HashText.From64(s[1..5]), HashText.From64(s[5..9]))))
  {
    assert SchemeOf(s) == Des;
    DigitsAre(s);
    if AllAscii64(s, 1, 9) {
      FourIs(s, 1);
      FourIs(s, 5);
    }
  }

  lemma DigitsAre(s: string)
    ensures AllAscii64(s, 1, 9) <==> |s| >= 9 && forall i :: 1 <= i < 9 ==> HashText.Digit(s[i]) < 64
  {
    forall i | 1 <= i < 9
      ensures IsAscii64(At(s, i)) <==> HashText.Digit(At(s, i)) < 64
    {
      PlaceIs(At(s, i));
    }
    if AllAscii64(s, 1, 9) {
      LongSetting(s);
      forall i | 1 <= i < 9
        ensures HashText.Digit(s[i]) < 64
      {
        assert At(s, i) == s[i] && IsAscii64(At(s, i));
      }
    }
  }
}
