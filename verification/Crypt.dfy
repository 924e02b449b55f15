/** crypt(3) (library/crypt/crypt_r.c and the five schemes behind it): which part of a setting
    each scheme reads and what it writes back.  The hash functions are parameters. */
module Crypt {
  import opened Common
  import opened CryptSetting
  import HashText
  import BlowfishText

  /** The hash functions: of a key, a salt and, where the scheme has one, a cost. */
  datatype Hashes = Hashes(
    md5: (string, string) -> seq<byte>,
    sha256: (string, string, nat) -> seq<byte>,
    sha512: (string, string, nat) -> seq<byte>,
    blowfish: (string, nat, int, seq<byte>) -> seq<byte>,
    des: (string, nat, nat) -> (nat, nat))
  {
    ghost predicate Sound() {
      && (forall k, s :: |md5(k, s)| == 16)
      && (forall k, s, r :: |sha256(k, s, r)| == 32)
      && (forall k, s, r :: |sha512(k, s, r)| == 64)
      && (forall k, f, c, s :: |blowfish(k, f, c, s)| == 23)
    }
  }

  // -------------------------------------------------------------------------- MD5

  const MD5_KEY_MAX := 30000
  const MD5_SALT_MAX := 8

  ghost function Md5Crypt(h: Hashes, key: string, setting: string): Option<string>
    requires h.Sound()
  {
    if |key| > MD5_KEY_MAX || !("$1$" <= setting) then None
    else
      var salt := SaltOf(setting[3..], MD5_SALT_MAX);
      HashText.Md5Sound();
      Some("$1$" + salt + "$" + HashText.Print(HashText.MD5, h.md5(key, salt)))
  }

  lemma Md5Again(h: Hashes, key: string, setting: string)
    requires h.Sound() && Md5Crypt(h, key, setting).Some?
    ensures Md5Crypt(h, key, Md5Crypt(h, key, setting).value) == Md5Crypt(h, key, setting)
  {
    var salt := SaltOf(setting[3..], MD5_SALT_MAX);
    HashText.Md5Sound();
    var text := HashText.Print(HashText.MD5, h.md5(key, salt));
    var s := "$1$" + salt + "$" + text;
    assert s[3..] == salt + "$" + text;
    SaltAgain(setting[3..], MD5_SALT_MAX, text);
  }

  // ------------------------------------------------------------------ SHA-256/512

  const SHA_KEY_MAX := 256
  const SHA_SALT_MAX := 16
  const ROUNDS_DEFAULT := 5000
  const ROUNDS_MIN := 1000
  const ROUNDS_MAX := 9999999
  const ULONG_MAX := 0xffff_ffff

  /** What the SHA schemes read: the number of rounds, if one is given, and the salt. */
  datatype ShaSetting = ShaSetting(rounds: Option<nat>, salt: string)

  function Clamped(u: nat): nat {
    if u < ROUNDS_MIN then ROUNDS_MIN else u
  }

  /** The salt, unless it has characters that are not allowed in a password file. */
  function SafeSalt(rounds: Option<nat>, s: string): Option<ShaSetting> {
    var salt := SaltOf(s, SHA_SALT_MAX);
    if '\n' in salt || ':' in salt then None else Some(ShaSetting(rounds, salt))
  }

  /** The part of a setting after "$5$" or "$6$". */
  function ParseSha(s: string): Option<ShaSetting> {
    if !("rounds=" <= s) then SafeSalt(None, s)
    else
      var t := s[7..];
      var n := DigitRun(t);
      if n == 0 || At(t, n) != '$' then None
      else
        var v := Number(t[..n]);
        var u := if v > ULONG_MAX then ULONG_MAX else v;
        if u > ROUNDS_MAX then None else SafeSalt(Some(Clamped(u)), t[n + 1..])
  }

  function WriteRounds(rounds: Option<nat>): string {
    match rounds
    case None => ""
    case Some(r) => "rounds=" + Decimal(r) + "$"
  }

  function RoundsOf(p: ShaSetting): nat {
    match p.rounds
    case None => ROUNDS_DEFAULT
    case Some(r) => r
  }

  lemma WithRounds(r: nat, rest: string)
    requires ROUNDS_MIN <= r <= ROUNDS_MAX
    ensures ParseSha("rounds=" + Decimal(r) + "$" + rest) == SafeSalt(Some(r), rest)
  {
    var s, t := "rounds=" + Decimal(r) + "$" + rest, Decimal(r) + ("$" + rest);
    assert s[7..] == t;
    RunOfDigits(Decimal(r), "$" + rest);
    NumberOfDecimal(r);
    assert t[..|Decimal(r)|] == Decimal(r) && t[|Decimal(r)| + 1..] == rest;
  }

  lemma SafeSaltAgain(rounds: Option<nat>, s: string, text: string)
    requires SafeSalt(rounds, s).Some?
    ensures SafeSalt(rounds, SaltOf(s, SHA_SALT_MAX) + "$" + text) == SafeSalt(rounds, s)
  {
    SaltAgain(s, SHA_SALT_MAX, text);
  }

  /** A salt that does not start with "rounds=" does not do so when it is written back. */
  lemma NoRounds(s: string, text: string)
    requires !("rounds=" <= s)
    ensures !("rounds=" <= SaltOf(s, SHA_SALT_MAX) + "$" + text)
  {
    var salt := SaltOf(s, SHA_SALT_MAX);
    var t := salt + "$" + text;
    if |salt| < 7 {
      assert t[|salt|] == '$';
    } else {
      assert t[..7] == salt[..7] == s[..7];
    }
  }

  /** Clamped and zero-prefixed rounds included, what was written is parsed as what was read. */
  lemma ParseAgain(s: string, text: string)
    requires ParseSha(s).Some?
    ensures var p := ParseSha(s).value; ParseSha(WriteRounds(p.rounds) + p.salt + "$" + text) == Some(p)
  {
    var p := ParseSha(s).value;
    var rest := p.salt + "$" + text;
    if "rounds=" <= s {
      var t := s[7..];
      var x := t[DigitRun(t) + 1..];
      SafeSaltAgain(p.rounds, x, text);
      WithRounds(p.rounds.value, rest);
      assert WriteRounds(p.rounds) + p.salt + "$" + text == "rounds=" + Decimal(p.rounds.value) + "$" + rest;
    } else {
      NoRounds(s, text);
      SafeSaltAgain(None, s, text);
      assert WriteRounds(None) + p.salt + "$" + text == rest;
    }
  }

  /** sha256crypt and sha512crypt, which differ in prefix, hash and layout. */
  ghost function ShaCrypt(prefix: string, layout: HashText.Layout, hash: (string, string, nat) -> seq<byte>,
                          key: string, setting: string): Option<string>
    requires layout.Sound() && forall k, s, r :: |hash(k, s, r)| == layout.size
  {
    if |key| > SHA_KEY_MAX || !(prefix <= setting) then None
    else
      match ParseSha(setting[|prefix|..])
      case None => None
      case Some(p) =>
        Some(prefix + (WriteRounds(p.rounds) + p.salt + "$" + HashText.Print(layout, hash(key, p.salt, RoundsOf(p)))))
  }

  lemma ShaAgain(prefix: string, layout: HashText.Layout, hash: (string, string, nat) -> seq<byte>,
                 key: string, setting: string)
    requires layout.Sound() && forall k, s, r :: |hash(k, s, r)| == layout.size
    requires ShaCrypt(prefix, layout, hash, key, setting).Some?
    ensures ShaCrypt(prefix, layout, hash, key, ShaCrypt(prefix, layout, hash, key, setting).value)
         == ShaCrypt(prefix, layout, hash, key, setting)
  {
    var p := ParseSha(setting[|prefix|..]).value;
    var text := HashText.Print(layout, hash(key, p.salt, RoundsOf(p)));
    var body := WriteRounds(p.rounds) + p.salt + "$" + text;
    assert (prefix + body)[|prefix|..] == body;
    ParseAgain(setting[|prefix|..], text);
  }

  // ----------------------------------------------------------------------- bcrypt

  /** flags_by_subtype. */
  function BfFlags(c: char): nat {
    if c == 'a' then 2 else if c == 'b' || c == 'y' then 4 else if c == 'x' then 1 else 0
  }

  /** The logarithm of the cost. */
  function BfShift(s: string): int {
    (At(s, 4) as int - '0' as int) * 10 + (At(s, 5) as int - '0' as int)
  }

  /** The first four characters pass the tests of BF_crypt. */
  predicate BfStart(s: string) {
    At(s, 0) == '$' && At(s, 1) == '2' && BfFlags(At(s, 2)) != 0 && At(s, 3) == '$'
  }

  predicate BfShape(s: string) {
    BfStart(s) && At(s, 4) <= '1' && At(s, 5) <= '9' && At(s, 6) == '$'
  }

  /** The comparisons of BF_crypt are between signed numbers.  A subtype below 'a' would be used as
      a negative index and a negative cost as a shift distance; and the terminator passes as a digit
      of the cost, so that the characters after it would be read. */
  predicate BfDefined(s: string) {
    && (At(s, 0) == '$' && At(s, 1) == '2' ==> At(s, 2) >= 'a')
    && (BfStart(s) ==> At(s, 4) != '\0' && (At(s, 4) <= '1' ==> At(s, 5) != '\0'))
    && (BfShape(s) ==> BfShift(s) >= 0)
  }

  /** A text from which 16 bytes can be decoded has 22 letters. */
  lemma {:induction false} DecodedLetters(t: string, n: nat, i: nat)
    requires n > 0 && BlowfishText.Decode(t, n).Some? && i <= n + (n - 1) / 3
    ensures i < |t| && BlowfishText.Digit(t[i]) < 64
    decreases n
  {
    if n > 3 && i >= 4 {
      DecodedLetters(t[4..], n - 3, i - 4);
    }
  }

  function BfCrypt(h: Hashes, key: string, s: string): Option<string>
    requires BfDefined(s)
  {
    if !BfShape(s) || BfShift(s) < 4 then None
    else
      match BlowfishText.Decode(s[7..], 16)
      case None => None
      case Some(salt) =>
        DecodedLetters(s[7..], 16, 21);
        assert s[7..][21] == s[28];
        Some(BfResult(h, key, s, salt))
  }

  function BfResult(h: Hashes, key: string, s: string, salt: seq<byte>): string
    requires |s| >= 29 && BlowfishText.Digit(s[28]) < 64
  {
    s[..28] + [Cleared(s[28])] + BlowfishText.Encode(h.blowfish(key, BfFlags(s[2]), BfShift(s), salt))
  }

  /** The last letter of a salt with the bits that do not belong to it cleared. */
  function Cleared(c: char): char
    requires BlowfishText.Digit(c) < 64
  {
    BlowfishText.Letter(BlowfishText.Digit(c) / 16 * 16)
  }

  lemma BfKept(s: string, t: string)
    requires |s| >= 28 && |t| >= 28 && s[..28] == t[..28]
    ensures forall i :: 0 <= i < 28 ==> At(s, i) == At(t, i)
    ensures BfShape(s) == BfShape(t) && BfShift(s) == BfShift(t) && BfDefined(s) == BfDefined(t)
  {
    forall i | 0 <= i < 28
      ensures s[i] == t[i]
    {
      assert s[i] == s[..28][i] == t[..28][i];
    }
  }

  lemma SaltKept(s: string, t: string)
    requires |s| >= 29 && |t| >= 29 && s[..28] == t[..28]
    requires BlowfishText.Digit(s[28]) < 64 && BlowfishText.Digit(t[28]) == BlowfishText.Digit(s[28]) / 16 * 16
    ensures BlowfishText.Decode(s[7..], 16) == BlowfishText.Decode(t[7..], 16)
  {
    assert s[7..][..21] == s[..28][7..] == t[..28][7..] == t[7..][..21];
    assert s[7..][21] == s[28] && t[7..][21] == t[28];
    BlowfishText.IsCleared(s[7..], t[7..], 5, 21);
    BlowfishText.DecodeCleared(s[7..], t[7..], 5, 16);
  }

  lemma ClearedTwice(c: char)
    requires BlowfishText.Digit(c) < 64
    ensures BlowfishText.Digit(Cleared(c)) == BlowfishText.Digit(c) / 16 * 16
    ensures Cleared(Cleared(c)) == Cleared(c)
  {
    BlowfishText.DigitOfLetter(BlowfishText.Digit(c) / 16 * 16);
  }

  lemma BfResultAgain(h: Hashes, key: string, s: string, salt: seq<byte>)
    requires |s| >= 29 && BlowfishText.Digit(s[28]) < 64
    ensures var t := BfResult(h, key, s, salt);
      && |t| >= 29 && t[..28] == s[..28] && t[28] == Cleared(s[28])
      && BlowfishText.Digit(t[28]) < 64 && BfResult(h, key, t, salt) == t
  {
    var t := BfResult(h, key, s, salt);
    ClearedTwice(s[28]);
    assert t[..28] == s[..28] && t[28] == Cleared(s[28]);
    BfKept(s, t);
  }

  lemma BfAgain(h: Hashes, key: string, s: string)
    requires BfDefined(s) && BfCrypt(h, key, s).Some?
    ensures BfDefined(BfCrypt(h, key, s).value)
    ensures BfCrypt(h, key, BfCrypt(h, key, s).value) == BfCrypt(h, key, s)
  {
    var salt := BlowfishText.Decode(s[7..], 16).value;
    DecodedLetters(s[7..], 16, 21);
    assert s[7..][21] == s[28];
    var t := BfResult(h, key, s, salt);
    BfResultAgain(h, key, s, salt);
    BfKept(s, t);
    ClearedTwice(s[28]);
    SaltKept(s, t);
  }

  // -------------------------------------------------------------------------- DES

  /** ascii_to_bin: characters above 0x7f count as negative. */
  function AsciiToBin(c: char): (v: nat)
    ensures v < 64
  {
    var ch := c as int;
    var sch := if ch < 0x80 then ch else ch - 0x100;
    (if sch >= 'a' as int then sch - ('a' as int - 38)
     else if sch >= 'A' as int then sch - ('A' as int - 12)
     else sch - '.' as int) % 64
  }

  /** A character that stands for a number in an extended setting. */
  predicate IsAscii64(c: char) {
    HashText.B64[AsciiToBin(c)] == c
  }

  predicate Unsafe(c: char) {
    c == '\0' || c == '\n' || c == ':'
  }

  /** Four characters as a number, the lowest digit first. */
  function Four(s: string, i: nat): nat {
    AsciiToBin(At(s, i)) + 64 * AsciiToBin(At(s, i + 1)) + 4096 * AsciiToBin(At(s, i + 2))
    + 262144 * AsciiToBin(At(s, i + 3))
  }

  predicate AllAscii64(s: string, from: nat, to: nat) {
    forall i :: from <= i < to ==> IsAscii64(At(s, i))
  }

  /** The lowest 24 bits of a number as four characters and the lowest 18 as three, highest first. */
  function Text4(v: nat): (t: string)
    ensures |t| == 4
  {
    [HashText.B64[v / 262144 % 64], HashText.B64[v / 4096 % 64], HashText.B64[v / 64 % 64], HashText.B64[v % 64]]
  }

  function Text3(v: nat): (t: string)
    ensures |t| == 3
  {
    [HashText.B64[v / 4096 % 64], HashText.B64[v / 64 % 64], HashText.B64[v % 64]]
  }

  function Joined(a: nat, b: nat, c: nat): (t: string)
    ensures |t| == 11
  {
    Text4(a) + (Text4(b) + Text3(c))
  }

  /** The eleven characters of the two result words. */
  function DesText(r: (nat, nat)): (t: string)
    ensures |t| == 11
  {
    Joined(r.0 / 256, r.0 * 65536 + r.1 / 65536 % 65536, r.1 * 4)
  }

  /** New style: four characters of count and four of salt after an underscore. */
  function Extended(h: Hashes, key: string, s: string): Option<string> {
    if !AllAscii64(s, 1, 9) || Four(s, 1) == 0 then None
    else
      LongSetting(s);
      Some(s[..9] + DesText(h.des(key, Four(s, 1), Four(s, 5))))
  }

  function Two(a: char, b: char): nat {
    64 * AsciiToBin(b) + AsciiToBin(a)
  }

  /** Old style: two characters of salt. */
  function Traditional(h: Hashes, key: string, s: string): Option<string> {
    if Unsafe(At(s, 0)) || Unsafe(At(s, 1)) then None
    else Some(s[..2] + DesText(h.des(key, 25, Two(At(s, 0), At(s, 1)))))
  }

  function DesCrypt(h: Hashes, key: string, s: string): Option<string> {
    if At(s, 0) == '_' then Extended(h, key, s) else Traditional(h, key, s)
  }

  /** The terminator is no digit, so an accepted extended setting has nine characters. */
  lemma LongSetting(s: string)
    requires AllAscii64(s, 1, 9)
    ensures |s| >= 9
  {
    assert HashText.B64[18] == 'G';
    assert IsAscii64(At(s, 8));
  }

  lemma DesKept(s: string, rest: string, n: nat)
    requires n <= |s|
    ensures (s[..n] + rest)[..n] == s[..n]
    ensures forall i :: 0 <= i < n ==> At(s, i) == At(s[..n] + rest, i)
  {
  }

  lemma FourKept(s: string, t: string)
    requires forall i :: 0 <= i < 9 ==> At(s, i) == At(t, i)
    ensures Four(s, 1) == Four(t, 1) && Four(s, 5) == Four(t, 5) && AllAscii64(s, 1, 9) == AllAscii64(t, 1, 9)
  {
  }

  lemma ExtendedAgain(h: Hashes, key: string, s: string)
    requires Extended(h, key, s).Some?
    ensures var t := Extended(h, key, s).value; At(t, 0) == At(s, 0) && Extended(h, key, t) == Some(t)
  {
    LongSetting(s);
    var rest := DesText(h.des(key, Four(s, 1), Four(s, 5)));
    DesKept(s, rest, 9);
    FourKept(s, s[..9] + rest);
  }

  lemma TraditionalAgain(h: Hashes, key: string, s: string)
    requires Traditional(h, key, s).Some?
    ensures var t := Traditional(h, key, s).value; At(t, 0) == At(s, 0) && Traditional(h, key, t) == Some(t)
  {
    DesKept(s, DesText(h.des(key, 25, Two(At(s, 0), At(s, 1)))), 2);
  }

  lemma DesAgain(h: Hashes, key: string, s: string)
    requires DesCrypt(h, key, s).Some?
    ensures DesCrypt(h, key, DesCrypt(h, key, s).value) == DesCrypt(h, key, s)
  {
    if At(s, 0) == '_' {
      ExtendedAgain(h, key, s);
    } else {
      TraditionalAgain(h, key, s);
    }
  }

  // --------------------------------------------------------------------- dispatch

  datatype Scheme = Md5 | Blowfish | Sha256 | Sha512 | Des

  /** crypt_r's branches. */
  function SchemeOf(s: string): Scheme {
    if At(s, 0) == '$' && At(s, 1) != '\0' && At(s, 2) != '\0' then
      if At(s, 1) == '1' && At(s, 2) == '$' then Md5
      else if At(s, 1) == '2' && At(s, 3) == '$' then Blowfish
      else if At(s, 1) == '5' && At(s, 2) == '$' then Sha256
      else if At(s, 1) == '6' && At(s, 2) == '$' then Sha512
      else Des
    else Des
  }

  predicate Defined(s: string) {
    SchemeOf(s) == Blowfish ==> BfDefined(s)
  }

  /** Settings that reach BF_crypt and are not defined there: an upper-case subtype is used as an
      index of -32, and a cost of "/9" as a shift by -1. */
  lemma UndefinedIndex(rest: string)
    ensures var s := "$2A$05$" + rest;
      SchemeOf(s) == Blowfish && At(s, 2) as int - 'a' as int == -32 && !Defined(s)
  {
    var s := "$2A$05$" + rest;
    assert At(s, 0) == '$' && At(s, 1) == '2' && At(s, 2) == 'A' && At(s, 3) == '$';
  }

  lemma UndefinedShift(rest: string)
    ensures var s := "$2a$/9$" + rest;
      SchemeOf(s) == Blowfish && BfShape(s) && BfShift(s) == -1 && !Defined(s)
  {
    var s := "$2a$/9$" + rest;
    assert At(s, 0) == '$' && At(s, 1) == '2' && At(s, 2) == 'a' && At(s, 3) == '$';
    assert At(s, 4) == '/' && At(s, 5) == '9' && At(s, 6) == '$';
  }

  /** Settings that end where the cost should be: they reach BF_crypt, the terminator passes, and
      the next character that is read lies behind it. */
  lemma UndefinedEnd(subtype: char, digit: char)
    requires BfFlags(subtype) != 0 && '\0' < digit <= '1'
    ensures var s := ['$', '2', subtype, '$'];
      SchemeOf(s) == Blowfish && BfStart(s) && At(s, 4) == '\0' && |s| == 4 && !Defined(s)
    ensures var s := ['$', '2', subtype, '$', digit];
      SchemeOf(s) == Blowfish && BfStart(s) && At(s, 4) <= '1' && At(s, 5) == '\0' && |s| == 5 && !Defined(s)
  {
  }

  /** crypt, or None where the C code returns "*". */
  ghost function Crypt(h: Hashes, key: string, s: string): Option<string>
    requires h.Sound() && Defined(s)
  {
    match SchemeOf(s)
    case Md5 => Md5Crypt(h, key, s)
    case Blowfish => BfCrypt(h, key, s)
    case Sha256 => HashText.Sha256Sound(); ShaCrypt("$5$", HashText.SHA256, h.sha256, key, s)
    case Sha512 => HashText.Sha512Sound(); ShaCrypt("$6$", HashText.SHA512, h.sha512, key, s)
    case Des => DesCrypt(h, key, s)
  }

  lemma NoDollar(c: char)
    requires c in HashText.B64
    ensures c != '$'
  {
    var i :| 0 <= i < |HashText.B64| && HashText.B64[i] == c;
    HashText.DigitOfB64(i);
  }

  lemma NoDollarInText(r: (nat, nat))
    ensures DesText(r)[0] != '$' && DesText(r)[1] != '$'
  {
    NoDollar(DesText(r)[0]);
    NoDollar(DesText(r)[1]);
  }

  lemma DesStaysDes(h: Hashes, key: string, s: string)
    requires DesCrypt(h, key, s).Some?
    ensures SchemeOf(DesCrypt(h, key, s).value) == Des
  {
    var t := DesCrypt(h, key, s).value;
    if At(s, 0) == '_' {
      ExtendedAgain(h, key, s);
    } else {
      NoDollarInText(h.des(key, 25, Two(At(s, 0), At(s, 1))));
    }
  }

  /** The verification contract of crypt(3): hashing a key again with the result as the setting
      selects the same scheme, parses the same salt and cost and gives the same result. */
  lemma CryptAgain(h: Hashes, key: string, s: string)
    requires h.Sound() && Defined(s) && Crypt(h, key, s).Some?
    ensures var t := Crypt(h, key, s).value;
      SchemeOf(t) == SchemeOf(s) && Defined(t) && Crypt(h, key, t) == Some(t)
  {
    match SchemeOf(s)
    case Md5 => Md5Again(h, key, s);
    case Blowfish =>
      BfAgain(h, key, s);
      BfStaysBf(h, key, s);
    case Sha256 =>
      HashText.Sha256Sound();
      ShaAgain("$5$", HashText.SHA256, h.sha256, key, s);
    case Sha512 =>
      HashText.Sha512Sound();
      ShaAgain("$6$", HashText.SHA512, h.sha512, key, s);
    case Des =>
      DesAgain(h, key, s);
      DesStaysDes(h, key, s);
  }

  lemma BfStaysBf(h: Hashes, key: string, s: string)
    requires BfDefined(s) && BfCrypt(h, key, s).Some? && SchemeOf(s) == Blowfish
    ensures SchemeOf(BfCrypt(h, key, s).value) == Blowfish
  {
    DecodedLetters(s[7..], 16, 21);
    BfKept(s, BfCrypt(h, key, s).value);
  }

  lemma ShaLength(prefix: string, layout: HashText.Layout, hash: (string, string, nat) -> seq<byte>,
                  key: string, s: string)
    requires layout.Sound() && forall k, x, r :: |hash(k, x, r)| == layout.size
    requires ShaCrypt(prefix, layout, hash, key, s).Some?
    ensures |ShaCrypt(prefix, layout, hash, key, s).value|
         <= |prefix| + 15 + 16 + 1 + (4 * |layout.rows| + |layout.tail| + 1)
  {
    var p := ParseSha(s[|prefix|..]).value;
    if p.rounds.Some? {
      assert Power10(4) == 10000 && Power10(7) == 10000000;
      DecimalLength(p.rounds.value, 7);
    }
  }

  lemma BfLength(h: Hashes, key: string, s: string)
    requires h.Sound() && BfDefined(s) && BfCrypt(h, key, s).Some?
    ensures |BfCrypt(h, key, s).value| == 60
  {
    var salt := BlowfishText.Decode(s[7..], 16).value;
    DecodedLetters(s[7..], 16, 21);
    BlowfishText.EncodeLength(h.blowfish(key, BfFlags(s[2]), BfShift(s), salt));
  }

  /** Every result fits the 128 bytes of crypt's static buffer with its terminator. */
  lemma CryptFits(h: Hashes, key: string, s: string)
    requires h.Sound() && Defined(s) && Crypt(h, key, s).Some?
    ensures |Crypt(h, key, s).value| + 1 <= 128
  {
    match SchemeOf(s)
    case Md5 => HashText.Md5Sound();
    case Blowfish => BfLength(h, key, s);
    case Sha256 =>
      HashText.Sha256Sound();
      ShaLength("$5$", HashText.SHA256, h.sha256, key, s);
    case Sha512 =>
      HashText.Sha512Sound();
      ShaLength("$6$", HashText.SHA512, h.sha512, key, s);
    case Des => LongestDes(h, key, s);
  }

  lemma LongestDes(h: Hashes, key: string, s: string)
    requires DesCrypt(h, key, s).Some?
    ensures |DesCrypt(h, key, s).value| == if At(s, 0) == '_' then 20 else 13
  {
    if At(s, 0) == '_' {
      LongSetting(s);
    }
  }
}
