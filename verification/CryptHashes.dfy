/** The SHA-crypt and MD5-crypt schemes from end to end (library/crypt/crypt_sha256.c,
    crypt_sha512.c, crypt_md5.c): the setting is parsed, the key stretched, the digest written. */
module CryptHashes {
  import opened Common
  import opened CryptSetting
  import opened Digest
  import opened ShaCrypt
  import HashText
  import C = Crypt

  /** The bytes of a C string. */
  function Chars(s: string): (b: seq<byte>)
    ensures |b| == |s|
  {
    seq(|s|, i requires 0 <= i < |s| => s[i] as int % 256)
  }

  function Salt16(s: string): (t: string)
    ensures |t| <= 16 && (|s| <= 16 ==> t == s)
  {
    if |s| <= 16 then s else s[..16]
  }

  ghost function ShaHash<H(!new)>(alg: Alg<H>): (string, string, nat) -> seq<byte>
    requires Sized(alg)
  {
    (k, s, r) => ShaDigest(alg, Chars(k), Chars(Salt16(s)), r)
  }

  ghost function Md5Hash<H(!new)>(alg: Alg<H>): (string, string) -> seq<byte>
    requires Sized(alg)
  {
    (k, s) => Md5Digest(alg, Chars("$1$"), Chars(k), Chars(s))
  }

  /** Characters of one byte are that byte. */
  lemma CharsAre(s: string, i: nat)
    requires i < |s| && s[i] as int < 256
    ensures Chars(s)[i] == s[i] as int
  {
  }

  lemma PrefixIs()
    ensures Chars("$1$") == [0x24, 0x31, 0x24]
  {
  }

  /** The digests that crypt writes are those of the transcripts; the one of md5crypt starts with the
      key and "$1$". */
  lemma Md5HashIs<H(!new)>(alg: Alg<H>, key: string, salt: string) returns (t: Transcript)
    requires Sized(alg)
    ensures Md5Steps(alg, [0x24, 0x31, 0x24], Chars(key), Chars(salt), t) && Md5Hash(alg)(key, salt) == t.digests[1000]
  {
    PrefixIs();
    t := Md5Transcript(alg, [0x24, 0x31, 0x24], Chars(key), Chars(salt));
  }

  lemma ShaHashIs<H(!new)>(alg: Alg<H>, key: string, salt: string, rounds: nat) returns (t: Transcript)
    requires Sized(alg) && |salt| <= 16
    ensures ShaSteps(alg, Chars(key), Chars(salt), rounds, t) && ShaHash(alg)(key, salt, rounds) == t.digests[rounds]
  {
    t := ShaTranscript(alg, Chars(key), Chars(salt), rounds);
  }

  /** The hash functions of crypt for the digests that were modelled; bcrypt and DES are given. */
  ghost function HashesOf<A(!new), B(!new), D(!new)>(
      md5: Alg<A>, sha256: Alg<B>, sha512: Alg<D>,
      blowfish: (string, nat, int, seq<byte>) -> seq<byte>, des: (string, nat, nat) -> (nat, nat)): (h: C.Hashes)
    requires Sized(md5) && md5.size == 16 && Sized(sha256) && sha256.size == 32 && Sized(sha512) && sha512.size == 64
    requires forall k, f, c, s :: |blowfish(k, f, c, s)| == 23
    ensures h.Sound()
  {
    C.Hashes(Md5Hash(md5), ShaHash(sha256), ShaHash(sha512), blowfish, des)
  }

  method ShaText<H(!new)>(alg: Alg<H>, layout: HashText.Layout, key: string, p: C.ShaSetting) returns (text: string)
    requires Sized(alg) && layout.Sound() && alg.size == layout.size && |p.salt| <= 16
    ensures text == HashText.Print(layout, ShaHash(alg)(key, p.salt, C.RoundsOf(p)))
  {
    var md := ShaStretch(alg, Chars(key), Chars(p.salt), C.RoundsOf(p));
    text := HashText.PrintDigest(layout, md);
  }

  /** sha256crypt and sha512crypt: what is computed is the result that crypt verifies against. */
  method ShaCryptOf<H(!new)>(alg: Alg<H>, prefix: string, layout: HashText.Layout, key: string, setting: string)
    returns (r: Option<string>)
    requires Sized(alg) && layout.Sound() && alg.size == layout.size
    ensures r == C.ShaCrypt(prefix, layout, ShaHash(alg), key, setting)
    ensures r.Some? ==> C.ShaCrypt(prefix, layout, ShaHash(alg), key, r.value) == r
  {
    if |key| > C.SHA_KEY_MAX || !(prefix <= setting) {
      return None;
    }
    match C.ParseSha(setting[|prefix|..])
    case None => return None;
    case Some(p) =>
      var text := ShaText(alg, layout, key, p);
      r := Some(prefix + (C.WriteRounds(p.rounds) + p.salt + "$" + text));
      C.ShaAgain(prefix, layout, ShaHash(alg), key, setting);
  }

  /** md5crypt likewise. */
  method Md5CryptOf<H(!new)>(alg: Alg<H>, key: string, setting: string, ghost h: C.Hashes) returns (r: Option<string>)
    requires Sized(alg) && alg.size == 16 && h.Sound() && h.md5 == Md5Hash(alg)
    ensures r == C.Md5Crypt(h, key, setting)
    ensures r.Some? ==> C.Md5Crypt(h, key, r.value) == r
  {
    if |key| > C.MD5_KEY_MAX || !("$1$" <= setting) {
      return None;
    }
    var salt := SaltOf(setting[3..], C.MD5_SALT_MAX);
    HashText.Md5Sound();
    var md := Md5Stretch(alg, Chars("$1$"), Chars(key), Chars(salt));
    var text := HashText.PrintDigest(HashText.MD5, md);
    r := Some("$1$" + salt + "$" + text);
    C.Md5Again(h, key, setting);
  }

  /** crypt with these digests accepts its own results. */
  lemma HashedAgain<A(!new), B(!new), D(!new)>(
      md5: Alg<A>, sha256: Alg<B>, sha512: Alg<D>,
      blowfish: (string, nat, int, seq<byte>) -> seq<byte>, des: (string, nat, nat) -> (nat, nat), key: string, s: string)
    requires Sized(md5) && md5.size == 16 && Sized(sha256) && sha256.size == 32 && Sized(sha512) && sha512.size == 64
    requires (forall k, f, c, x :: |blowfish(k, f, c, x)| == 23) && C.Defined(s)
    ensures var h := HashesOf(md5, sha256, sha512, blowfish, des);
      C.Crypt(h, key, s).Some? ==> C.Defined(C.Crypt(h, key, s).value) && C.Crypt(h, key, C.Crypt(h, key, s).value) == C.Crypt(h, key, s)
  {
    var h := HashesOf(md5, sha256, sha512, blowfish, des);
    if C.Crypt(h, key, s).Some? {
      C.CryptAgain(h, key, s);
    }
  }
}
