/** The settings of the crypt schemes: how rounds and salts are parsed and written
    (library/crypt/crypt_md5.c, crypt_sha256.c, crypt_sha512.c). */
module CryptSetting {
  import opened Arith
  import opened Common

  /** Character i of a C string; the terminator stands at the end. */
  function At(s: string, i: nat): char {
    if i < |s| then s[i] else '\0'
  }

  // --------------------------------------------------------------------- numbers

  predicate IsDigit(c: char) {
    '0' <= c <= '9'
  }

  ghost predicate AllDigits(s: string) {
    forall i :: 0 <= i < |s| ==> IsDigit(s[i])
  }

  /** The length of the run of digits that strtoul reads. */
  function DigitRun(s: string): (n: nat)
    ensures n <= |s| && (forall i :: 0 <= i < n ==> IsDigit(s[i])) && !IsDigit(At(s, n))
  {
    if s == "" || !IsDigit(s[0]) then 0 else 1 + DigitRun(s[1..])
  }

  function Number(s: string): nat
    requires AllDigits(s)
  {
    if s == "" then 0 else 10 * Number(s[..|s| - 1]) + (s[|s| - 1] as int - '0' as int)
  }

  /** "%u". */
  function Decimal(n: nat): (s: string)
    ensures |s| > 0 && AllDigits(s)
  {
    if n < 10 then [('0' as int + n) as char] else Decimal(n / 10) + [('0' as int + n % 10) as char]
  }

  lemma {:induction false} NumberOfDecimal(n: nat)
    ensures Number(Decimal(n)) == n
  {
    if n >= 10 {
      NumberOfDecimal(n / 10);
      var s := Decimal(n);
      assert s[..|s| - 1] == Decimal(n / 10);
    } else {
      assert Decimal(n)[..0] == "";
    }
  }

  function Power10(k: nat): nat {
    if k == 0 then 1 else 10 * Power10(k - 1)
  }

  lemma {:induction false} DecimalLength(n: nat, k: nat)
    requires k > 0 && n < Power10(k)
    ensures |Decimal(n)| <= k
    decreases k
  {
    if k > 1 && n >= 10 {
      DecimalLength(n / 10, k - 1);
    }
  }

  /** Digits count by their places. */
  lemma {:induction false} NumberBoth(a: string, b: string)
    requires AllDigits(a) && AllDigits(b)
    ensures Number(a + b) == Number(a) * Power10(|b|) + Number(b)
    ensures |b| == 1 ==> Number(b) == b[0] as int - '0' as int
    decreases |b|
  {
    if b == "" {
      assert a + b == a;
    } else {
      var front, s := b[..|b| - 1], a + b;
      assert s[..|s| - 1] == a + front;
      NumberBoth(a, front);
      assert |b| == 1 ==> front == "";
      Scale(Number(a), 10, Power10(|front|));
    }
  }

  /** Digits that are followed by something else are read as a whole. */
  lemma {:induction false} RunOfDigits(d: string, rest: string)
    requires AllDigits(d) && !IsDigit(At(rest, 0))
    ensures DigitRun(d + rest) == |d|
    decreases |d|
  {
    if d != "" {
      assert (d + rest)[1..] == d[1..] + rest;
      RunOfDigits(d[1..], rest);
    } else {
      assert d + rest == rest;
    }
  }

  // ----------------------------------------------------------------------- salts

  /** Everything up to a dollar sign, but no more than max characters. */
  function SaltOf(s: string, max: nat): (salt: string)
    ensures |salt| <= max && salt <= s && '$' !in salt
  {
    if max == 0 || s == "" || s[0] == '$' then "" else [s[0]] + SaltOf(s[1..], max - 1)
  }

  /** It ends only where it must. */
  lemma {:induction false} SaltEnds(s: string, max: nat)
    ensures var n := |SaltOf(s, max)|; n == max || n == |s| || s[n] == '$'
    decreases max
  {
    if max > 0 && s != "" && s[0] != '$' {
      SaltEnds(s[1..], max - 1);
    }
  }

  /** Parsing a salt that was written back gives the same salt. */
  lemma {:induction false} SaltAgain(s: string, max: nat, rest: string)
    ensures SaltOf(SaltOf(s, max) + "$" + rest, max) == SaltOf(s, max)
    decreases max
  {
    var t := SaltOf(s, max) + "$" + rest;
    if max == 0 || s == "" || s[0] == '$' {
      assert t[0] == '$';
    } else {
      assert t[1..] == SaltOf(s[1..], max - 1) + "$" + rest;
      SaltAgain(s[1..], max - 1, rest);
    }
  }

  /** The loop that scans for the end of a salt. */
  method ScanSalt(s: string, max: nat) returns (n: nat)
    ensures n <= |s| && s[..n] == SaltOf(s, max)
  {
    n := 0;
    assert s[n..] == s;
    while n < max && n < |s| && s[n] != '$'
      invariant n <= |s| && n <= max && s[..n] + SaltOf(s[n..], max - n) == SaltOf(s, max)
    {
      assert s[..n] + ([s[n]] + SaltOf(s[n..][1..], max - n - 1)) == s[..n + 1] + SaltOf(s[n + 1..], max - n - 1);
      n := n + 1;
    }
  }
}
