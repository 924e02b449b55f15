/** BF_set_key (library/crypt/crypt_blowfish.c): the key schedule of bcrypt, with the emulated
    sign extension bug and the safety measure against its collisions. */
module BlowfishKey {
  import opened Arith

  /** A key has no NUL; BF_set_key reads it over and over together with its terminator. */
  type Key = s: seq<bv8> | forall i :: 0 <= i < |s| ==> s[i] != 0

  function KeyByte(key: Key, pos: nat): bv8
    requires pos <= |key|
  {
    if pos < |key| then key[pos] else 0
  }

  /** The position of the byte read after the one at pos. */
  function After(key: Key, pos: nat): nat
    requires pos <= |key|
  {
    if pos == |key| then 0 else pos + 1
  }

  /** The position of the n-th byte read. */
  function Position(key: Key, n: nat): (pos: nat)
    ensures pos <= |key|
  {
    if n == 0 then 0 else After(key, Position(key, n - 1))
  }

  function Byte(key: Key, n: nat): bv8 {
    KeyByte(key, Position(key, n))
  }

  lemma {:induction false} PositionWraps(key: Key, n: nat)
    ensures Position(key, n) == n % (|key| + 1)
  {
    if n > 0 {
      PositionWraps(key, n - 1);
      NextModulo(n - 1, |key| + 1);
    }
  }

  /** The bytes read are those of the key with its terminator, over and over. */
  lemma ByteIs(key: Key, n: nat)
    ensures var s := key + [0]; 0 <= n % |s| < |s| && Byte(key, n) == s[n % |s|]
  {
    PositionWraps(key, n);
  }

  // ------------------------------------------------------------------- key words

  /** A byte appended to a word, as it should be and with the sign extended. */
  function Correct(t: bv32, b: bv8): bv32 {
    (t << 8) | (b as bv32)
  }

  function Buggy(t: bv32, b: bv8): bv32 {
    (t << 8) | (if b < 0x80 then b as bv32 else (b as bv32) | 0xffffff00)
  }

  /** Key word i after its first n bytes. */
  function Word(key: Key, bug: bool, i: nat, n: nat): bv32
    requires n <= 4
  {
    if n == 0 then 0
    else
      var t, b := Word(key, bug, i, n - 1), Byte(key, 4 * i + n - 1);
      if bug then Buggy(t, b) else Correct(t, b)
  }

  /** A word that is read correctly has its four bytes in order, the first at the top. */
  lemma CorrectIs(a: bv8, b: bv8, c: bv8, d: bv8)
    ensures Correct(Correct(Correct(Correct(0, a), b), c), d)
         == ((a as bv32) << 24) | ((b as bv32) << 16) | ((c as bv32) << 8) | (d as bv32)
  {
  }

  lemma WordIs(key: Key, i: nat)
    ensures Word(key, false, i, 4)
         == Correct(Correct(Correct(Correct(0, Byte(key, 4 * i)), Byte(key, 4 * i + 1)), Byte(key, 4 * i + 2)), Byte(key, 4 * i + 3))
  {
    assert Word(key, false, i, 0) == 0;
    assert Word(key, false, i, 1) == Correct(0, Byte(key, 4 * i));
    assert Word(key, false, i, 2) == Correct(Word(key, false, i, 1), Byte(key, 4 * i + 1));
    assert Word(key, false, i, 3) == Correct(Word(key, false, i, 2), Byte(key, 4 * i + 2));
  }

  /** With the bug, a byte whose sign is extended wipes out the bytes before it in the word; other
      bytes are read correctly. */
  lemma BuggyIs(t: bv32, b: bv8)
    ensures Buggy(t, b) == if b >= 0x80 then 0xffffff00 | (b as bv32) else Correct(t, b)
  {
  }

  /** Both ways give the same first n words. */
  ghost predicate Agree(key: Key, n: nat) {
    forall i :: 0 <= i < n ==> Word(key, false, i, 4) == Word(key, true, i, 4)
  }

  /** Some byte among the first n, not the first of its word, has its sign bit set. */
  ghost predicate Signed(key: Key, n: nat) {
    exists k :: 0 <= k < n && k % 4 != 0 && Byte(key, k) >= 0x80
  }

  function Xor(a: bv32, b: bv32): bv32 {
    a ^ b
  }

  function Differs(d: bv32, x: bv32): bv32 {
    d | x
  }

  lemma XorZero(a: bv32, b: bv32)
    ensures Xor(a, b) == 0 ==> a == b
    ensures Xor(a, a) == 0
  {
  }

  lemma DiffersZero(d: bv32, x: bv32)
    ensures Differs(d, x) == 0 <==> d == 0 && x == 0
  {
  }

  /** The branch-free computation of the safety bit. */
  function Deviation(diff: bv32, sign: bv32, safety: bv32): bv32 {
    (sign << 9) & (!(((diff | (diff >> 16)) & 0xffff) + 0xffff) & safety)
  }

  lemma DeviationIs(diff: bv32, sign: bv32, safety: bv32)
    requires (sign == 0 || sign == 0x80) && (safety == 0 || safety == 0x10000)
    ensures Deviation(diff, sign, safety) == if diff == 0 && sign == 0x80 && safety == 0x10000 then 0x10000 else 0
  {
  }

  function Flag(b: bool): bv32 {
    if b then 0x80 else 0
  }

  function SignOf(sign: bv32, t: bv32): bv32 {
    sign | (t & 0x80)
  }

  lemma SignMore(was: bool, t: bv32, b: bv8)
    ensures SignOf(Flag(was), Buggy(t, b)) == Flag(was || b >= 0x80)
  {
  }

  /** The two readings of the current word, the position in the key and the sign flag. */
  datatype Reading = Reading(t0: bv32, t1: bv32, pos: nat, sign: bv32)

  function ReadByte(key: Key, r: Reading, first: bool): (next: Reading)
    requires r.pos <= |key|
    ensures next.pos <= |key|
  {
    var b := KeyByte(key, r.pos);
    var t1 := Buggy(r.t1, b);
    Reading(Correct(r.t0, b), t1, if b == 0 then 0 else r.pos + 1, if first then r.sign else SignOf(r.sign, t1))
  }

  /** After n bytes of key word i. */
  function Read(key: Key, i: nat, n: nat): (r: Reading)
    requires n <= 4
    ensures r.pos <= |key|
    decreases i, n
  {
    if n > 0 then ReadByte(key, Read(key, i, n - 1), n == 1)
    else if i == 0 then Reading(0, 0, 0, 0)
    else Read(key, i - 1, 4).(t0 := 0, t1 := 0)
  }

  lemma {:induction false} ReadPosition(key: Key, i: nat, n: nat)
    requires n <= 4
    ensures Read(key, i, n).pos == Position(key, 4 * i + n)
    decreases i, n
  {
    if n > 0 {
      ReadPosition(key, i, n - 1);
    } else if i > 0 {
      ReadPosition(key, i - 1, 4);
    }
  }

  lemma {:induction false} ReadWords(key: Key, i: nat, n: nat)
    requires n <= 4
    ensures Read(key, i, n).t0 == Word(key, false, i, n)
    ensures Read(key, i, n).t1 == Word(key, true, i, n)
    decreases n
  {
    if n > 0 {
      ReadWords(key, i, n - 1);
      ReadPosition(key, i, n - 1);
    }
  }

  lemma {:induction false} ReadSign(key: Key, i: nat, n: nat)
    requires n <= 4
    ensures Read(key, i, n).sign == Flag(Signed(key, 4 * i + n))
    decreases i, n
  {
    if n > 0 {
      var r := Read(key, i, n - 1);
      ReadSign(key, i, n - 1);
      ReadPosition(key, i, n - 1);
      SignedNext(key, 4 * i + n - 1);
      SignMore(Signed(key, 4 * i + n - 1), r.t1, Byte(key, 4 * i + n - 1));
    } else if i > 0 {
      ReadSign(key, i - 1, 4);
    }
  }

  lemma AgreeNext(key: Key, n: nat)
    ensures Agree(key, n + 1) <==> Agree(key, n) && Word(key, false, n, 4) == Word(key, true, n, 4)
  {
  }

  lemma DiffersNext(key: Key, i: nat, d: bv32, t0: bv32, t1: bv32)
    requires d == 0 <==> Agree(key, i)
    requires t0 == Word(key, false, i, 4) && t1 == Word(key, true, i, 4)
    ensures Differs(d, Xor(t0, t1)) == 0 <==> Agree(key, i + 1)
  {
    AgreeNext(key, i);
    XorZero(t0, t1);
    DiffersZero(d, Xor(t0, t1));
  }

  method ReadWord(key: Key, bug: bool, i: nat, start: Reading) returns (r: Reading, t: bv32)
    requires start == Read(key, i, 0)
    ensures r == Read(key, i, 4) && r.t0 == Word(key, false, i, 4) && r.t1 == Word(key, true, i, 4)
    ensures t == Word(key, bug, i, 4)
  {
    r := start;
    for j := 0 to 4
      invariant r == Read(key, i, j)
    {
      r := ReadByte(key, r, j == 0);
    }
    ReadWords(key, i, 4);
    t := if bug then r.t1 else r.t0;
  }

  lemma SignedNext(key: Key, n: nat)
    ensures Signed(key, n + 1) <==> Signed(key, n) || (n % 4 != 0 && Byte(key, n) >= 0x80)
  {
  }

  function KeyWords(key: Key, bug: bool, n: nat): (s: seq<bv32>)
    ensures |s| == n && forall i :: 0 <= i < n ==> s[i] == Word(key, bug, i, 4)
  {
    if n == 0 then [] else KeyWords(key, bug, n - 1) + [Word(key, bug, n - 1, 4)]
  }

  function XorWords(p: seq<bv32>, s: seq<bv32>): (t: seq<bv32>)
    requires |p| == |s|
    ensures |t| == |s| && forall i :: 0 <= i < |s| ==> t[i] == Xor(p[i], s[i])
  {
    seq(|s|, i requires 0 <= i < |s| => Xor(p[i], s[i]))
  }

  /** The loop of BF_set_key, but for the words of `initial`. */
  method ReadKey(key: Key, bug: bool) returns (expanded: seq<bv32>, diff: bv32, sign: bv32)
    ensures expanded == KeyWords(key, bug, 18)
    ensures (diff == 0 <==> Agree(key, 18)) && sign == Flag(Signed(key, 72))
  {
    expanded, diff := [], 0;
    var r := Reading(0, 0, 0, 0);
    for i := 0 to 18
      invariant r == Read(key, i, 0)
      invariant expanded == KeyWords(key, bug, i)
      invariant diff == 0 <==> Agree(key, i)
    {
      var t;
      r, t := ReadWord(key, bug, i, r);
      DiffersNext(key, i, diff, r.t0, r.t1);
      diff := Differs(diff, Xor(r.t0, r.t1));
      expanded := expanded + [t];
      r := r.(t0 := 0, t1 := 0);
    }
    ReadSign(key, 18, 0);
    sign := r.sign;
  }

  /** BF_set_key.  With the safety bit (flag 2) the first word of `initial` is off by one bit
      exactly when the correct reading of the key could also come from the buggy one although
      a sign was extended; nothing else depends on the flags but the reading (flag 1). */
  method SetKey(key: Key, p: seq<bv32>, bug: bool, safety: bool) returns (expanded: seq<bv32>, initial: seq<bv32>)
    requires |p| == 18
    ensures expanded == KeyWords(key, bug, 18) && |initial| == 18
    ensures initial[1..] == XorWords(p, expanded)[1..]
    ensures initial[0] == Xor(Xor(p[0], expanded[0]), if safety && Agree(key, 18) && Signed(key, 72) then 0x10000 else 0)
  {
    var diff, sign;
    expanded, diff, sign := ReadKey(key, bug);
    initial := XorWords(p, expanded);
    var mask: bv32 := if safety then 0x10000 else 0;
    DeviationIs(diff, sign, mask);
    initial := initial[0 := Xor(initial[0], Deviation(diff, sign, mask))];
  }
}
