/** argz_replace (library/argz/replace.c): a substitution in two passes, the first of which works
    out the length of what the second writes. */
module Argz {
  import opened Common

  /** What size_t can count. */
  const TWO32: nat := 0x1_0000_0000

  type Bytes = seq<byte>

  // ------------------------------------------------------------- the substitution

  /** str stands at q. */
  predicate StandsAt(s: Bytes, q: nat, str: Bytes) {
    q + |str| <= |s| && s[q..q + |str|] == str
  }

  predicate NowhereBefore(s: Bytes, k: nat, str: Bytes) {
    forall q :: 0 <= q < k ==> !StandsAt(s, q, str)
  }

  /** Every occurrence of str, from the left and without overlap, replaced. */
  function Replaced(s: Bytes, str: Bytes, with: Bytes): Bytes
    requires str != []
    decreases |s|
  {
    if s == [] then []
    else if str <= s then with + Replaced(s[|str|..], str, with)
    else [s[0]] + Replaced(s[1..], str, with)
  }

  function Matches(s: Bytes, str: Bytes): nat
    requires str != []
    decreases |s|
  {
    if s == [] then 0
    else if str <= s then 1 + Matches(s[|str|..], str)
    else Matches(s[1..], str)
  }

  lemma {:induction false} Skipped(s: Bytes, str: Bytes, with: Bytes, k: nat)
    requires str != [] && k <= |s| && NowhereBefore(s, k, str)
    ensures Replaced(s, str, with) == s[..k] + Replaced(s[k..], str, with)
    ensures Matches(s, str) == Matches(s[k..], str)
    decreases k
  {
    if k == 0 {
      assert s[k..] == s;
    } else {
      assert !StandsAt(s, 0, str);
      var t := s[1..];
      forall q | 0 <= q < k - 1
        ensures !StandsAt(t, q, str)
      {
        assert !StandsAt(s, q + 1, str);
        assert q + |str| <= |t| ==> t[q..q + |str|] == s[q + 1..q + 1 + |str|];
      }
      Skipped(t, str, with, k - 1);
      assert t[k - 1..] == s[k..] && [s[0]] + t[..k - 1] == s[..k];
    }
  }

  /** Up to the first occurrence. */
  lemma FirstHit(s: Bytes, str: Bytes, with: Bytes, k: nat)
    requires str != [] && StandsAt(s, k, str) && NowhereBefore(s, k, str)
    ensures Replaced(s, str, with) == s[..k] + with + Replaced(s[k + |str|..], str, with)
    ensures Matches(s, str) == 1 + Matches(s[k + |str|..], str)
  {
    Skipped(s, str, with, k);
    AtStart(s[k..], str, with, s[k + |str|..]);
    Associate(s[..k], with, Replaced(s[k + |str|..], str, with));
  }

  lemma AtStart(t: Bytes, str: Bytes, with: Bytes, rest: Bytes)
    requires str != [] && |t| >= |str| && t[..|str|] == str && t[|str|..] == rest
    ensures Replaced(t, str, with) == with + Replaced(rest, str, with) && Matches(t, str) == 1 + Matches(rest, str)
  {
  }

  lemma NoHit(s: Bytes, str: Bytes, with: Bytes)
    requires str != [] && NowhereBefore(s, |s|, str)
    ensures Replaced(s, str, with) == s && Matches(s, str) == 0
  {
    Skipped(s, str, with, |s|);
    assert s[|s|..] == [];
  }

  /** m times d. */
  function Growth(m: nat, d: int): int {
    if m == 0 then 0 else d + Growth(m - 1, d)
  }

  lemma {:induction false} ReplacedLength(s: Bytes, str: Bytes, with: Bytes)
    requires str != []
    ensures |Replaced(s, str, with)| == |s| + Growth(Matches(s, str), |with| - |str|)
    decreases |s|
  {
    if s != [] {
      if str <= s {
        ReplacedLength(s[|str|..], str, with);
        OnceMore(Matches(s[|str|..], str), |with| - |str|);
      } else {
        ReplacedLength(s[1..], str, with);
      }
    }
  }

  lemma OnceMore(m: nat, d: int)
    ensures Growth(1 + m, d) == d + Growth(m, d) && Growth(0, d) == 0
  {
  }

  // ---------------------------------------------------------------- what it means

  /** Pieces with a separator between them. */
  function Spliced(pieces: seq<Bytes>, sep: Bytes): Bytes
    requires pieces != []
  {
    if |pieces| == 1 then pieces[0] else pieces[0] + sep + Spliced(pieces[1..], sep)
  }

  /** The separator first occurs in each piece and what follows it where the piece ends, and never
      in the last. */
  ghost predicate Leftmost(pieces: seq<Bytes>, str: Bytes)
    requires pieces != []
  {
    if |pieces| == 1 then NowhereBefore(pieces[0], |pieces[0]|, str)
    else NowhereBefore(Spliced(pieces, str), |pieces[0]|, str) && Leftmost(pieces[1..], str)
  }

  /** A text that is cut from the left wherever str occurs, put together with something else. */
  lemma {:induction false} ReplacedPieces(pieces: seq<Bytes>, str: Bytes, with: Bytes)
    requires pieces != [] && str != [] && Leftmost(pieces, str)
    ensures Replaced(Spliced(pieces, str), str, with) == Spliced(pieces, with)
    ensures Matches(Spliced(pieces, str), str) == |pieces| - 1
    decreases |pieces|
  {
    if |pieces| == 1 {
      NoHit(pieces[0], str, with);
    } else {
      var s, k := Spliced(pieces, str), |pieces[0]|;
      assert s[..k] == pieces[0] && s[k..k + |str|] == str && s[k + |str|..] == Spliced(pieces[1..], str);
      ReplacedPieces(pieces[1..], str, with);
      FirstHit(s, str, with, k);
    }
  }

  /** Where str first occurs, or the end. */
  ghost function FirstMatch(s: Bytes, str: Bytes): (k: nat)
    ensures k <= |s| && NowhereBefore(s, k, str) && (k < |s| ==> StandsAt(s, k, str))
  {
    MatchFrom(s, str, 0)
  }

  ghost function MatchFrom(s: Bytes, str: Bytes, i: nat): (k: nat)
    requires i <= |s| && NowhereBefore(s, i, str)
    ensures i <= k <= |s| && NowhereBefore(s, k, str) && (k < |s| ==> StandsAt(s, k, str))
    decreases |s| - i
  {
    if i == |s| || StandsAt(s, i, str) then i else MatchFrom(s, str, i + 1)
  }

  lemma FirstIs(s: Bytes, str: Bytes, k: nat)
    requires k <= |s| && NowhereBefore(s, k, str) && (k < |s| ==> StandsAt(s, k, str))
    ensures FirstMatch(s, str) == k
  {
    var f := FirstMatch(s, str);
    assert f == k || !StandsAt(s, k, str) || !StandsAt(s, f, str);
  }

  ghost function Cut(s: Bytes, str: Bytes): (pieces: seq<Bytes>)
    requires str != []
    ensures pieces != []
    decreases |s|
  {
    var k := FirstMatch(s, str);
    if k == |s| then [s] else [s[..k]] + Cut(s[k + |str|..], str)
  }

  /** Every text can be cut in that way. */
  lemma {:induction false} CutIsLeftmost(s: Bytes, str: Bytes)
    requires str != []
    ensures Spliced(Cut(s, str), str) == s && Leftmost(Cut(s, str), str)
    decreases |s|
  {
    var k := FirstMatch(s, str);
    if k < |s| {
      var rest := s[k + |str|..];
      CutIsLeftmost(rest, str);
      Together(s, k, str);
      SplicedMore(s[..k], Cut(rest, str), str, s);
    }
  }

  lemma Together(s: Bytes, k: nat, str: Bytes)
    requires StandsAt(s, k, str)
    ensures s == s[..k] + str + s[k + |str|..]
  {
    assert s == s[..k] + s[k..k + |str|] + s[k + |str|..];
  }

  lemma SplicedMore(piece: Bytes, pieces: seq<Bytes>, str: Bytes, s: Bytes)
    requires pieces != [] && Leftmost(pieces, str) && s == piece + str + Spliced(pieces, str)
    requires NowhereBefore(s, |piece|, str)
    ensures Spliced([piece] + pieces, str) == s && Leftmost([piece] + pieces, str)
  {
    assert ([piece] + pieces)[1..] == pieces;
  }

  // ---------------------------------------------------------------- the entries

  /** An argz: entries, each with its terminator. */
  function Join(es: seq<Bytes>): Bytes {
    if es == [] then [] else es[0] + [0] + Join(es[1..])
  }

  ghost predicate NoNul(es: seq<Bytes>) {
    es != [] ==> 0 !in es[0] && NoNul(es[1..])
  }

  predicate WellFormed(a: Bytes) {
    a != [] ==> a[|a| - 1] == 0
  }

  function FirstNul(a: Bytes): (k: nat)
    requires a != [] && WellFormed(a)
    ensures k < |a| && a[k] == 0 && 0 !in a[..k]
    decreases |a|
  {
    if a[0] == 0 then 0
    else
      var k := FirstNul(a[1..]) + 1;
      assert a[..k] == [a[0]] + a[1..][..k - 1];
      k
  }

  function Entries(a: Bytes): seq<Bytes>
    requires WellFormed(a)
    decreases |a|
  {
    if a == [] then []
    else var k := FirstNul(a); [a[..k]] + Entries(a[k + 1..])
  }

  lemma {:induction false} JoinEntries(a: Bytes)
    requires WellFormed(a)
    ensures NoNul(Entries(a)) && Join(Entries(a)) == a
    decreases |a|
  {
    if a != [] {
      var k := FirstNul(a);
      JoinEntries(a[k + 1..]);
      assert a == a[..k] + [a[k]] + a[k + 1..];
      assert Entries(a)[1..] == Entries(a[k + 1..]);
    }
  }

  lemma {:induction false} EntriesJoin(es: seq<Bytes>)
    requires NoNul(es)
    ensures WellFormed(Join(es)) && Entries(Join(es)) == es
    decreases |es|
  {
    if es != [] {
      EntriesJoin(es[1..]);
      var a, e := Join(es), es[0];
      assert a[|e|] == 0 && a[..|e|] == e && a[|e| + 1..] == Join(es[1..]);
      assert a[|a| - 1] == if es[1..] == [] then 0 else Join(es[1..])[|Join(es[1..])| - 1];
      OnlyNul(a, FirstNul(a), |e|);
    }
  }

  lemma OnlyNul(a: Bytes, k: nat, n: nat)
    requires k < |a| && n < |a| && a[k] == 0 && a[n] == 0 && 0 !in a[..k] && 0 !in a[..n]
    ensures k == n
  {
  }

  function EachReplaced(es: seq<Bytes>, str: Bytes, with: Bytes): (rs: seq<Bytes>)
    requires str != []
    ensures |rs| == |es|
  {
    if es == [] then [] else [Replaced(es[0], str, with)] + EachReplaced(es[1..], str, with)
  }

  function AllMatches(es: seq<Bytes>, str: Bytes): nat
    requires str != []
  {
    if es == [] then 0 else Matches(es[0], str) + AllMatches(es[1..], str)
  }

  /** What str is made of cannot span a terminator. */
  lemma NoSpan(e: Bytes, rest: Bytes, str: Bytes)
    requires 0 !in str
    ensures str <= e + [0] + rest <==> str <= e
  {
    var s := e + [0] + rest;
    assert s[|e|] == 0;
    assert |str| <= |e| ==> s[..|str|] == e[..|str|];
  }

  lemma InFront(a: Bytes, b: Bytes, c: Bytes)
    ensures a + (b + [0] + c) == (a + b) + [0] + c
  {
  }

  lemma {:induction false} EntryApart(e: Bytes, rest: Bytes, str: Bytes, with: Bytes)
    requires str != [] && 0 !in str
    ensures Replaced(e + [0] + rest, str, with) == Replaced(e, str, with) + [0] + Replaced(rest, str, with)
    ensures Matches(e + [0] + rest, str) == Matches(e, str) + Matches(rest, str)
    decreases |e|
  {
    var s := e + [0] + rest;
    NoSpan(e, rest, str);
    if e == [] {
      assert s[1..] == rest && s[0] == 0;
    } else if str <= e {
      EntryApart(e[|str|..], rest, str, with);
      assert s[|str|..] == e[|str|..] + [0] + rest;
      InFront(with, Replaced(e[|str|..], str, with), Replaced(rest, str, with));
    } else {
      EntryApart(e[1..], rest, str, with);
      assert s[1..] == e[1..] + [0] + rest;
      InFront([e[0]], Replaced(e[1..], str, with), Replaced(rest, str, with));
    }
  }

  lemma {:induction false} EachEntry(es: seq<Bytes>, str: Bytes, with: Bytes)
    requires str != [] && 0 !in str
    ensures Replaced(Join(es), str, with) == Join(EachReplaced(es, str, with))
    ensures Matches(Join(es), str) == AllMatches(es, str)
    decreases |es|
  {
    if es != [] {
      EachEntry(es[1..], str, with);
      EntryApart(es[0], Join(es[1..]), str, with);
      assert EachReplaced(es, str, with)[1..] == EachReplaced(es[1..], str, with);
    }
  }

  lemma {:induction false} StaysString(e: Bytes, str: Bytes, with: Bytes)
    requires str != [] && 0 !in e && 0 !in with
    ensures 0 !in Replaced(e, str, with)
    decreases |e|
  {
    if e != [] {
      if str <= e {
        StaysString(e[|str|..], str, with);
      } else {
        StaysString(e[1..], str, with);
      }
    }
  }

  lemma {:induction false} StayStrings(es: seq<Bytes>, str: Bytes, with: Bytes)
    requires str != [] && NoNul(es) && 0 !in with
    ensures NoNul(EachReplaced(es, str, with))
    decreases |es|
  {
    if es != [] {
      StaysString(es[0], str, with);
      StayStrings(es[1..], str, with);
      assert EachReplaced(es, str, with)[1..] == EachReplaced(es[1..], str, with);
    }
  }

  /** The substitution takes place in every entry by itself: there are as many as before. */
  lemma InEveryEntry(a: Bytes, str: Bytes, with: Bytes)
    requires WellFormed(a) && str != [] && 0 !in str && 0 !in with
    ensures WellFormed(Replaced(a, str, with))
    ensures Entries(Replaced(a, str, with)) == EachReplaced(Entries(a), str, with)
    ensures |Entries(Replaced(a, str, with))| == |Entries(a)|
    ensures Matches(a, str) == AllMatches(Entries(a), str)
  {
    JoinEntries(a);
    EachEntry(Entries(a), str, with);
    StayStrings(Entries(a), str, with);
    EntriesJoin(EachReplaced(Entries(a), str, with));
  }

  // ---------------------------------------------------------------- _buf_findstr

  /** Character k of a C string. */
  function CharAt(str: Bytes, k: nat): byte
    requires k <= |str|
  {
    if k < |str| then str[k] else 0
  }

  /** Where _buf_findstr leaves the buffer: after the first occurrence of str, or at the end.  An
      empty str is found at the next terminator. */
  ghost function Next(a: Bytes, p: nat, str: Bytes): (r: (nat, bool))
    requires p <= |a| && WellFormed(a)
    ensures p <= r.0 <= |a|
  {
    if p == |a| then (p, false)
    else if str == [] then (p + FirstNul(a[p..]), true)
    else
      var k := FirstMatch(a[p..], str);
      if k < |a| - p then (p + k + |str|, true) else (|a|, false)
  }

  lemma Shifted(a: Bytes, p: nat, q: nat, str: Bytes)
    requires p + q <= |a|
    ensures StandsAt(a[p..], q, str) <==> StandsAt(a, p + q, str)
  {
    assert p + q + |str| <= |a| ==> a[p..][q..q + |str|] == a[p + q..p + q + |str|];
  }

  lemma Differs(a: Bytes, q: nat, str: Bytes, j: nat)
    requires q <= j < |a| && j - q < |str| && str[j - q] != a[j]
    ensures !StandsAt(a, q, str)
  {
    assert q + |str| <= |a| ==> a[q..q + |str|][j - q] == a[j];
  }

  /** The inner loop: does str stand here?  It stops at the terminator of the buffer at the latest. */
  method Compare(a: Bytes, q: nat, str: Bytes) returns (same: bool)
    requires WellFormed(a) && q < |a| && 0 !in str
    ensures same == StandsAt(a, q, str)
  {
    var j := q;
    while CharAt(str, j - q) != 0 && CharAt(str, j - q) == a[j]
      invariant q <= j < |a| && j - q <= |str| && a[q..j] == str[..j - q]
      decreases |a| - j
    {
      j := j + 1;
    }
    same := CharAt(str, j - q) == 0;
    if same {
      assert str[..j - q] == str;
    } else {
      Differs(a, q, str, j);
    }
  }

  /** Nothing that _buf_findstr looks for begins before i. */
  ghost predicate NotYet(s: Bytes, i: nat, str: Bytes)
    requires i <= |s|
  {
    if str == [] then 0 !in s[..i] else NowhereBefore(s, i, str)
  }

  lemma FoundAt(a: Bytes, p: nat, i: nat, str: Bytes)
    requires WellFormed(a) && p + i < |a| && NotYet(a[p..], i, str)
    requires if str == [] then a[p + i] == 0 else StandsAt(a, p + i, str)
    ensures Next(a, p, str) == (p + i + |str|, true)
  {
    if str == [] {
      OnlyNul(a[p..], FirstNul(a[p..]), i);
    } else {
      Shifted(a, p, i, str);
      FirstIs(a[p..], str, i);
    }
  }

  lemma NotHere(a: Bytes, p: nat, i: nat, str: Bytes)
    requires p + i < |a| && NotYet(a[p..], i, str)
    requires if str == [] then a[p + i] != 0 else !StandsAt(a, p + i, str)
    ensures NotYet(a[p..], i + 1, str)
  {
    if str == [] {
      assert a[p..][..i + 1] == a[p..][..i] + [a[p + i]];
    } else {
      Shifted(a, p, i, str);
    }
  }

  lemma AtTheEnd(a: Bytes, p: nat, str: Bytes)
    requires WellFormed(a) && p <= |a| && NotYet(a[p..], |a| - p, str)
    ensures Next(a, p, str) == (|a|, false)
  {
    if p < |a| {
      LastNul(a, p);
      if str != [] {
        FirstIs(a[p..], str, |a| - p);
      }
    }
  }

  lemma LastNul(a: Bytes, p: nat)
    requires WellFormed(a) && p < |a|
    ensures 0 in a[p..][..|a| - p]
  {
    assert a[p..][..|a| - p] == a[p..] && a[p..][|a| - p - 1] == 0;
  }

  method FindStr(a: Bytes, p: nat, str: Bytes) returns (p': nat, found: bool)
    requires WellFormed(a) && p <= |a| && 0 !in str
    ensures (p', found) == Next(a, p, str)
  {
    var i := 0;
    while i < |a| - p
      invariant 0 <= i <= |a| - p && NotYet(a[p..], i, str)
    {
      var same := false;
      if CharAt(str, 0) == a[p + i] {
        same := Compare(a, p + i, str);
      } else if str != [] {
        Differs(a, p + i, str, p + i);
      }
      if same {
        FoundAt(a, p, i, str);
        return p + i + |str|, true;
      }
      NotHere(a, p, i, str);
      i := i + 1;
    }
    AtTheEnd(a, p, str);
    return |a|, false;
  }

  // ---------------------------------------------------------------- argz_replace

  /** Where the loops of argz_replace are after n calls. */
  ghost function Position(a: Bytes, str: Bytes, n: nat): (p: nat)
    requires WellFormed(a)
    ensures p <= |a|
  {
    if n == 0 then 0 else Next(a, Position(a, str, n - 1), str).0
  }

  /** With an empty str the loops never end, unless there is no entry. */
  lemma {:induction false} EmptyNeverEnds(a: Bytes, n: nat)
    requires WellFormed(a) && a != []
    ensures Position(a, [], n) < |a|
    decreases n
  {
    if n > 0 {
      EmptyNeverEnds(a, n - 1);
    }
  }

  /** A call in terms of the substitution, where str is found and where it is not. */
  lemma CallFound(a: Bytes, p: nat, str: Bytes, with: Bytes, p': nat)
    requires WellFormed(a) && p <= |a| && str != [] && Next(a, p, str) == (p', true)
    ensures p + |str| <= p' <= |a|
    ensures Replaced(a[p..], str, with) == a[p..p' - |str|] + with + Replaced(a[p'..], str, with)
    ensures Matches(a[p..], str) == 1 + Matches(a[p'..], str)
  {
    var s := a[p..];
    var k := FirstMatch(s, str);
    FirstHit(s, str, with, k);
    assert s[..k] == a[p..p' - |str|] && s[k + |str|..] == a[p'..];
  }

  lemma CallFailed(a: Bytes, p: nat, str: Bytes, with: Bytes, p': nat)
    requires WellFormed(a) && p <= |a| && str != [] && Next(a, p, str) == (p', false)
    ensures p' == |a| && Replaced(a[p..], str, with) == a[p..] && Matches(a[p..], str) == 0
  {
    if p < |a| {
      NoHit(a[p..], str, with);
    }
  }

  function Wrapped(x: int): nat {
    x % TWO32
  }

  lemma WrappedSum(x: int, y: int)
    ensures Wrapped(Wrapped(x) + Wrapped(y)) == Wrapped(x + y)
  {
  }

  /** What the first pass has found before p, and what it makes of the length. */
  ghost predicate Counted(a: Bytes, str: Bytes, p: nat, count: nat)
    requires str != []
  {
    p <= |a| && count + Matches(a[p..], str) == Matches(a, str)
  }

  ghost predicate Grown(n: nat, d: int, count: nat, newLen: nat) {
    newLen == Wrapped(n + Growth(count, d))
  }

  lemma CountedMore(a: Bytes, str: Bytes, p: nat, count: nat, p': nat)
    requires WellFormed(a) && str != [] && Counted(a, str, p, count) && Next(a, p, str) == (p', true)
    ensures Counted(a, str, p', count + 1) && p < p'
  {
    CallFound(a, p, str, [], p');
  }

  lemma CountedLast(a: Bytes, str: Bytes, p: nat, count: nat, p': nat)
    requires WellFormed(a) && str != [] && Counted(a, str, p, count) && Next(a, p, str) == (p', false)
    ensures Counted(a, str, p', count) && p' == |a|
  {
    CallFailed(a, p, str, [], p');
    assert a[p'..] == [];
  }

  /** new_argz_len += len_diff. */
  method Grow(newLen: nat, diff: nat, ghost n: nat, ghost d: int, ghost count: nat) returns (r: nat)
    requires Grown(n, d, count, newLen) && diff == Wrapped(d)
    ensures Grown(n, d, count + 1, r)
  {
    r := Wrapped(newLen + diff);
    ghost var x := n + Growth(count, d);
    OnceMore(count, d);
    WrappedSum(x, d);
    assert n + Growth(count + 1, d) == x + d;
  }

  lemma MeasuredAll(a: Bytes, str: Bytes, with: Bytes, count: nat, newLen: nat)
    requires str != [] && Counted(a, str, |a|, count) && Grown(|a|, |with| - |str|, count, newLen)
    ensures count == Matches(a, str) && newLen == Wrapped(|Replaced(a, str, with)|)
  {
    assert a[|a|..] == [];
    ReplacedLength(a, str, with);
  }

  /** The first pass: the number of occurrences, and the new length as far as size_t can tell: it is
      the true one if and only if size_t can hold it. */
  method Measure(a: Bytes, str: Bytes, with: Bytes) returns (count: nat, newLen: nat)
    requires WellFormed(a) && |a| < TWO32 && str != [] && 0 !in str
    ensures count == Matches(a, str) && newLen == Wrapped(|Replaced(a, str, with)|)
    ensures newLen == |Replaced(a, str, with)| <==> |Replaced(a, str, with)| < TWO32
  {
    ghost var d := |with| - |str|;
    var diff := Wrapped(|with| - |str|);
    var p := 0;
    count, newLen := 0, |a|;
    OnceMore(0, d);
    assert a[0..] == a;
    while p < |a|
      invariant Counted(a, str, p, count) && Grown(|a|, d, count, newLen)
      decreases |a| - p
    {
      var p', found := FindStr(a, p, str);
      if found {
        CountedMore(a, str, p, count, p');
        newLen := Grow(newLen, diff, |a|, d, count);
        count := count + 1;
      } else {
        CountedLast(a, str, p, count, p');
      }
      p := p';
    }
    MeasuredAll(a, str, with, count, newLen);
  }

  /** memcpy. */
  method Put(dst: array<byte>, at: nat, s: Bytes) returns (next: nat)
    requires at + |s| <= dst.Length
    modifies dst
    ensures next == at + |s| && dst[..next] == old(dst[..at]) + s
  {
    forall i | 0 <= i < |s| {
      dst[at + i] := s[i];
    }
    next := at + |s|;
  }

  /** `out` and the substitution in the rest make up the whole. */
  ghost predicate Written(a: Bytes, str: Bytes, with: Bytes, out: Bytes, last: nat)
    requires str != []
  {
    last <= |a| && Replaced(a, str, with) == out + Replaced(a[last..], str, with)
  }

  lemma WrittenMore(a: Bytes, str: Bytes, with: Bytes, out: Bytes, last: nat, p: nat)
    requires WellFormed(a) && str != [] && Written(a, str, with, out, last) && Next(a, last, str) == (p, true)
    ensures last + |str| <= p <= |a|
    ensures Written(a, str, with, (out + a[last..p - |str|]) + with, p)
    ensures |out| + (p - |str| - last) + |with| <= |Replaced(a, str, with)|
  {
    CallFound(a, last, str, with, p);
    Insert(out, a[last..p - |str|], with, Replaced(a[p..], str, with));
  }

  lemma Insert(a: Bytes, b: Bytes, c: Bytes, d: Bytes)
    ensures a + (b + c + d) == ((a + b) + c) + d
  {
  }

  lemma WrittenAll(a: Bytes, str: Bytes, with: Bytes, out: Bytes, last: nat)
    requires WellFormed(a) && str != [] && Written(a, str, with, out, last) && Next(a, last, str) == (|a|, false)
    ensures out + a[last..] == Replaced(a, str, with)
  {
    CallFailed(a, last, str, with, |a|);
  }

  /** The second pass: what it writes fills a buffer of the true length to the last byte. */
  method Write(a: Bytes, str: Bytes, with: Bytes, dst: array<byte>)
    requires WellFormed(a) && str != [] && 0 !in str && dst.Length == |Replaced(a, str, with)|
    modifies dst
    ensures dst[..] == Replaced(a, str, with)
  {
    var p, last, at := 0, 0, 0;
    assert a[0..] == a;
    ghost var out: Bytes := [];
    while p < |a|
      invariant 0 <= last <= p <= |a| && 0 <= at <= dst.Length && dst[..at] == out
      invariant Written(a, str, with, out, last)
      invariant p == last || (p == |a| && Next(a, last, str) == (|a|, false))
      decreases |a| - p
    {
      var found;
      p, found := FindStr(a, p, str);
      if found {
        WrittenMore(a, str, with, out, last, p);
        out := (out + a[last..p - |str|]) + with;
        at := Put(dst, at, a[last..p - |str|]);
        at := Put(dst, at, with);
        last := p;
      }
    }
    WrittenAll(a, str, with, out, last);
    at := Put(dst, at, a[last..]);
  }

  function Filled(x: byte, n: nat): (s: Bytes)
    ensures |s| == n
  {
    if n == 0 then [] else [x] + Filled(x, n - 1)
  }

  lemma {:induction false} FilledMatches(x: byte, n: nat)
    requires x != 0
    ensures Matches(Filled(x, n) + [0], [x]) == n
  {
    var a := Filled(x, n) + [0];
    if n == 0 {
      assert a == [0] && a[1..] == [] && [x][0] != a[0];
    } else {
      FilledMatches(x, n - 1);
      assert a[1..] == Filled(x, n - 1) + [0];
    }
  }

  lemma {:induction false} GrowthIs(m: nat, d: int)
    ensures Growth(m, d) == m * d
  {
    if m > 0 {
      GrowthIs(m - 1, d);
    }
  }

  /** An argz of 65537 bytes, and a replacement of 65536 for each of 65536 letters: the length that is
      worked out, and allocated, is 1, while the second pass writes 2^32 + 1 bytes. */
  lemma LengthWraps(x: byte, n: nat, with: Bytes)
    requires x != 0 && n == 0x10000 && |with| == n
    ensures var a := Filled(x, n) + [0];
      WellFormed(a) && |a| < TWO32 && |Replaced(a, [x], with)| == TWO32 + 1 && Wrapped(|Replaced(a, [x], with)|) == 1
  {
    var a := Filled(x, n) + [0];
    FilledMatches(x, n);
    ReplacedLength(a, [x], with);
    GrowthIs(n, n - 1);
  }

  datatype Status = Done | ENOMEM

  /** argz_replace; `room` says whether realloc succeeds, and None stands for NULL.  When it fails,
      the old entries are lost with the pointer to them. */
  method ArgzReplace(a: Bytes, str: Bytes, with: Bytes, room: bool) returns (r: Status, argz: Option<Bytes>, count: nat)
    requires WellFormed(a) && |a| < TWO32 && 0 !in str && 0 !in with && (a != [] ==> str != [])
    requires str != [] ==> |Replaced(a, str, with)| < TWO32
    ensures count == if str == [] then 0 else AllMatches(Entries(a), str)
    ensures r == Done <==> count == 0 || room
    ensures r == Done ==> argz.Some? && WellFormed(argz.value)
    ensures r == Done ==> Entries(argz.value) == if str == [] then [] else EachReplaced(Entries(a), str, with)
    ensures r == ENOMEM ==> argz == None
  {
    r, argz, count := Done, Some(a), 0;
    if a == [] {
      return;
    }
    InEveryEntry(a, str, with);
    var newLen;
    count, newLen := Measure(a, str, with);
    if count == 0 {
      NothingToDo(a, str, with);
      return;
    }
    var new_argz := new byte[newLen];
    Write(a, str, with, new_argz);
    if !room {
      return ENOMEM, None, count;
    }
    argz := Some(new_argz[..]);
    NotEmptied(a, str, with);
    if newLen == 0 {
      argz := None;
    }
  }

  lemma {:induction false} NothingToDo(s: Bytes, str: Bytes, with: Bytes)
    requires str != [] && Matches(s, str) == 0
    ensures Replaced(s, str, with) == s
    decreases |s|
  {
    if s != [] {
      NothingToDo(s[1..], str, with);
      assert s == [s[0]] + s[1..];
    }
  }

  /** The last terminator stays. */
  lemma NotEmptied(a: Bytes, str: Bytes, with: Bytes)
    requires WellFormed(a) && str != [] && 0 !in str && Matches(a, str) > 0
    ensures Replaced(a, str, with) != []
  {
    var e := a[..|a| - 1];
    assert a == e + [0] + [];
    EntryApart(e, [], str, with);
  }
}
