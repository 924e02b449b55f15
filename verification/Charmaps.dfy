/** The packed list of character maps and find_charmap (library/iconv/iconv_priv.c). */
module Charmaps {
  import opened Common
  import opened Legacy

  /** Names, a type code and, for an 8-bit code page, a table of 10-bit entries. */
  datatype Record = Record(aliases: seq<seq<bv8>>, code: bv8, table: seq<bv8>) {
    /** Names are not empty and have no NUL; a code page has five bytes for each four entries. */
    ghost predicate Valid() {
      && |aliases| > 0 && (forall i :: 0 <= i < |aliases| ==> aliases[i] != [] && 0 !in aliases[i])
      && (code <= 64 || code > 128) && |table| == if code > 128 then 0 else (64 - code as int) * 5
    }
  }

  // ------------------------------------------------------------------- the format

  /** The names of a record, each with its terminator. */
  function Names(aliases: seq<seq<bv8>>): seq<bv8> {
    if aliases == [] then [] else aliases[0] + [0] + Names(aliases[1..])
  }

  /** What is left of a record and those after it, from name j on. */
  function From(r: Record, j: nat, rest: seq<bv8>): seq<bv8>
    requires j <= |r.aliases|
  {
    Names(r.aliases[j..]) + [0, r.code] + r.table + rest
  }

  function Packed(rs: seq<Record>): (s: seq<bv8>)
    ensures |s| > 0
  {
    if rs == [] then [0] else From(rs[0], 0, Packed(rs[1..]))
  }

  lemma FromName(r: Record, j: nat, rest: seq<bv8>)
    requires j < |r.aliases|
    ensures From(r, j, rest) == r.aliases[j] + [0] + From(r, j + 1, rest)
  {
    assert r.aliases[j..][1..] == r.aliases[j + 1..];
    var a, n := r.aliases[j], Names(r.aliases[j + 1..]);
    assert (a + [0] + n) + [0, r.code] + r.table + rest == a + [0] + (n + [0, r.code] + r.table + rest);
  }

  lemma FromEnd(r: Record, rest: seq<bv8>)
    ensures From(r, |r.aliases|, rest) == [0, r.code] + r.table + rest
  {
    assert r.aliases[|r.aliases|..] == [];
  }

  /** The list starts with UTF-8, which is also called char: names with their terminators, an empty
      name, the code, and no table; and it ends with an empty name. */
  lemma PackedStart()
    ensures Packed([Record([[0x75, 0x74, 0x66, 0x38], [0x63, 0x68, 0x61, 0x72]], 200, [])])
         == [0x75, 0x74, 0x66, 0x38, 0, 0x63, 0x68, 0x61, 0x72, 0, 0, 200, 0]
  {
    var a, b: seq<bv8> := [0x75, 0x74, 0x66, 0x38], [0x63, 0x68, 0x61, 0x72];
    var r, none: seq<bv8> := Record([a, b], 200, []), [];
    assert [a, b][1..] == [b] && [b][1..] == [];
    assert Names([b]) == b + [0] + none;
    assert Names([a, b]) == a + [0] + Names([b]);
    assert [r][1..] == [] && Packed([]) == [0];
    assert r.aliases[0..] == [a, b];
    assert Packed([r]) == From(r, 0, [0]);
  }

  // ----------------------------------------------------------------- find_charmap

  type Match = (seq<bv8>, seq<bv8>) -> bool

  predicate AnyMatch(m: Match, name: seq<bv8>, aliases: seq<seq<bv8>>) {
    exists i :: 0 <= i < |aliases| && m(name, aliases[i])
  }

  /** The distance from the start of the list to the type code of the first record with a
      matching name. */
  function Found(m: Match, name: seq<bv8>, rs: seq<Record>): (f: int)
    ensures f >= -1
  {
    if rs == [] then -1
    else if AnyMatch(m, name, rs[0].aliases) then |Names(rs[0].aliases)| + 1
    else
      var k := Found(m, name, rs[1..]);
      if k == -1 then -1 else |Names(rs[0].aliases)| + 2 + |rs[0].table| + k
  }

  /** strlen. */
  method StrLen(s: seq<bv8>, p: nat) returns (n: nat)
    requires p < |s| && exists k :: p <= k < |s| && s[k] == 0
    ensures p + n < |s| && s[p + n] == 0 && 0 !in s[p..p + n]
  {
    ghost var k :| p <= k < |s| && s[k] == 0;
    n := 0;
    while s[p + n] != 0
      invariant p + n <= k && 0 !in s[p..p + n]
      decreases k - n
    {
      assert s[p..p + n + 1] == s[p..p + n] + [s[p + n]];
      n := n + 1;
    }
  }

  /** A name at p ends where the first NUL is. */
  lemma NameAt(s: seq<bv8>, p: nat, a: seq<bv8>, t: seq<bv8>, n: nat)
    requires p <= |s| && s[p..] == a + [0] + t && 0 !in a
    requires p + n < |s| && s[p + n] == 0 && 0 !in s[p..p + n]
    ensures n == |a| && s[p..p + n] == a && s[p + n + 1..] == t
  {
    assert s[p + |a|] == s[p..][|a|] == 0;
    assert forall i :: 0 <= i < |a| ==> s[p + i] == s[p..][i] == a[i];
    assert a == s[p..p + |a|];
    assert s[p + n + 1..] == s[p..][n + 1..];
  }

  /** The distance from the start of a record's names to name j. */
  function Before(r: Record, j: nat): nat
    requires j <= |r.aliases|
  {
    if j == 0 then 0 else Before(r, j - 1) + |r.aliases[j - 1]| + 1
  }

  lemma {:induction false} AllBefore(r: Record, j: nat)
    requires j <= |r.aliases|
    ensures Before(r, j) + |Names(r.aliases[j..])| == |Names(r.aliases)|
  {
    if j == 0 {
      assert r.aliases[0..] == r.aliases;
    } else {
      AllBefore(r, j - 1);
      assert r.aliases[j - 1..][1..] == r.aliases[j..];
    }
  }

  /** A result that was found further on in the list. */
  function Further(base: nat, k: int): int {
    if k == -1 then -1 else base + k
  }

  ghost predicate AllValid(rs: seq<Record>) {
    forall i :: 0 <= i < |rs| ==> rs[i].Valid()
  }

  lemma NameHere(s: seq<bv8>, p: nat, r: Record, j: nat, rest: seq<bv8>)
    requires r.Valid() && j < |r.aliases| && p <= |s| && s[p..] == From(r, j, rest)
    ensures s[p..] == r.aliases[j] + [0] + From(r, j + 1, rest)
    ensures p + |r.aliases[j]| < |s| && s[p + |r.aliases[j]|] == 0
  {
    FromName(r, j, rest);
    assert s[p + |r.aliases[j]|] == s[p..][|r.aliases[j]|];
  }

  /** The length of the name at p. */
  method NameLength(s: seq<bv8>, p: nat, ghost r: Record, ghost j: nat, ghost rest: seq<bv8>) returns (n: nat)
    requires r.Valid() && j < |r.aliases| && p <= |s| && s[p..] == From(r, j, rest)
    ensures n == |r.aliases[j]| && p + n < |s| && s[p..p + n] == r.aliases[j] && s[p + n + 1..] == From(r, j + 1, rest)
  {
    NameHere(s, p, r, j, rest);
    n := StrLen(s, p);
    NameAt(s, p, r.aliases[j], From(r, j + 1, rest), n);
  }

  /** Steps over the names from name j of a record on. */
  method SkipNames(s: seq<bv8>, p: nat, ghost r: Record, ghost j: nat, ghost rest: seq<bv8>) returns (q: nat)
    requires r.Valid() && j <= |r.aliases| && p <= |s| && s[p..] == From(r, j, rest)
    ensures q <= |s| && s[q..] == From(r, |r.aliases|, rest) && q == p + |Names(r.aliases)| - Before(r, j)
  {
    q := p;
    ghost var i := j;
    AtEnd(r, i, rest);
    while s[q] != 0
      invariant j <= i <= |r.aliases| && q < |s| && s[q..] == From(r, i, rest) && q - p == Before(r, i) - Before(r, j)
      invariant s[q] == 0 <==> i == |r.aliases|
      decreases |s| - q
    {
      var n := NameLength(s, q, r, i, rest);
      q, i := q + n + 1, i + 1;
      AtEnd(r, i, rest);
    }
    AllBefore(r, |r.aliases|);
  }

  /** A NUL where a name should be is the end of the names. */
  lemma AtEnd(r: Record, i: nat, rest: seq<bv8>)
    requires r.Valid() && i <= |r.aliases|
    ensures |From(r, i, rest)| > 0 && (From(r, i, rest)[0] == 0 <==> i == |r.aliases|)
  {
    if i < |r.aliases| {
      FromName(r, i, rest);
    } else {
      FromEnd(r, rest);
    }
  }

  /** The search stands at p, which is name j of the first record of rs; that record starts at
      base, and no name before p matches. */
  ghost predicate Searching(s: seq<bv8>, m: Match, name: seq<bv8>, all: seq<Record>,
                            p: nat, rs: seq<Record>, j: nat, base: nat)
  {
    && AllValid(rs) && p <= |s|
    && Found(m, name, all) == Further(base, Found(m, name, rs))
    && if rs == [] then s[p..] == [0]
       else
         && j < |rs[0].aliases| && p == base + Before(rs[0], j) && s[p..] == From(rs[0], j, Packed(rs[1..]))
         && forall i :: 0 <= i < j ==> !m(name, rs[0].aliases[i])
  }

  lemma AtStart(s: seq<bv8>, m: Match, name: seq<bv8>, rs: seq<Record>, p: nat, all: seq<Record>)
    requires AllValid(rs) && p <= |s| && s[p..] == Packed(rs)
    requires Found(m, name, all) == Further(p, Found(m, name, rs))
    ensures Searching(s, m, name, all, p, rs, 0, p)
  {
  }

  /** The list ends exactly where a name would be empty. */
  lemma NameOrEnd(s: seq<bv8>, m: Match, name: seq<bv8>, all: seq<Record>, p: nat, rs: seq<Record>, j: nat, base: nat)
    requires Searching(s, m, name, all, p, rs, j, base)
    ensures p < |s| && (s[p] == 0 <==> rs == [])
  {
    assert s[p..] != [];
    assert s[p] == s[p..][0];
    if rs != [] {
      AtEnd(rs[0], j, Packed(rs[1..]));
    }
  }

  lemma MatchHere(s: seq<bv8>, m: Match, name: seq<bv8>, all: seq<Record>, p: nat, rs: seq<Record>, j: nat, base: nat)
    requires Searching(s, m, name, all, p, rs, j, base) && rs != [] && m(name, rs[0].aliases[j])
    ensures Found(m, name, all) == p + |Names(rs[0].aliases)| - Before(rs[0], j) + 1
  {
    assert AnyMatch(m, name, rs[0].aliases);
  }

  lemma NextName(s: seq<bv8>, m: Match, name: seq<bv8>, all: seq<Record>, p: nat, rs: seq<Record>, j: nat, base: nat, q: nat)
    requires Searching(s, m, name, all, p, rs, j, base) && rs != [] && !m(name, rs[0].aliases[j])
    requires q == p + |rs[0].aliases[j]| + 1 <= |s| && s[q..] == From(rs[0], j + 1, Packed(rs[1..]))
    ensures q < |s| && (s[q] == 0 <==> j + 1 == |rs[0].aliases|)
    ensures j + 1 < |rs[0].aliases| ==> Searching(s, m, name, all, q, rs, j + 1, base)
  {
    AtEnd(rs[0], j + 1, Packed(rs[1..]));
    assert s[q] == s[q..][0];
  }

  /** After the names of a record come its code, its table and the next record. */
  lemma AfterNames(s: seq<bv8>, p: nat, r: Record, rest: seq<bv8>)
    requires p <= |s| && s[p..] == From(r, |r.aliases|, rest)
    ensures p + 2 + |r.table| <= |s| && s[p + 1] == r.code
    ensures s[p + 2..p + 2 + |r.table|] == r.table && s[p + 2 + |r.table|..] == rest
  {
    FromEnd(r, rest);
    var t := s[p..];
    assert s[p + 1] == t[1] && s[p + 2 + |r.table|..] == t[2 + |r.table|..];
    assert s[p + 2..p + 2 + |r.table|] == t[2..2 + |r.table|];
  }

  lemma NextRecord(s: seq<bv8>, m: Match, name: seq<bv8>, all: seq<Record>, p: nat, rs: seq<Record>, base: nat, q: nat)
    requires rs != [] && rs[0].aliases != [] && Searching(s, m, name, all, p, rs, |rs[0].aliases| - 1, base)
    requires !m(name, rs[0].aliases[|rs[0].aliases| - 1])
    requires q == base + |Names(rs[0].aliases)| + 2 + |rs[0].table| <= |s| && s[q..] == Packed(rs[1..])
    ensures Searching(s, m, name, all, q, rs[1..], 0, q)
  {
    assert !AnyMatch(m, name, rs[0].aliases);
    AtStart(s, m, name, rs[1..], q, all);
  }

  /** Goes on after a name that does not match. */
  method NextOne(s: seq<bv8>, m: Match, name: seq<bv8>, ghost all: seq<Record>, p: nat, n: nat,
                 ghost rs: seq<Record>, ghost j: nat, ghost base: nat)
    returns (p': nat, ghost rs': seq<Record>, ghost j': nat, ghost base': nat)
    requires Searching(s, m, name, all, p, rs, j, base) && rs != [] && !m(name, rs[0].aliases[j])
    requires n == |rs[0].aliases[j]| && p + n < |s| && s[p + n + 1..] == From(rs[0], j + 1, Packed(rs[1..]))
    ensures p < p' && Searching(s, m, name, all, p', rs', j', base')
  {
    var q := p + n + 1;
    NextName(s, m, name, all, p, rs, j, base, q);
    if s[q] == 0 {
      AfterNames(s, q, rs[0], Packed(rs[1..]));
      AllBefore(rs[0], |rs[0].aliases|);
      assert rs[0].aliases[|rs[0].aliases|..] == [];
      var code := s[q + 1] as int;
      p' := if code > 128 then q + 2 else q + 2 + (64 - code) * 5;
      NextRecord(s, m, name, all, p, rs, base, p');
      rs', j', base' := rs[1..], 0, p';
    } else {
      p', rs', j', base' := q, rs, j + 1, base;
    }
  }

  /** The name that is looked for: the first of the list if it is empty. */
  function Wanted(name: seq<bv8>, rs: seq<Record>): seq<bv8> {
    if name == [] && rs != [] && rs[0].aliases != [] then rs[0].aliases[0] else name
  }

  /** find_charmap: the records rs stand packed in s. */
  method FindCharmap(s: seq<bv8>, m: Match, given: seq<bv8>, ghost rs: seq<Record>) returns (r: int)
    requires AllValid(rs) && s == Packed(rs)
    ensures r == Found(m, Wanted(given, rs), rs)
  {
    var name := given;
    ghost var q, j: nat, base: nat := rs, 0, 0;
    assert s[0..] == s;
    if given == [] {
      name := FirstName(s, rs);
    }
    var p := 0;
    AtStart(s, m, name, rs, 0, rs);
    NameOrEnd(s, m, name, rs, p, q, j, base);
    while s[p] != 0
      invariant Searching(s, m, name, rs, p, q, j, base)
      invariant p < |s| && (s[p] == 0 <==> q == [])
      decreases |s| - p
    {
      var n := NameLength(s, p, q[0], j, Packed(q[1..]));
      if m(name, s[p..p + n]) {
        MatchHere(s, m, name, rs, p, q, j, base);
        var e := SkipNames(s, p, q[0], j, Packed(q[1..]));
        return e + 1;
      }
      p, q, j, base := NextOne(s, m, name, rs, p, n, q, j, base);
      NameOrEnd(s, m, name, rs, p, q, j, base);
    }
    r := -1;
  }

  method FirstName(s: seq<bv8>, ghost rs: seq<Record>) returns (name: seq<bv8>)
    requires AllValid(rs) && s == Packed(rs)
    ensures name == Wanted([], rs)
  {
    assert s[0..] == s;
    if s[0] == 0 {
      if rs != [] {
        AtEnd(rs[0], 0, Packed(rs[1..]));
      }
      return [];
    }
    var n := NameLength(s, 0, rs[0], 0, Packed(rs[1..]));
    name := s[0..n];
  }

  // ------------------------------------------------------------- what was found

  /** The number of the first record with a matching name. */
  function Which(m: Match, name: seq<bv8>, rs: seq<Record>): (k: nat)
    ensures k <= |rs| && (k < |rs| ==> AnyMatch(m, name, rs[k].aliases))
    ensures forall i :: 0 <= i < k ==> !AnyMatch(m, name, rs[i].aliases)
  {
    if rs == [] || AnyMatch(m, name, rs[0].aliases) then 0 else Which(m, name, rs[1..]) + 1
  }

  /** The code of a record and then its table stand at f. */
  ghost predicate StandsAt(s: seq<bv8>, f: int, r: Record) {
    0 <= f && f + 1 + |r.table| <= |s| && s[f] == r.code && s[f + 1..f + 1 + |r.table|] == r.table
  }

  lemma StandsFirst(r: Record, rest: seq<bv8>)
    ensures StandsAt(From(r, 0, rest), |Names(r.aliases)| + 1, r)
    ensures var n := |Names(r.aliases)| + 2 + |r.table|; n <= |From(r, 0, rest)| && From(r, 0, rest)[n..] == rest
  {
    assert r.aliases[0..] == r.aliases;
  }

  lemma StandsFurther(s: seq<bv8>, n: nat, rest: seq<bv8>, f: int, r: Record)
    requires n <= |s| && s[n..] == rest && StandsAt(rest, f, r)
    ensures StandsAt(s, n + f, r)
  {
    assert s[n + f] == rest[f] && s[n + f + 1..n + f + 1 + |r.table|] == rest[f + 1..f + 1 + |r.table|];
  }

  lemma StandsLater(r: Record, rest: seq<bv8>, f: int, x: Record)
    requires StandsAt(rest, f, x)
    ensures StandsAt(From(r, 0, rest), |Names(r.aliases)| + 2 + |r.table| + f, x)
  {
    StandsFirst(r, rest);
    StandsFurther(From(r, 0, rest), |Names(r.aliases)| + 2 + |r.table|, rest, f, x);
  }

  /** The result is -1 just when no name matches; otherwise the code and then the table of the
      first record that does stand there. */
  lemma {:induction false} FoundRecord(m: Match, name: seq<bv8>, rs: seq<Record>)
    ensures Found(m, name, rs) == -1 <==> Which(m, name, rs) == |rs|
    ensures var k := Which(m, name, rs); k < |rs| ==> StandsAt(Packed(rs), Found(m, name, rs), rs[k])
    decreases |rs|
  {
    if rs != [] {
      if AnyMatch(m, name, rs[0].aliases) {
        StandsFirst(rs[0], Packed(rs[1..]));
      } else {
        FoundRecord(m, name, rs[1..]);
        if Which(m, name, rs[1..]) < |rs[1..]| {
          StandsLater(rs[0], Packed(rs[1..]), Found(m, name, rs[1..]), rs[1..][Which(m, name, rs[1..])]);
        }
      }
    }
  }

  /** The memory from a place in the list on. */
  function From8(s: seq<bv8>, p: nat): nat -> bv8 {
    (i: nat) => if p + i < |s| then s[p + i] else 0
  }

  lemma PageReads(s: seq<bv8>, f: int, r: Record, c: nat)
    requires StandsAt(s, f, r) && r.Valid() && r.code <= 64 && 4 * (r.code as int) <= c < 256
    ensures var x := c - 4 * (r.code as int);
      x * 5 / 4 + 1 < |r.table| && Entry(From8(s, f + 1), x) == Packed10(r.table, x)
  {
    var mem := From8(s, f + 1);
    forall i | 0 <= i < |r.table|
      ensures mem(i) == r.table[i]
    {
      assert s[f + 1..f + 1 + |r.table|][i] == s[f + 1 + i];
    }
    ReadsEntry(r.table, mem, r.code as int, c);
  }

  /** Where find_charmap has found a code page, legacy_map reads exactly the packed entries of that
      page, for every byte it is used for. */
  lemma FoundPage(m: Match, name: seq<bv8>, rs: seq<Record>, r: Record, f: int, c: nat)
    requires AllValid(rs) && Which(m, name, rs) < |rs| && r == rs[Which(m, name, rs)] && f == Found(m, name, rs)
    requires r.code <= 64 && 4 * (r.code as int) <= c < 256
    ensures var x := c - 4 * (r.code as int);
      f >= 0 && x * 5 / 4 + 1 < |r.table| && Entry(From8(Packed(rs), f + 1), x) == Packed10(r.table, x)
  {
    FoundRecord(m, name, rs);
    PageReads(Packed(rs), f, r, c);
  }

  // ------------------------------------------------------------------ descriptors

  function Combine(to: bv32, from: bv32): bv32 {
    ((from << 16) | (to << 1)) | 1
  }

  function ExtractFrom(cd: bv32): bv32 {
    cd >> 16
  }

  function ExtractTo(cd: bv32): bv32 {
    (cd >> 1) & 0x7fff
  }

  /** Two places below 0x8000 can be taken out of a descriptor again, which is odd; so a pointer to
      a state, which is even, is not mistaken for one. */
  lemma Extracted(to: bv32, from: bv32)
    requires to < 0x8000 && from < 0x8000
    ensures ExtractTo(Combine(to, from)) == to && ExtractFrom(Combine(to, from)) == from
    ensures Combine(to, from) & 1 == 1
  {
  }

  lemma SourceOnTop(to: bv32, from: bv32)
    requires to < 0x8000 && from < 0x8000
    ensures Combine(to, from) >> 16 == from
  {
  }

  /** What a descriptor stands for: the places of two records, and whether the source has a state. */
  datatype Descriptor = Descriptor(to: nat, from: nat, stateful: bool)

  const GB: bv8 := 216

  predicate HasState(code: bv8) {
    code == 202 || code == 203 || code == 204 || code == 210
  }

  lemma FoundInside(m: Match, name: seq<bv8>, rs: seq<Record>)
    ensures Found(m, name, rs) < |Packed(rs)|
    ensures Found(m, name, rs) >= 0 <==> Which(m, name, rs) < |rs|
    ensures Found(m, name, rs) >= 0 ==> Packed(rs)[Found(m, name, rs)] == rs[Which(m, name, rs)].code
  {
    FoundRecord(m, name, rs);
  }

  /** iconv_open: both names are found and the target is none of the types from GB18030 on; the
      places fit a descriptor. */
  method Open(s: seq<bv8>, m: Match, to: seq<bv8>, from: seq<bv8>, ghost rs: seq<Record>) returns (r: Option<Descriptor>)
    requires AllValid(rs) && s == Packed(rs) && |s| <= 0x8000
    ensures var i, k := Which(m, Wanted(to, rs), rs), Which(m, Wanted(from, rs), rs);
      && (r.Some? <==> i < |rs| && k < |rs| && rs[i].code < GB)
      && (r.Some? ==>
            && r.value.to == Found(m, Wanted(to, rs), rs) && r.value.from == Found(m, Wanted(from, rs), rs)
            && r.value.to < 0x8000 && r.value.from < 0x8000 && r.value.stateful == HasState(rs[k].code))
  {
    var t := FindCharmap(s, m, to, rs);
    FoundInside(m, Wanted(to, rs), rs);
    if t == -1 {
      return None;
    }
    var f := FindCharmap(s, m, from, rs);
    FoundInside(m, Wanted(from, rs), rs);
    if f == -1 || s[t] >= GB {
      return None;
    }
    r := Some(Descriptor(t, f, HasState(s[f])));
  }
}
