/** The FTSENT structures of a stream and the shape their links keep. */
module FtsMemory {
  import opened FtsSpec
  import opened FtsStack

  type Ptr = int
  const NULL: Ptr := 0

  datatype Ftsent = Ftsent(
    link: Ptr, parent: Ptr, cycle: Ptr,
    name: string, level: int, info: Info, id: FileId,
    errno: int, instr: Instr, pathlen: nat)

  /** The structures malloc has handed out and fts_free has not taken back. */
  type Memory = map<Ptr, Ftsent>

  // ------------------------------------------------------------ the path buffer

  function CString(b: string): string {
    if b == [] || b[0] == '\0' then [] else [b[0]] + CString(b[1..])
  }

  lemma {:induction false} CStringIs(b: string, n: nat)
    requires n < |b| && b[n] == '\0' && forall i :: 0 <= i < n ==> b[i] != '\0'
    ensures CString(b) == b[..n]
  {
    if n > 0 {
      CStringIs(b[1..], n - 1);
      assert b[..n] == [b[0]] + b[1..][..n - 1];
    }
  }

  function Write(b: string, at: nat, s: string): (r: string)
    requires at + |s| <= |b|
    ensures |r| == |b| && r[..at] == b[..at] && r[at..at + |s|] == s
  {
    b[..at] + s + b[at + |s|..]
  }

  /** The buffer spells path `f`, with a slash left behind by fts_children if `slash`. */
  ghost predicate Spells(b: string, f: string, slash: bool) {
    && |f| + (if slash then 2 else 1) <= |b|
    && b[..|f|] == f
    && (if slash then b[|f|] == '/' && b[|f| + 1] == '\0' else b[|f|] == '\0')
  }

  lemma SpellsString(b: string, f: string, slash: bool)
    requires Spells(b, f, slash) && GoodName(f)
    ensures CString(b) == if slash then Slashed(f) else f
  {
    forall i | 0 <= i < |f| ensures b[i] != '\0' { assert b[..|f|][i] in f; }
    if slash {
      CStringIs(b, |f| + 1);
      assert b[..|f| + 1] == b[..|f|] + [b[|f|]];
    } else {
      CStringIs(b, |f|);
    }
  }

  lemma ChildPath(dir: string, name: string)
    requires GoodName(dir) && GoodName(name)
    ensures GoodName(dir + "/" + name)
  {
    var s := dir + "/" + name;
    assert s[|s| - 1] == name[|name| - 1];
  }

  lemma SpellsFromWrite(b: string, dir: string, name: string)
    requires |dir| + |name| + 2 <= |b| && b[..|dir|] == dir && b[|dir|] == '/'
    requires b[|dir| + 1..|dir| + 1 + |name| + 1] == name + "\0"
    requires GoodName(dir) && GoodName(name)
    ensures CString(b) == dir + "/" + name
  {
    ChildPath(dir, name);
    var f := dir + "/" + name;
    assert b[..|f|] == b[..|dir|] + [b[|dir|]] + b[|dir| + 1..|dir| + 1 + |name| + 1][..|name|];
    assert b[|f|] == b[|dir| + 1..|dir| + 1 + |name| + 1][|name|];
    SpellsString(b, f, false);
  }

  lemma SpellsChild(b: string, dir: string, name: string)
    requires |dir| + |name| + 2 <= |b| && b[..|dir|] == dir
    ensures Spells(Write(b, |dir|, "/" + name + "\0"), dir + "/" + name, false)
  {
  }

  // --------------------------------------------------------------- the shape

  function PathOf(full: map<Ptr, string>, p: Ptr): string {
    if p in full then full[p] else ""
  }

  /** One structure: where its full path `full[p]` comes from, and that it fits the buffer. */
  ghost predicate NodeOk(mem: Memory, full: map<Ptr, string>, cap: int, p: Ptr) {
    && p in mem && p in full && p != NULL
    && GoodName(full[p]) && |full[p]| < cap
    && mem[p].level >= 0 && mem[p].info != Init
    && (mem[p].level > 0 ==>
          && mem[p].parent in full && GoodName(mem[p].name)
          && full[p] == full[mem[p].parent] + "/" + mem[p].name
          && mem[p].pathlen == |full[p]|)
  }

  /** `q` comes no earlier than `p`: addresses grow along a level and levels only fall. */
  predicate Reaches(mem: Memory, p: Ptr, q: Ptr)
    requires p in mem && q in mem
  {
    mem[q].level < mem[p].level || (mem[q].level == mem[p].level && q >= p)
  }

  /** `q` follows `p`: it is the next sibling, or else the parent, already entered. */
  ghost predicate Follows(mem: Memory, full: map<Ptr, string>, p: Ptr, q: Ptr) {
    p in mem && q in mem && q != NULL && mem[q].instr == NoInstr &&
    if mem[p].link != NULL then
      && mem[p].link == q > p && mem[q].level == mem[p].level && mem[q].parent == mem[p].parent
      && (mem[q].errno != 0 ==> mem[q].info == NS)
      && (mem[q].level == 0 ==> mem[q].name == PathOf(full, q))
    else
      && mem[p].parent == q && mem[q].level == mem[p].level - 1
      && (mem[q].level >= 0 ==> mem[q].info == D && mem[q].errno == 0 && mem[q].pathlen == |PathOf(full, q)|)
  }

  /** The chain fts_close walks: later siblings, parent, its later siblings, …, the root's parent. */
  ghost predicate Chained(mem: Memory, full: map<Ptr, string>, cap: int, ch: seq<Ptr>)
    decreases |ch|
  {
    ch != [] &&
    if |ch| == 1 then ch[0] in mem && ch[0] != NULL && mem[ch[0]].level == -1 && ch[0] !in full
    else
      && NodeOk(mem, full, cap, ch[0])
      && Follows(mem, full, ch[0], ch[1])
      && Chained(mem, full, cap, ch[1..])
  }

  /** A list built by fts_build for the directory `dir`. */
  ghost predicate KidList(mem: Memory, full: map<Ptr, string>, cap: int, kids: seq<Ptr>, dir: Ptr)
    decreases |kids|
  {
    dir in mem && (kids != [] ==>
      && NodeOk(mem, full, cap, kids[0])
      && mem[kids[0]].parent == dir && mem[kids[0]].level == mem[dir].level + 1
      && mem[kids[0]].instr == NoInstr && (mem[kids[0]].errno != 0 ==> mem[kids[0]].info == NS)
      && (if |kids| == 1 then mem[kids[0]].link == NULL else mem[kids[0]].link == kids[1] > kids[0])
      && KidList(mem, full, cap, kids[1..], dir))
  }

  function EntryOf(mem: Memory, full: map<Ptr, string>, p: Ptr): Entry {
    if p in mem then Entry(PathOf(full, p), mem[p].name, mem[p].level, mem[p].info, mem[p].id)
    else Entry("", "", -1, Init, FileId(0, 0))
  }

  function EntriesOf(mem: Memory, full: map<Ptr, string>, ps: seq<Ptr>): seq<Entry> {
    if ps == [] then [] else [EntryOf(mem, full, ps[0])] + EntriesOf(mem, full, ps[1..])
  }

  /** The abstract stack of a chain: all of it but the root's parent. */
  function StackOf(mem: Memory, full: map<Ptr, string>, ch: seq<Ptr>): seq<Entry> {
    if |ch| <= 1 then [] else [EntryOf(mem, full, ch[0])] + StackOf(mem, full, ch[1..])
  }

  /** The identities from ch[0] up to the argument it belongs to. */
  function UpIds(mem: Memory, full: map<Ptr, string>, ch: seq<Ptr>): set<FileId> {
    if |ch| <= 1 then {} else {EntryOf(mem, full, ch[0]).id} + AncestorIds(StackOf(mem, full, ch))
  }

  // -------------------------------------------------------- shape is preserved

  /** A structure's parent is further down its chain. */
  lemma {:induction false} ParentInChain(mem: Memory, full: map<Ptr, string>, cap: int, ch: seq<Ptr>)
    returns (m: nat)
    requires Chained(mem, full, cap, ch) && |ch| >= 2
    ensures 0 < m < |ch| && ch[m] == mem[ch[0]].parent && ch[m] in mem
    ensures Chained(mem, full, cap, ch[m..])
    ensures AncestorIds(StackOf(mem, full, ch)) == UpIds(mem, full, ch[m..])
    ensures mem[ch[m]].level == mem[ch[0]].level - 1
    ensures mem[ch[0]].level > 0 ==> m < |ch| - 1 && mem[ch[m]].info == D && mem[ch[m]].pathlen == |PathOf(full, ch[m])|
    decreases |ch|
  {
    if mem[ch[0]].link == NULL {
      m := 1;
    } else {
      m := ParentInChain(mem, full, cap, ch[1..]);
      assert ch[1..][m..] == ch[m + 1..];
      m := m + 1;
    }
  }

  /** The heap keeps every structure from `p` on, and no path changes. */
  ghost predicate Keeps(mem: Memory, mem': Memory, full: map<Ptr, string>, full': map<Ptr, string>, p: Ptr) {
    && p in mem
    && (forall q :: q in mem && Reaches(mem, p, q) ==> q in mem' && mem'[q] == mem[q])
    && (forall q :: q in full ==> q in full' && full'[q] == full[q])
    && (forall q :: q in mem && q in full' ==> q in full)
  }

  /** Releasing or adding a structure elsewhere, or growing the buffer, keeps the chain. */
  lemma {:induction false} ChainFramed(mem: Memory, mem': Memory, full: map<Ptr, string>, full': map<Ptr, string>,
                                       cap: int, cap': int, ch: seq<Ptr>)
    requires Chained(mem, full, cap, ch) && cap <= cap' && Keeps(mem, mem', full, full', ch[0])
    ensures Chained(mem', full', cap', ch)
    ensures StackOf(mem', full', ch) == StackOf(mem, full, ch)
    decreases |ch|
  {
    if |ch| > 1 {
      ChainFramed(mem, mem', full, full', cap, cap', ch[1..]);
    }
  }

  lemma {:induction false} KidListFramed(mem: Memory, mem': Memory, full: map<Ptr, string>, full': map<Ptr, string>,
                                         cap: int, cap': int, kids: seq<Ptr>, dir: Ptr)
    requires KidList(mem, full, cap, kids, dir) && cap <= cap'
    requires kids != [] ==>
      forall q :: q in mem && mem[q].level == mem[dir].level + 1 && q >= kids[0] ==> q in mem' && mem'[q] == mem[q]
    requires forall q :: q in full ==> q in full' && full'[q] == full[q]
    requires dir in mem' && mem'[dir].level == mem[dir].level
    ensures KidList(mem', full', cap', kids, dir)
    ensures EntriesOf(mem', full', kids) == EntriesOf(mem, full, kids)
    decreases |kids|
  {
    if kids != [] { KidListFramed(mem, mem', full, full', cap, cap', kids[1..], dir); }
  }

  lemma ChainOnto(mem: Memory, full: map<Ptr, string>, cap: int, p: Ptr, ch: seq<Ptr>)
    requires Chained(mem, full, cap, ch) && NodeOk(mem, full, cap, p) && Follows(mem, full, p, ch[0])
    ensures Chained(mem, full, cap, [p] + ch)
  {
    assert ([p] + ch)[1..] == ch;
  }

  lemma KidFollows(mem: Memory, full: map<Ptr, string>, cap: int, kids: seq<Ptr>, dir: Ptr)
    requires KidList(mem, full, cap, kids, dir) && kids != [] && NodeOk(mem, full, cap, dir)
    requires mem[dir].info == D && mem[dir].errno == 0 && mem[dir].pathlen == |PathOf(full, dir)| && mem[dir].instr == NoInstr
    ensures NodeOk(mem, full, cap, kids[0])
    ensures Follows(mem, full, kids[0], if |kids| == 1 then dir else kids[1])
  {
    if |kids| > 1 {
      assert kids[1..][0] == kids[1];
    }
  }

  /** Entering a directory: its children go on top of the chain. */
  lemma {:induction false} KidsPushed(mem: Memory, full: map<Ptr, string>, cap: int, kids: seq<Ptr>, ch: seq<Ptr>)
    requires Chained(mem, full, cap, ch) && |ch| >= 2 && KidList(mem, full, cap, kids, ch[0])
    requires mem[ch[0]].info == D && mem[ch[0]].errno == 0 && mem[ch[0]].instr == NoInstr
    requires mem[ch[0]].pathlen == |PathOf(full, ch[0])|
    ensures Chained(mem, full, cap, kids + ch)
    decreases |kids|
  {
    if kids == [] {
      assert kids + ch == ch;
    } else {
      var rest := kids[1..] + ch;
      KidsPushed(mem, full, cap, kids[1..], ch);
      KidFollows(mem, full, cap, kids, ch[0]);
      assert rest[0] == if |kids| == 1 then ch[0] else kids[1];
      ChainOnto(mem, full, cap, kids[0], rest);
      assert kids + ch == [kids[0]] + rest;
    }
  }

  lemma {:induction false} StackPushed(mem: Memory, full: map<Ptr, string>, kids: seq<Ptr>, ch: seq<Ptr>)
    requires ch != []
    ensures StackOf(mem, full, kids + ch) == EntriesOf(mem, full, kids) + StackOf(mem, full, ch)
  {
    if kids == [] {
      assert kids + ch == ch;
    } else {
      StackPushed(mem, full, kids[1..], ch);
      assert (kids + ch)[1..] == kids[1..] + ch;
    }
  }

  /** The structures after fts_build has put `n` at address `q` on the tail of its list. */
  function WithChild(mem: Memory, tail: Ptr, q: Ptr, n: Ftsent): Memory {
    (if tail in mem then mem[tail := mem[tail].(link := q)] else mem)[q := n]
  }

  function Last(kids: seq<Ptr>): Ptr {
    if kids == [] then NULL else kids[|kids| - 1]
  }

  lemma {:induction false} LastKid(mem: Memory, full: map<Ptr, string>, cap: int, kids: seq<Ptr>, dir: Ptr)
    requires KidList(mem, full, cap, kids, dir) && kids != []
    ensures Last(kids) in mem && kids[0] != NULL && Last(kids) != NULL && Last(kids) >= kids[0]
    ensures mem[Last(kids)].level == mem[dir].level + 1
    decreases |kids|
  {
    if |kids| > 1 { LastKid(mem, full, cap, kids[1..], dir); }
  }

  /** A new entry goes on the tail of the list being built. */
  lemma {:induction false} KidAppended(mem: Memory, full: map<Ptr, string>, cap: int, kids: seq<Ptr>, dir: Ptr, q: Ptr, n: Ftsent)
    requires KidList(mem, full, cap, kids, dir) && NULL !in mem && (forall p :: p in mem ==> p < q)
    requires NodeOk(mem[q := n], full, cap, q)
    requires n.parent == dir && n.level == mem[dir].level + 1 && n.link == NULL && n.instr == NoInstr
    requires n.errno != 0 ==> n.info == NS
    ensures KidList(WithChild(mem, Last(kids), q, n), full, cap, kids + [q], dir)
    decreases |kids|
  {
    var all := kids + [q];
    if kids == [] {
      assert all == [q];
    } else {
      assert all[0] == kids[0] && all[1..] == kids[1..] + [q];
      LastKid(mem, full, cap, kids, dir);
      if |kids| == 1 {
        assert all[1..] == [q];
      } else {
        KidAppended(mem, full, cap, kids[1..], dir, q, n);
        LastKid(mem, full, cap, kids[1..], dir);
      }
    }
  }

  lemma {:induction false} EntriesAppended(mem: Memory, mem': Memory, full: map<Ptr, string>, full': map<Ptr, string>,
                                           cap: int, kids: seq<Ptr>, dir: Ptr, q: Ptr)
    requires KidList(mem, full, cap, kids, dir)
    requires forall p :: p in mem ==> p in mem' && mem'[p].(link := mem[p].link) == mem[p]
    requires forall p :: p in full ==> p in full' && full'[p] == full[p]
    ensures EntriesOf(mem', full', kids + [q]) == EntriesOf(mem, full, kids) + [EntryOf(mem', full', q)]
    decreases |kids|
  {
    if kids == [] {
      assert kids + [q] == [q];
    } else {
      EntriesAppended(mem, mem', full, full', cap, kids[1..], dir, q);
      assert (kids + [q])[1..] == kids[1..] + [q];
    }
  }

  // --------------------------------------------------------- lists to be freed

  /** A NULL-terminated list of live structures of one level. */
  ghost predicate Linked(mem: Memory, list: seq<Ptr>, level: int)
    decreases |list|
  {
    list != [] ==>
      && list[0] in mem && list[0] != NULL && mem[list[0]].level == level
      && (if |list| == 1 then mem[list[0]].link == NULL else mem[list[0]].link == list[1] > list[0])
      && Linked(mem, list[1..], level)
  }

  lemma {:induction false} KidsLinked(mem: Memory, full: map<Ptr, string>, cap: int, kids: seq<Ptr>, dir: Ptr)
    requires KidList(mem, full, cap, kids, dir)
    ensures Linked(mem, kids, mem[dir].level + 1)
    decreases |kids|
  {
    if kids != [] { KidsLinked(mem, full, cap, kids[1..], dir); }
  }

  lemma {:induction false} LinkedFramed(mem: Memory, mem': Memory, list: seq<Ptr>, level: int)
    requires Linked(mem, list, level)
    requires list != [] ==>
      forall q :: q in mem && mem[q].level == level && q >= list[0] ==> q in mem' && mem'[q] == mem[q]
    ensures Linked(mem', list, level)
    decreases |list|
  {
    if list != [] { LinkedFramed(mem, mem', list[1..], level); }
  }

  lemma FreeOne(mem: Memory, p: Ptr)
    requires p in mem
    ensures |mem - {p}| == |mem| - 1
  {
    assert (mem - {p}).Keys == mem.Keys - {p};
    assert |mem.Keys - {p}| == |mem.Keys| - 1;
  }
}
