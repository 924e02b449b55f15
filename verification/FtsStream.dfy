/** The stream operations on the values they read and write: fts_build, fts_stat,
    fts_read, fts_children and fts_close (library/fts/fts.c), with FTS_NOCHDIR
    and without FTS_NOSTAT. */
module FtsStream {
  import opened Common
  import opened FtsSpec
  import opened FtsStack
  import opened FtsMemory
  import FtsTour

  /** The fields of an FTS, the heap its structures live in, and the next free address:
      an address is used once, so freeing a structure twice is visible. */
  datatype Stream = Stream(
    mem: Memory, cur: Ptr, child: Ptr, dev: int, path: string, nameOnly: bool, brk: Ptr)

  /** What the proof remembers: the chain and the child list the pointers spell out, the
      full path of each structure, and whether fts_children left a slash in the buffer. */
  datatype Shadow = Shadow(chain: seq<Ptr>, kids: seq<Ptr>, full: map<Ptr, string>, slash: bool)

  // ------------------------------------------------------------- invariants

  /** Addresses are handed out once, in order: a live structure can only be one of them. */
  ghost predicate Books(mem: Memory, full: map<Ptr, string>, brk: Ptr) {
    && brk >= 1 && (forall p :: p in mem ==> 1 <= p < brk) && (forall p :: p in full ==> p < brk)
  }

  ghost function Here(s: Stream, g: Shadow): Entry {
    EntryOf(s.mem, g.full, s.cur)
  }

  ghost function StackAt(s: Stream, g: Shadow): seq<Entry> {
    StackOf(s.mem, g.full, g.chain)
  }

  /** What is allocated, and how it hangs together, while a node is being visited.  The
      chain and the child list are all there is: nothing has leaked. */
  ghost predicate Visiting(env: Env, s: Stream, g: Shadow) {
    && Books(s.mem, g.full, s.brk) && |s.mem| == |g.chain| + |g.kids|
    && |g.chain| >= 2 && s.cur == g.chain[0]
    && Chained(s.mem, g.full, |s.path|, g.chain) && KidList(s.mem, g.full, |s.path|, g.kids, s.cur)
    && s.mem[s.cur].pathlen == |g.full[s.cur]|
    && (s.mem[s.cur].errno != 0 ==> env.list(g.full[s.cur]).Unreadable?)
    && Acyclic(env, StackAt(s, g))
  }

  // -------------------------------------------------------- malloc and free

  /** What fts_alloc puts in a structure; what it leaves uninitialised is arbitrary. */
  method Blank(env: Env, name: string) returns (n: Ftsent)
    ensures n.name == name && n.errno == 0 && n.instr == NoInstr && n.id == env.junk
  {
    n := *;
    n := n.(name := name, errno := 0, instr := NoInstr, id := env.junk);
  }

  /** fts_lfree: each structure is freed while it is live, and only those on the list. */
  method FreeList(mem: Memory, start: Ptr, ghost list: seq<Ptr>, ghost level: int) returns (r: Memory)
    requires Linked(mem, list, level) && start == (if list == [] then NULL else list[0])
    ensures |r| == |mem| - |list| && r.Keys <= mem.Keys
    ensures forall q :: q in mem && mem[q].level < level ==> q in r && r[q] == mem[q]
  {
    r := mem;
    var head := start;
    ghost var left := list;
    while head != NULL
      invariant Linked(r, left, level) && head == (if left == [] then NULL else left[0])
      invariant |r| - |left| == |mem| - |list| && r.Keys <= mem.Keys
      invariant forall q :: q in mem && mem[q].level < level ==> q in r && r[q] == mem[q]
      decreases |left|
    {
      var p := head;
      ghost var was := r;
      head := r[head].link;
      r := r - {p};
      left := left[1..];
      FreeOne(was, p);
      LinkedFramed(was, r, left, level);
    }
  }

  method FreeChildren(env: Env, s: Stream, ghost g: Shadow) returns (r: Stream, ghost h: Shadow)
    requires Visiting(env, s, g) && s.child == (if g.kids == [] then NULL else g.kids[0])
    ensures Visiting(env, r, h)
    ensures r == s.(mem := r.mem) && h == g.(kids := [])
    ensures StackAt(r, h) == StackAt(s, g) && r.mem[s.cur] == s.mem[s.cur]
  {
    KidsLinked(s.mem, g.full, |s.path|, g.kids, s.cur);
    var mem := FreeList(s.mem, s.child, g.kids, s.mem[s.cur].level + 1);
    r := s.(mem := mem);
    h := g.(kids := []);
    ChainFramed(s.mem, mem, g.full, g.full, |s.path|, |s.path|, g.chain);
  }

  // ---------------------------------------------------------------- fts_stat

  method FindCycle(mem: Memory, start: Ptr, id: FileId, ghost full: map<Ptr, string>, ghost cap: int, ghost up: seq<Ptr>)
    returns (r: Ptr)
    requires Chained(mem, full, cap, up) && start == up[0]
    ensures r == NULL <==> id !in UpIds(mem, full, up)
    ensures r != NULL ==> r in up && r in mem && mem[r].id == id
  {
    var t := start;
    ghost var ch := up;
    while mem[t].level >= 0
      invariant Chained(mem, full, cap, ch) && t == ch[0] && forall p :: p in ch ==> p in up
      invariant id in UpIds(mem, full, up) <==> id in UpIds(mem, full, ch)
      decreases |ch|
    {
      if mem[t].id == id { return t; }
      ghost var m := ParentInChain(mem, full, cap, ch);
      t := mem[t].parent;
      ch := ch[m..];
    }
    return NULL;
  }

  /** fts_stat on structure `n`, including the brute-force search of its ancestors for a cycle. */
  method Stat(env: Env, mem: Memory, n: Ftsent, accpath: string, follow: bool,
              ghost full: map<Ptr, string>, ghost cap: int, ghost up: seq<Ptr>)
    returns (r: Ftsent)
    requires Chained(mem, full, cap, up) && n.parent == up[0]
    ensures r == n.(
      info := Classify(env, accpath, n.name, UpIds(mem, full, up), follow),
      id := StatId(env, accpath, follow, n.id),
      errno := r.errno, cycle := r.cycle)
    ensures FtsTour.Coded(env, accpath, n.name, UpIds(mem, full, up), follow, r.info)
    ensures r.info != Init && (r.errno != n.errno ==> r.info == NS)
    ensures r.info == DC ==> r.cycle in up && r.cycle in mem && mem[r.cycle].id == r.id
  {
    var sb := if env.logical || follow then env.stat(accpath) else env.lstat(accpath);
    match sb
    case Fails(e) =>
      if env.logical || follow {
        if env.lstat(accpath).Found? { return n.(info := SLNone); }
      }
      return n.(info := NS, errno := e);
    case Found(Directory(id)) =>
      r := n.(id := id);
      if IsDot(n.name) { return r.(info := Dot); }
      var t := FindCycle(mem, n.parent, id, full, cap, up);
      if t != NULL { return r.(info := DC, cycle := t); }
      return r.(info := D);
    case Found(Symlink) => return n.(info := SL);
    case Found(Regular) => return n.(info := F);
    case Found(Special) => return n.(info := Default);
  }

  // ---------------------------------------------------------- the path buffer

  /** fts_pow2 on sizes below 2^31. */
  function PowerOfTwo(p: nat, x: nat): (r: nat)
    requires p > 0
    ensures r >= x
    decreases x - p
  {
    if p >= x then p else PowerOfTwo(2 * p, x)
  }

  /** fts_palloc: the buffer grows to a power of two and keeps its contents. */
  function GrowPath(path: string, size: nat): (r: string)
    requires size > |path|
    ensures |r| >= size && r[..|path|] == path
  {
    path + seq(PowerOfTwo(1, size) - |path|, _ => '?')
  }

  /** NAPPEND: a trailing slash of the directory is written over. */
  function NAppend(path: string, pathlen: nat): nat
    requires 0 < pathlen <= |path|
  {
    if path[pathlen - 1] == '/' then pathlen - 1 else pathlen
  }

  function Separator(path: string, len: nat): string
    requires 0 < len <= |path|
  {
    if path[len - 1] == ':' then "" else "/"
  }

  /** fts_build before it reads: the buffer with a slash after the directory, and where names go.
      (For the path "/" the character before the buffer would be looked at.) */
  function BeginNames(path: string, pathlen: nat): (r: (string, nat))
    requires 0 < pathlen < |path| && NAppend(path, pathlen) > 0
    ensures |r.0| == |path| && 0 < r.1 <= |path|
  {
    var len := NAppend(path, pathlen);
    if path[len - 1] == ':' then (path, len) else (path[len := '/'], len + 1)
  }

  /** fts_build after it has read: the buffer is cut where names went, or one place before if there
      were none or there is no room. */
  function EndNames(path: string, cp: nat, none: bool): (r: string)
    requires 0 < cp <= |path|
    ensures |r| == |path|
  {
    path[(if none || cp == |path| then cp - 1 else cp) := '\0']
  }

  lemma PlainNames(path: string, dir: string)
    requires GoodName(dir) && |dir| < |path| && path[..|dir|] == dir
    ensures NAppend(path, |dir|) == |dir| && BeginNames(path, |dir|) == (Write(path, |dir|, "/"), |dir| + 1)
  {
    assert path[|dir| - 1] == dir[|dir| - 1];
    assert path[|dir| := '/'] == Write(path, |dir|, "/");
  }

  predicate EndsInSeparator(dir: string)
    requires dir != []
  {
    dir[|dir| - 1] == '/' || dir[|dir| - 1] == ':'
  }

  /** The buffer still starts with the path of a directory that has been listed if and only if there
      were entries or the path does not end in a slash or colon: else its last character is lost. */
  lemma PathKept(path: string, dir: string, none: bool)
    requires |dir| > 1 && |dir| + 1 < |path| && path[..|dir|] == dir && '\0' !in dir
    requires !(dir[|dir| - 1] == '/' && dir[|dir| - 2] == ':')
    ensures var (b, cp) := BeginNames(path, |dir|);
      cp < |path| && (EndNames(b, cp, none)[..|dir|] == dir <==> !none || !EndsInSeparator(dir))
    ensures var (b, cp) := BeginNames(path, |dir|);
      none && EndsInSeparator(dir) ==> EndNames(b, cp, none)[..|dir|] == dir[..|dir| - 1] + "\0"
  {
    var last := |dir| - 1;
    assert path[last] == dir[last] && path[last - 1] == dir[last - 1];
    var (b, cp) := BeginNames(path, |dir|);
    assert b[..|dir|] == dir;
    var r := EndNames(b, cp, none);
    if none && EndsInSeparator(dir) {
      assert r[last] == '\0' && dir[last] != '\0';
    } else {
      assert r[..|dir|] == b[..|dir|];
    }
  }

  /** The buffer while directory `dir` is being read: its path and a slash. */
  ghost predicate Prefixed(path: string, dir: string) {
    |dir| + 1 <= |path| && path[..|dir|] == dir && path[|dir|] == '/'
  }

  // --------------------------------------------------------------- fts_build

  /** Where the readdir loop of fts_build stands: the heap, the path buffer, the next
      address, and the list built so far. */
  datatype Draft = Draft(heap: Memory, path: string, brk: Ptr, head: Ptr, tail: Ptr)

  /** The heap is `mem` plus the structures `kids`, a list for directory `cur`. */
  ghost predicate Drafted(mem: Memory, named: map<Ptr, string>, d: Draft, kids: seq<Ptr>, full: map<Ptr, string>, cur: Ptr) {
    && cur in mem && cur in named && mem[cur].level >= 0 && GoodName(named[cur])
    && Keeps(mem, d.heap, named, full, cur) && (forall q :: q in mem ==> q in d.heap)
    && Books(d.heap, full, d.brk) && |d.heap| == |mem| + |kids|
    && KidList(d.heap, full, |d.path|, kids, cur)
    && Prefixed(d.path, named[cur])
    && d.head == (if kids == [] then NULL else kids[0]) && d.tail == Last(kids)
    && (kids != [] ==> |d.path| > |named[cur]| + 1)
  }

  /** A structure says of an entry of directory `dir` what the tour says of it. */
  ghost predicate Describes(env: Env, dir: string, n: Ftsent, ids: set<FileId>) {
    var f := dir + "/" + n.name;
    && n.info == Classify(env, f, n.name, ids, false)
    && n.id == StatId(env, f, false, env.junk)
  }

  /** What fts_build fills in before an entry goes on the list of directory `cur`. */
  ghost predicate Fits(mem: Memory, dir: string, cur: Ptr, n: Ftsent, buf: string)
    requires cur in mem
  {
    && GoodName(n.name) && Prefixed(buf, dir)
    && n.parent == cur && n.level == mem[cur].level + 1 && n.link == NULL && n.instr == NoInstr
    && n.pathlen == |dir| + 1 + |n.name| < |buf| && n.info != Init && (n.errno != 0 ==> n.info == NS)
  }

  /** A structure for an entry of the directory `cur`, and the buffer its path was tried in. */
  method NewChild(env: Env, mem: Memory, path: string, cur: Ptr, name: string, namesOnly: bool,
                  ghost full: map<Ptr, string>, ghost chain: seq<Ptr>)
    returns (n: Ftsent, buf: string)
    requires Chained(mem, full, |path|, chain) && |chain| >= 2 && cur == chain[0]
    requires GoodName(name) && mem[cur].pathlen == |full[cur]| && Prefixed(path, full[cur])
    ensures n.name == name && |buf| >= |path| && Fits(mem, full[cur], cur, n, buf)
    ensures !namesOnly ==> Describes(env, full[cur], n, UpIds(mem, full, chain))
  {
    n := Blank(env, name);
    buf := path;
    var len := mem[cur].pathlen + 1;
    if |name| >= |buf| - len {
      buf := GrowPath(buf, |name| + len + 1);
    }
    n := n.(level := mem[cur].level + 1, pathlen := len + |name|, parent := cur, link := NULL);
    if namesOnly {
      n := n.(info := NSOK);
    } else {
      buf := Write(buf, len, name + "\0");
      SpellsFromWrite(buf, full[cur], name);
      n := Stat(env, mem, n, CString(buf), false, full, |path|, chain);
    }
  }

  lemma DraftGrown(mem: Memory, named: map<Ptr, string>, d: Draft, kids: seq<Ptr>, full: map<Ptr, string>, cur: Ptr, n: Ftsent, buf: string)
    requires Drafted(mem, named, d, kids, full, cur) && |d.path| <= |buf|
    requires Fits(mem, named[cur], cur, n, buf)
    ensures Drafted(mem, named,
                    Draft(WithChild(d.heap, d.tail, d.brk, n), buf, d.brk + 1, if kids == [] then d.brk else d.head, d.brk),
                    kids + [d.brk], full[d.brk := named[cur] + "/" + n.name], cur)
  {
    var full' := full[d.brk := named[cur] + "/" + n.name];
    ChildPath(named[cur], n.name);
    KidListFramed(d.heap, d.heap, full, full', |d.path|, |buf|, kids, cur);
    KidAppended(d.heap, full', |buf|, kids, cur, d.brk, n);
    if kids != [] { LastKid(d.heap, full, |d.path|, kids, cur); }
  }

  lemma DraftEntries(d: Draft, kids: seq<Ptr>, full: map<Ptr, string>, cur: Ptr, n: Ftsent, f: string)
    requires KidList(d.heap, full, |d.path|, kids, cur) && Books(d.heap, full, d.brk)
    ensures var heap', full' := WithChild(d.heap, d.tail, d.brk, n), full[d.brk := f];
      EntriesOf(heap', full', kids + [d.brk])
      == EntriesOf(d.heap, full, kids) + [Entry(f, n.name, n.level, n.info, n.id)]
  {
    EntriesAppended(d.heap, WithChild(d.heap, d.tail, d.brk, n), full, full[d.brk := f], |d.path|, kids, cur, d.brk);
  }

  /** One turn of the readdir loop: a new structure on the tail of the list. */
  method AddChild(env: Env, d: Draft, cur: Ptr, name: string, namesOnly: bool,
                  ghost mem: Memory, ghost named: map<Ptr, string>, ghost chain: seq<Ptr>, ghost cap: int,
                  ghost kids: seq<Ptr>, ghost full: map<Ptr, string>)
    returns (r: Draft, ghost full': map<Ptr, string>, ghost e: Entry)
    requires Chained(mem, named, cap, chain) && |chain| >= 2 && cur == chain[0] && mem[cur].pathlen == |named[cur]|
    requires cap <= |d.path| && Drafted(mem, named, d, kids, full, cur) && GoodName(name)
    ensures Drafted(mem, named, r, kids + [d.brk], full', cur) && |r.path| >= |d.path|
    ensures EntriesOf(r.heap, full', kids + [d.brk]) == EntriesOf(d.heap, full, kids) + [e]
    ensures !namesOnly ==> e == Child(env, EntryOf(mem, named, cur), UpIds(mem, named, chain), name)
  {
    ChainFramed(mem, d.heap, named, full, cap, |d.path|, chain);
    var n, buf := NewChild(env, d.heap, d.path, cur, name, namesOnly, full, chain);
    DraftGrown(mem, named, d, kids, full, cur, n, buf);
    DraftEntries(d, kids, full, cur, n, named[cur] + "/" + name);
    if kids != [] { LastKid(d.heap, full, |d.path|, kids, cur); }
    e := Entry(named[cur] + "/" + name, n.name, n.level, n.info, n.id);
    full' := full[d.brk := named[cur] + "/" + name];
    r := d.(path := buf, brk := d.brk + 1, tail := d.brk);
    if d.head == NULL {
      r := r.(head := d.brk);
    } else {
      r := r.(heap := d.heap[d.tail := d.heap[d.tail].(link := d.brk)]);
    }
    r := r.(heap := r.heap[d.brk := n]);
  }

  /** The list stands for the given entries, by number at least. */
  ghost predicate Matches(d: Draft, kids: seq<Ptr>, full: map<Ptr, string>, namesOnly: bool, all: seq<Entry>) {
    |kids| == |all| && (!namesOnly ==> EntriesOf(d.heap, full, kids) == all)
  }

  /** One turn of the loop, with the entries that are passed over. */
  method AddListed(env: Env, d: Draft, cur: Ptr, name: string, namesOnly: bool,
                   ghost mem: Memory, ghost named: map<Ptr, string>, ghost chain: seq<Ptr>, ghost cap: int,
                   ghost kids: seq<Ptr>, ghost full: map<Ptr, string>, ghost all: seq<Entry>)
    returns (r: Draft, ghost kids': seq<Ptr>, ghost full': map<Ptr, string>)
    requires Chained(mem, named, cap, chain) && |chain| >= 2 && cur == chain[0] && mem[cur].pathlen == |named[cur]|
    requires cap <= |d.path| && Drafted(mem, named, d, kids, full, cur) && GoodName(name)
    requires Matches(d, kids, full, namesOnly, all)
    ensures Drafted(mem, named, r, kids', full', cur) && |r.path| >= |d.path|
    ensures var e := Child(env, EntryOf(mem, named, cur), UpIds(mem, named, chain), name);
      Matches(r, kids', full', namesOnly, all + if Listed(env, name) then [e] else [])
  {
    r, kids', full' := d, kids, full;
    Empty(all);
    if Listed(env, name) {
      ghost var e;
      r, full', e := AddChild(env, d, cur, name, namesOnly, mem, named, chain, cap, kids, full);
      kids' := kids + [d.brk];
    }
  }

  /** The readdir loop of fts_build. */
  method ReadEntries(env: Env, mem: Memory, path: string, brk: Ptr, cur: Ptr, names: seq<string>, namesOnly: bool,
                     ghost named: map<Ptr, string>, ghost chain: seq<Ptr>)
    returns (d: Draft, ghost kids: seq<Ptr>, ghost full: map<Ptr, string>)
    requires Chained(mem, named, |path|, chain) && |chain| >= 2 && cur == chain[0] && mem[cur].pathlen == |named[cur]|
    requires path[..|named[cur]|] == named[cur] && Books(mem, named, brk)
    requires forall n :: n in names ==> GoodName(n)
    ensures Drafted(mem, named, d, kids, full, cur) && |d.path| >= |path|
    ensures Matches(d, kids, full, namesOnly, Children(env, EntryOf(mem, named, cur), UpIds(mem, named, chain), names))
  {
    ghost var here, ids := EntryOf(mem, named, cur), UpIds(mem, named, chain);
    PlainNames(path, named[cur]);
    d, kids, full := Draft(mem, BeginNames(path, mem[cur].pathlen).0, brk, NULL, NULL), [], named;
    var i := 0;
    while i < |names|
      invariant 0 <= i <= |names|
      invariant Drafted(mem, named, d, kids, full, cur) && |d.path| >= |path|
      invariant Matches(d, kids, full, namesOnly, Children(env, here, ids, names[..i]))
    {
      ChildrenStep(env, here, ids, names, i);
      d, kids, full := AddListed(env, d, cur, names[i], namesOnly, mem, named, chain, |path|, kids, full,
                                 Children(env, here, ids, names[..i]));
      i := i + 1;
    }
    assert names[..i] == names;
  }

  lemma HeadFramed(mem: Memory, full: map<Ptr, string>, cap: int, ch: seq<Ptr>, n: Ftsent)
    requires Chained(mem, full, cap, ch) && |ch| >= 2
    requires n.link == mem[ch[0]].link && n.parent == mem[ch[0]].parent && n.level == mem[ch[0]].level
    requires n.level > 0 ==> n.name == mem[ch[0]].name && n.pathlen == mem[ch[0]].pathlen
    requires n.info != Init
    ensures Chained(mem[ch[0] := n], full, cap, ch)
    ensures StackOf(mem[ch[0] := n], full, ch) == [EntryOf(mem[ch[0] := n], full, ch[0])] + StackOf(mem, full, ch)[1..]
  {
    ChainFramed(mem, mem[ch[0] := n], full, full, cap, cap, ch[1..]);
  }

  /** fts_read and fts_build rewrite the current structure in place. */
  lemma HeadRewritten(env: Env, s: Stream, g: Shadow, n: Ftsent)
    requires Visiting(env, s, g)
    requires n.link == s.mem[s.cur].link && n.parent == s.mem[s.cur].parent && n.level == s.mem[s.cur].level
    requires n.name == s.mem[s.cur].name && n.pathlen == s.mem[s.cur].pathlen && n.info != Init
    requires n.errno != 0 ==> env.list(g.full[s.cur]).Unreadable?
    requires Known(env, Here(s, g).(info := n.info, id := n.id)) && (n.info == D ==> n.id !in AncestorIds(StackAt(s, g)))
    ensures var r := s.(mem := s.mem[s.cur := n]);
      && Visiting(env, r, g) && StackAt(r, g) == [Here(r, g)] + StackAt(s, g)[1..]
      && AncestorIds(StackAt(r, g)) == AncestorIds(StackAt(s, g))
      && EntriesOf(r.mem, g.full, g.kids) == EntriesOf(s.mem, g.full, g.kids)
  {
    HeadFramed(s.mem, g.full, |s.path|, g.chain, n);
    KidListFramed(s.mem, s.mem[s.cur := n], g.full, g.full, |s.path|, |s.path|, g.kids, s.cur);
  }

  // fts_build flags
  datatype BuildKind = BChild | BNames | BRead

  /** The stream once the list for the current directory is complete and the buffer reset. */
  lemma DraftDone(env: Env, s: Stream, g: Shadow, d: Draft, kids: seq<Ptr>, full: map<Ptr, string>, path: string)
    requires Visiting(env, s, g) && g.kids == [] && Drafted(s.mem, g.full, d, kids, full, s.cur)
    requires |path| == |d.path| >= |s.path|
    ensures var r, h := s.(mem := d.heap, path := path, brk := d.brk), g.(kids := kids, full := full, slash := kids != []);
      Visiting(env, r, h) && StackAt(r, h) == StackAt(s, g) && r.mem[s.cur] == s.mem[s.cur]
  {
    ChainFramed(s.mem, d.heap, g.full, full, |s.path|, |d.path|, g.chain);
  }

  /** The directory named by the buffer is the one being visited. */
  lemma ListsCurrent(env: Env, path: string, f: string, slash: bool)
    requires SaneFiles(env) && Spells(path, f, slash) && GoodName(f)
    ensures env.list(CString(path)) == env.list(f)
    ensures env.list(f).Entries? ==> forall n :: n in env.list(f).names ==> GoodName(n)
  {
    SpellsString(path, f, slash);
  }

  /** fts_build after opendir: the list of the directory being visited. */
  method BuildList(env: Env, s: Stream, names: seq<string>, namesOnly: bool, ghost g: Shadow)
    returns (r: Stream, head: Ptr, ghost h: Shadow)
    requires Visiting(env, s, g) && g.kids == [] && Spells(s.path, g.full[s.cur], g.slash)
    requires forall n :: n in names ==> GoodName(n)
    ensures Visiting(env, r, h) && r == s.(mem := r.mem, path := r.path, brk := r.brk)
    ensures h == g.(kids := h.kids, full := h.full, slash := h.kids != [])
    ensures PathOf(h.full, s.cur) == g.full[s.cur] && Spells(r.path, g.full[s.cur], h.slash)
    ensures head == (if h.kids == [] then NULL else h.kids[0])
    ensures StackAt(r, h) == StackAt(s, g) && r.mem[s.cur] == s.mem[s.cur]
    ensures var all := Children(env, Here(s, g), {Here(s, g).id} + AncestorIds(StackAt(s, g)), names);
      |h.kids| == |all| && (!namesOnly ==> EntriesOf(r.mem, h.full, h.kids) == all)
  {
    var d;
    ghost var kids, full;
    d, kids, full := ReadEntries(env, s.mem, s.path, s.brk, s.cur, names, namesOnly, g.full, g.chain);
    head := d.head;
    if kids != [] { LastKid(d.heap, full, |d.path|, kids, s.cur); }
    var path := EndNames(d.path, s.mem[s.cur].pathlen + 1, head == NULL);
    DraftDone(env, s, g, d, kids, full, path);
    r := s.(mem := d.heap, path := path, brk := d.brk);
    h := g.(kids := kids, full := full, slash := kids != []);
  }

  /** The children of the directory being visited, as the tour sees them. */
  ghost function Offspring(env: Env, s: Stream, g: Shadow): seq<Entry> {
    Reading(env, Here(s, g), AncestorIds(StackAt(s, g)))
  }

  /** What fts_build makes of the directory it was called for. */
  ghost function BuiltInfo(env: Env, s: Stream, g: Shadow, kind: BuildKind): Info {
    if kind != BRead || Offspring(env, s, g) != [] then D
    else if env.list(PathOf(g.full, s.cur)).Unreadable? then DNR else DP
  }

  /** fts_build for a directory in pre-order. */
  method Build(env: Env, s: Stream, kind: BuildKind, ghost g: Shadow)
    returns (r: Stream, head: Ptr, ghost h: Shadow)
    requires SaneFiles(env) && Visiting(env, s, g) && g.kids == [] && s.mem[s.cur].info == D
    requires Spells(s.path, g.full[s.cur], g.slash) && (g.slash ==> env.list(g.full[s.cur]).Entries?)
    ensures Visiting(env, r, h) && r == s.(mem := r.mem, path := r.path, brk := r.brk)
    ensures h == g.(kids := h.kids, full := h.full, slash := h.kids != [])
    ensures PathOf(h.full, s.cur) == g.full[s.cur] && Spells(r.path, g.full[s.cur], h.slash)
    ensures head == (if h.kids == [] then NULL else h.kids[0])
    ensures StackAt(r, h) == [Here(s, g).(info := BuiltInfo(env, s, g, kind))] + StackAt(s, g)[1..]
    ensures AncestorIds(StackAt(r, h)) == AncestorIds(StackAt(s, g)) && r.mem[s.cur].instr == s.mem[s.cur].instr
    ensures |h.kids| == |Offspring(env, s, g)| && (kind != BNames ==> EntriesOf(r.mem, h.full, h.kids) == Offspring(env, s, g))
  {
    ListsCurrent(env, s.path, g.full[s.cur], g.slash);
    match env.list(CString(s.path))
    case Unreadable(e) =>
      r, head, h := s, NULL, g;
      if kind == BRead {
        var n := s.mem[s.cur].(info := DNR, errno := e);
        HeadRewritten(env, s, g, n);
        r := s.(mem := s.mem[s.cur := n]);
      }
    case Entries(names) =>
      r, head, h := BuildList(env, s, names, kind == BNames, g);
      if h.kids != [] { LastKid(r.mem, h.full, |r.path|, h.kids, s.cur); }
      if head == NULL && kind == BRead {
        var n := r.mem[s.cur].(info := DP);
        HeadRewritten(env, r, h, n);
        r := r.(mem := r.mem[s.cur := n]);
      }
  }
}
