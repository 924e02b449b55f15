/** fts_read, fts_children and fts_close (library/fts/fts.c:244-602) as steps of the
    stack machine of FtsStack. */
module FtsRead {
  import opened FtsSpec
  import opened FtsStack
  import opened FtsMemory
  import opened FtsStream

  /** A node has been returned and the stream waits for the next call. */
  ghost predicate Walking(env: Env, s: Stream, g: Shadow) {
    && Visiting(env, s, g) && s.child == (if g.kids == [] then NULL else g.kids[0])
    && Spells(s.path, g.full[s.cur], g.slash)
    && (g.slash ==> env.list(g.full[s.cur]).Entries? && s.mem[s.cur].info != SL && s.mem[s.cur].info != SLNone)
    && (g.kids != [] ==> g.slash && s.mem[s.cur].info == D && |g.kids| == |Offspring(env, s, g)|)
    && (g.kids != [] && !s.nameOnly ==> EntriesOf(s.mem, g.full, g.kids) == Offspring(env, s, g))
  }

  ghost function WalkAt(s: Stream, g: Shadow): Walk {
    Walk(StackAt(s, g), s.dev)
  }

  // ---------------------------------------------------- the node is re-visited

  /** FTS_AGAIN and FTS_FOLLOW: stat the current file once more and return it. */
  method ReadAgain(env: Env, s: Stream, follow: bool, ghost g: Shadow) returns (r: Stream)
    requires SaneFiles(env) && Walking(env, s, g) && (g.kids != [] ==> !IsDot(s.mem[s.cur].name))
    requires follow ==> s.mem[s.cur].info == SL || s.mem[s.cur].info == SLNone
    ensures Walking(env, r, g) && r == s.(mem := r.mem) && r.mem[s.cur].instr == s.mem[s.cur].instr
    ensures var e, ids, f := Here(s, g), AncestorIds(StackAt(s, g)), follow || g.slash;
      StackAt(r, g) == [e.(info := Classify(env, e.path, e.name, ids, f), id := StatId(env, e.path, f, e.id))]
                       + StackAt(s, g)[1..]
  {
    ghost var m := ParentInChain(s.mem, g.full, |s.path|, g.chain);
    SpellsString(s.path, g.full[s.cur], g.slash);
    var n := Stat(env, s.mem, s.mem[s.cur], CString(s.path), follow, g.full, |s.path|, g.chain[m..]);
    ghost var e, ids := Here(s, g), AncestorIds(StackAt(s, g));
    SlashFollows(env, e.path, e.name, ids, follow, g.slash, e.id);
    StillKnown(env, s, g, n, follow || g.slash);
    HeadRewritten(env, s, g, n);
    r := s.(mem := s.mem[s.cur := n]);
    StillWalking(env, s, g, n);
  }

  /** A structure that fts_stat has looked at again. */
  ghost predicate Restated(env: Env, s: Stream, g: Shadow, n: Ftsent, follow: bool)
    requires s.cur in s.mem
  {
    var e, ids := Here(s, g), AncestorIds(StackAt(s, g));
    && n == s.mem[s.cur].(info := n.info, id := n.id, errno := n.errno, cycle := n.cycle)
    && n.info == Classify(env, e.path, e.name, ids, follow) && n.id == StatId(env, e.path, follow, e.id)
    && (n.errno != s.mem[s.cur].errno ==> n.info == NS)
  }

  /** What was listed is still a directory, and the same one. */
  lemma StillKnown(env: Env, s: Stream, g: Shadow, n: Ftsent, follow: bool)
    requires SaneFiles(env) && Walking(env, s, g) && Restated(env, s, g, n, follow)
    requires (g.kids != [] ==> !IsDot(s.mem[s.cur].name)) && (g.slash ==> follow)
    ensures n.errno != 0 ==> env.list(g.full[s.cur]).Unreadable?
    ensures Known(env, Here(s, g).(info := n.info, id := n.id)) && (n.info == D ==> n.id !in AncestorIds(StackAt(s, g)))
    ensures g.slash ==> n.info != SL && n.info != SLNone
    ensures g.kids != [] && g.slash ==> n.info == D && n.id == s.mem[s.cur].id
  {
    var e := Here(s, g);
    Classified(env, e.path, e.name, AncestorIds(StackAt(s, g)), follow, e.id);
  }

  lemma StillWalking(env: Env, s: Stream, g: Shadow, n: Ftsent)
    requires Walking(env, s, g)
    requires var r := s.(mem := s.mem[s.cur := n]);
      && Visiting(env, r, g) && StackAt(r, g) == [Here(r, g)] + StackAt(s, g)[1..]
      && AncestorIds(StackAt(r, g)) == AncestorIds(StackAt(s, g))
      && EntriesOf(r.mem, g.full, g.kids) == EntriesOf(s.mem, g.full, g.kids)
    requires n.name == s.mem[s.cur].name && n.level == s.mem[s.cur].level
    requires g.slash ==> n.info != SL && n.info != SLNone
    requires g.kids != [] ==> n.info == D && n.id == s.mem[s.cur].id
    ensures Walking(env, s.(mem := s.mem[s.cur := n]), g)
  {
    var r := s.(mem := s.mem[s.cur := n]);
    if g.kids != [] {
      assert Here(r, g) == Here(s, g);
    }
  }

  /** Where a slash stands after the path of a directory that can be listed, fts_stat follows. */
  lemma SlashFollows(env: Env, path: string, name: string, ids: set<FileId>, follow: bool, slash: bool, before: FileId)
    requires SaneFiles(env) && (slash ==> env.list(path).Entries?)
    ensures var f, p := follow || slash, if slash then Slashed(path) else path;
      Classify(env, p, name, ids, follow) == Classify(env, path, name, ids, f)
      && StatId(env, p, follow, before) == StatId(env, path, f, before)
  {
  }

  /** A list of the current directory that may have been built is freed. */
  method Unlist(env: Env, s: Stream, ghost g: Shadow) returns (r: Stream, ghost h: Shadow)
    requires Walking(env, s, g)
    ensures Walking(env, r, h) && h.kids == [] && r == s.(mem := r.mem, child := NULL) && r.mem[s.cur] == s.mem[s.cur]
    ensures StackAt(r, h) == StackAt(s, g) && Here(r, h) == Here(s, g) && h.slash == g.slash
  {
    r, h := s, g;
    if s.child != NULL {
      r, h := FreeChildren(env, s, g);
      r := r.(child := NULL);
    } else if g.kids != [] {
      LastKid(s.mem, g.full, |s.path|, g.kids, s.cur);
      assert false;
    }
  }

  /** FTS_SKIP, or a directory on another device with FTS_XDEV: the post-order visit at once. */
  method ReadSkip(env: Env, s: Stream, ghost g: Shadow) returns (r: Stream, ghost h: Shadow)
    requires Walking(env, s, g) && s.mem[s.cur].info == D
    ensures Walking(env, r, h) && r.cur == s.cur && r.dev == s.dev && r.child == NULL && r.mem[s.cur].instr == s.mem[s.cur].instr
    ensures StackAt(r, h) == [Here(s, g).(info := DP)] + StackAt(s, g)[1..]
    ensures h.kids == [] && h.slash == g.slash
  {
    r, h := Unlist(env, s, g);
    var n := r.mem[s.cur].(info := DP);
    HeadRewritten(env, r, h, n);
    r := r.(mem := r.mem[s.cur := n]);
  }

  // ------------------------------------------------------ down into a directory

  /** The code at `name:`: the path of a node whose parent's path starts the buffer. */
  function EnterName(path: string, pathlen: nat, name: string): (r: string)
    requires 0 < pathlen && pathlen + |name| + 2 <= |path|
    ensures |r| == |path|
  {
    Write(path, NAppend(path, pathlen), Separator(path, pathlen) + name + "\0")
  }

  lemma EnterNameSpells(path: string, dir: string, name: string)
    requires GoodName(dir) && |dir| + |name| + 2 <= |path| && path[..|dir|] == dir
    ensures Spells(EnterName(path, |dir|, name), dir + "/" + name, false)
  {
    assert path[|dir| - 1] == dir[|dir| - 1];
    SpellsChild(path, dir, name);
  }

  lemma Entered(env: Env, s: Stream, g: Shadow, path: string)
    requires SaneFiles(env) && Visiting(env, s, g) && g.kids != [] && s.mem[s.cur].info == D && s.mem[s.cur].instr == NoInstr
    requires EntriesOf(s.mem, g.full, g.kids) == Offspring(env, s, g) && |path| == |s.path|
    ensures var r, h := s.(cur := g.kids[0], child := NULL, path := path), g.(chain := g.kids + g.chain, kids := [], slash := false);
      Visiting(env, r, h) && StackAt(r, h) == Offspring(env, s, g) + StackAt(s, g)
  {
    OffspringFresh(env, s, g);
    EnteredChain(env, s, g);
    AcyclicPushed(env, Offspring(env, s, g), StackAt(s, g));
  }

  lemma EnteredChain(env: Env, s: Stream, g: Shadow)
    requires Visiting(env, s, g) && s.mem[s.cur].info == D && s.mem[s.cur].instr == NoInstr && s.mem[s.cur].errno == 0
    ensures Chained(s.mem, g.full, |s.path|, g.kids + g.chain)
    ensures StackOf(s.mem, g.full, g.kids + g.chain) == EntriesOf(s.mem, g.full, g.kids) + StackAt(s, g)
  {
    KidsPushed(s.mem, g.full, |s.path|, g.kids, g.chain);
    StackPushed(s.mem, g.full, g.kids, g.chain);
  }

  /** A directory with entries has no error, and its entries are known. */
  lemma OffspringFresh(env: Env, s: Stream, g: Shadow)
    requires SaneFiles(env) && Visiting(env, s, g) && g.kids != [] && EntriesOf(s.mem, g.full, g.kids) == Offspring(env, s, g)
    ensures s.mem[s.cur].errno == 0
    ensures AllAt(Offspring(env, s, g), s.mem[s.cur].level + 1)
    ensures Fresh(env, Offspring(env, s, g), {Here(s, g).id} + AncestorIds(StackAt(s, g)))
    ensures s.mem[g.kids[0]].errno != 0 ==> env.list(g.full[g.kids[0]]).Unreadable?
  {
    var e, ids := Here(s, g), {Here(s, g).id} + AncestorIds(StackAt(s, g));
    assert Offspring(env, s, g)[0] == EntryOf(s.mem, g.full, g.kids[0]);
    match env.list(e.path) {
      case Unreadable(_) =>
      case Entries(names) =>
        ChildLevels(env, e, ids, names);
        ChildrenAreFresh(env, e, ids, names);
    }
  }

  /** The list of the current directory is ready: move on to its first entry. */
  method EnterFirst(env: Env, s: Stream, ghost g: Shadow) returns (r: Stream, ghost h: Shadow)
    requires SaneFiles(env) && Walking(env, s, g) && s.mem[s.cur].instr == NoInstr && s.child != NULL
    requires EntriesOf(s.mem, g.full, g.kids) == Offspring(env, s, g)
    ensures Walking(env, r, h) && r.dev == s.dev && r.mem[r.cur].instr == NoInstr && h.kids == [] && !h.slash
    ensures StackAt(r, h) == Offspring(env, s, g) + StackAt(s, g)
  {
    var p := s.child;
    var parent := s.mem[p].parent;
    var path := EnterName(s.path, s.mem[parent].pathlen, s.mem[p].name);
    EnterNameSpells(s.path, g.full[s.cur], s.mem[p].name);
    Entered(env, s, g, path);
    r := s.(cur := p, child := NULL, path := path);
    h := g.(chain := g.kids + g.chain, kids := [], slash := false);
  }

  /** fts_build, and its list as that of the stream. */
  method Relist(env: Env, s: Stream, kind: BuildKind, ghost g: Shadow) returns (r: Stream, ghost h: Shadow)
    requires SaneFiles(env) && Walking(env, s, g) && g.kids == [] && s.mem[s.cur].info == D && (kind == BNames ==> s.nameOnly)
    ensures Walking(env, r, h) && r.cur == s.cur && r.dev == s.dev && r.mem[s.cur].instr == s.mem[s.cur].instr
    ensures StackAt(r, h) == [Here(s, g).(info := BuiltInfo(env, s, g, kind))] + StackAt(s, g)[1..]
    ensures |h.kids| == |Offspring(env, s, g)| && (kind != BNames ==> EntriesOf(r.mem, h.full, h.kids) == Offspring(env, s, g))
    ensures (r.child == NULL <==> h.kids == []) && h.slash == (h.kids != [])
  {
    var head;
    r, head, h := Build(env, s, kind, g);
    if h.kids != [] { LastKid(r.mem, h.full, |r.path|, h.kids, s.cur); }
    HereFirst(env, s, g);
    Relisted(env, r, h, head, Offspring(env, s, g));
    r := r.(child := head);
  }

  lemma Relisted(env: Env, r: Stream, h: Shadow, head: Ptr, all: seq<Entry>)
    requires Visiting(env, r, h) && Spells(r.path, h.full[r.cur], h.slash) && h.slash == (h.kids != [])
    requires head == (if h.kids == [] then NULL else h.kids[0])
    requires h.kids != [] ==>
      && Offspring(env, r, h) == all && |h.kids| == |all| && r.mem[r.cur].info == D
      && (!r.nameOnly ==> EntriesOf(r.mem, h.full, h.kids) == all)
    ensures Walking(env, r.(child := head), h)
  {
  }

  lemma HereFirst(env: Env, s: Stream, g: Shadow)
    requires Walking(env, s, g)
    ensures StackAt(s, g) == [Here(s, g)] + StackAt(s, g)[1..]
  {
  }

  /** A directory in pre-order that is to be entered. */
  method ReadDown(env: Env, s: Stream, ghost g: Shadow) returns (r: Stream, ghost h: Shadow)
    requires SaneFiles(env) && Walking(env, s, g) && s.mem[s.cur].info == D && s.mem[s.cur].instr == NoInstr
    ensures Walking(env, r, h) && r.dev == s.dev && r.mem[r.cur].instr == NoInstr && h.kids == [] && !h.slash
    ensures StackAt(r, h) == if Offspring(env, s, g) != [] then Offspring(env, s, g) + StackAt(s, g)
                             else [Here(s, g).(info := BuiltInfo(env, s, g, BRead))] + StackAt(s, g)[1..]
  {
    r, h := s, g;
    HereFirst(env, s, g);
    if r.child == NULL || r.nameOnly {
      r, h := Unlist(env, s, g);
      r := r.(nameOnly := if s.child != NULL then false else s.nameOnly);
      r, h := Relist(env, r, BRead, h);
      if r.child == NULL { return; }
    }
    r, h := EnterFirst(env, r, h);
  }

  // -------------------------------------------------- on to a sibling, or up

  /** Freeing the current structure leaves the rest of the chain as it was. */
  lemma Popped(env: Env, mem: Memory, full: map<Ptr, string>, cap: int, ch: seq<Ptr>)
    requires Chained(mem, full, cap, ch) && |ch| >= 2 && |mem| == |ch| && Acyclic(env, StackOf(mem, full, ch))
    ensures Follows(mem, full, ch[0], ch[1]) && ch[1] != ch[0]
    ensures var mem' := mem - {ch[0]};
      && Chained(mem', full, cap, ch[1..]) && |mem'| == |ch[1..]|
      && StackOf(mem', full, ch[1..]) == StackOf(mem, full, ch)[1..]
      && Acyclic(env, StackOf(mem', full, ch[1..]))
  {
    FreeOne(mem, ch[0]);
    ChainFramed(mem, mem - {ch[0]}, full, full, cap, cap, ch[1..]);
  }

  /** fts_load: the next argument's path, and the part of it after the last slash. */
  method Load(env: Env, s: Stream, p: Ptr) returns (r: Stream)
    requires p in s.mem && |s.mem[p].name| < |s.path|
    ensures r == s.(mem := r.mem, path := Write(s.path, 0, s.mem[p].name + "\0"), dev := s.mem[p].id.dev)
    ensures r.mem == s.mem[p := s.mem[p].(
      pathlen := |s.mem[p].name|, name := if env.unixPaths then BaseName(s.mem[p].name) else s.mem[p].name)]
  {
    var n := s.mem[p];
    r := s.(path := Write(s.path, 0, n.name + "\0"), dev := n.id.dev);
    n := n.(pathlen := |n.name|);
    if env.unixPaths {
      n := n.(name := BaseName(n.name));
    }
    r := r.(mem := s.mem[p := n]);
  }

  lemma LoadSpells(path: string, f: string)
    requires |f| < |path|
    ensures Spells(Write(path, 0, f + "\0"), f, false)
  {
  }

  /** The structure fts_read will return next, before its path is in the buffer. */
  ghost predicate Chosen(env: Env, s: Stream, g: Shadow, p: Ptr) {
    && Books(s.mem, g.full, s.brk) && |s.mem| == |g.chain| && |g.chain| >= 2
    && Chained(s.mem, g.full, |s.path|, g.chain) && Acyclic(env, StackOf(s.mem, g.full, g.chain))
    && s.child == NULL && g.kids == [] && p == g.chain[0] && s.mem[p].instr == NoInstr
    && (s.mem[p].errno != 0 ==> s.mem[p].info == NS)
  }

  lemma ShownRoot(env: Env, s: Stream, g: Shadow, n: Ftsent)
    requires Books(s.mem, g.full, s.brk) && |s.mem| == |g.chain| && |g.chain| >= 2
    requires Chained(s.mem, g.full, |s.path|, g.chain) && Acyclic(env, StackOf(s.mem, g.full, g.chain))
    requires g.kids == [] && s.cur == g.chain[0] && s.mem[s.cur].level == 0
    requires n == s.mem[s.cur].(pathlen := |g.full[s.cur]|, name := n.name) && (n.errno != 0 ==> n.info == NS)
    ensures var r := s.(mem := s.mem[s.cur := n]);
      Visiting(env, r, g) && StackAt(r, g) == [EntryOf(r.mem, g.full, s.cur)] + StackAt(s, g)[1..]
  {
    HeadFramed(s.mem, g.full, |s.path|, g.chain, n);
  }

  /** The next argument is loaded and returned. */
  method NextRoot(env: Env, s: Stream, p: Ptr, ghost g: Shadow) returns (r: Stream, ghost h: Shadow)
    requires Chosen(env, s, g, p) && s.mem[p].level == 0 && s.mem[p].name == g.full[p]
    ensures Walking(env, r, h) && r.dev == s.mem[p].id.dev && r.mem[r.cur].instr == NoInstr && h.kids == [] && !h.slash
    ensures StackAt(r, h) == [Loaded(env, EntryOf(s.mem, g.full, p))] + StackOf(s.mem, g.full, g.chain)[1..]
  {
    r := Load(env, s, p);
    r := r.(cur := p);
    h := g.(slash := false);
    LoadSpells(s.path, g.full[p]);
    ShownRoot(env, s.(cur := p, path := r.path, dev := r.dev), h, r.mem[p]);
  }

  lemma SiblingPath(env: Env, s: Stream, g: Shadow, p: Ptr, dir: string)
    requires Chosen(env, s, g, p) && s.mem[p].level > 0
    requires dir == g.full[s.mem[p].parent] && GoodName(dir) && |dir| < |s.path| && s.path[..|dir|] == dir
    ensures s.mem[p].parent in s.mem && s.mem[s.mem[p].parent].pathlen == |dir| > 0
    ensures |dir| + |s.mem[p].name| + 2 <= |s.path|
    ensures Spells(EnterName(s.path, |dir|, s.mem[p].name), g.full[p], false)
  {
    var m := ParentInChain(s.mem, g.full, |s.path|, g.chain);
    EnterNameSpells(s.path, dir, s.mem[p].name);
  }

  /** A later sibling below an argument: its name goes after the path of their parent. */
  method NextSibling(env: Env, s: Stream, p: Ptr, ghost g: Shadow, ghost dir: string)
    returns (r: Stream, ghost h: Shadow)
    requires Chosen(env, s, g, p) && s.mem[p].level > 0
    requires dir == g.full[s.mem[p].parent] && GoodName(dir) && |dir| < |s.path| && s.path[..|dir|] == dir
    ensures Walking(env, r, h) && r.dev == s.dev && r.mem[r.cur].instr == NoInstr && h.kids == [] && !h.slash
    ensures StackAt(r, h) == StackOf(s.mem, g.full, g.chain)
  {
    SiblingPath(env, s, g, p, dir);
    r := s.(cur := p, path := EnterName(s.path, s.mem[s.mem[p].parent].pathlen, s.mem[p].name));
    h := g.(slash := false);
  }

  /** Back at a parent: its post-order visit. */
  method NextParent(env: Env, s: Stream, p: Ptr, ghost g: Shadow) returns (r: Stream, ghost h: Shadow)
    requires Chosen(env, s, g, p) && s.mem[p].info == D
    requires s.mem[p].pathlen == |g.full[p]| && s.path[..|g.full[p]|] == g.full[p]
    ensures Walking(env, r, h) && r.dev == s.dev && r.mem[r.cur].instr == NoInstr && h.kids == [] && !h.slash
    ensures StackAt(r, h) == [EntryOf(s.mem, g.full, p).(info := DP)] + StackOf(s.mem, g.full, g.chain)[1..]
  {
    var n := s.mem[p].(info := if s.mem[p].errno != 0 then Err else DP);
    r := s.(cur := p, path := Write(s.path, s.mem[p].pathlen, "\0"));
    h := g.(slash := false);
    HeadRewritten(env, r, h, n);
    r := r.(mem := r.mem[p := n]);
  }

  /** Nothing is allocated and nothing can be visited. */
  ghost predicate Finished(s: Stream, g: Shadow) {
    s.cur == NULL && s.child == NULL && s.mem == map[] && g.chain == [] && g.kids == []
  }

  lemma OneLeft(mem: Memory, p: Ptr)
    requires |mem| == 1 && p in mem
    ensures mem - {p} == map[]
  {
    FreeOne(mem, p);
  }

  /** What is left once the current structure has been freed. */
  lemma Departed(env: Env, s: Stream, g: Shadow)
    requires Walking(env, s, g) && s.mem[s.cur].info != D
    ensures var r, h, q := s.(mem := s.mem - {s.cur}, cur := NULL), g.(chain := g.chain[1..]), g.chain[1];
      && Follows(s.mem, g.full, s.cur, q) && q in r.mem && r.mem[q] == s.mem[q]
      && (if s.mem[q].level == -1 then r.mem - {q} == map[] && |StackAt(s, g)| == 1
          else Chosen(env, r, h, q) && StackAt(r, h) == StackAt(s, g)[1..] && StackAt(s, g)[1] == EntryOf(r.mem, g.full, q))
  {
    Popped(env, s.mem, g.full, |s.path|, g.chain);
    if |g.chain| == 2 { OneLeft(s.mem - {s.cur}, g.chain[1]); }
  }

  lemma PrefixSpelt(path: string, dir: string, name: string)
    requires |dir + "/" + name| < |path| && path[..|dir + "/" + name|] == dir + "/" + name
    ensures |dir| < |path| && path[..|dir|] == dir
  {
    var f := dir + "/" + name;
    assert path[..|dir|] == path[..|f|][..|dir|] == f[..|dir|];
  }

  lemma ParentPath(env: Env, s: Stream, g: Shadow)
    requires Walking(env, s, g) && s.mem[s.cur].level > 0
    ensures s.mem[s.cur].parent in g.full
    ensures var dir := g.full[s.mem[s.cur].parent];
      GoodName(dir) && |dir| < |s.path| && s.path[..|dir|] == dir
  {
    var m := ParentInChain(s.mem, g.full, |s.path|, g.chain);
    assert NodeOk(s.mem, g.full, |s.path|, g.chain[m..][0]);
    PrefixSpelt(s.path, g.full[s.mem[s.cur].parent], s.mem[s.cur].name);
  }

  /** The code at `next:`: free the current structure and move to the next one of its chain. */
  method ReadNext(env: Env, s: Stream, ghost g: Shadow) returns (r: Stream, ghost h: Shadow)
    requires Walking(env, s, g) && s.mem[s.cur].info != D
    ensures Finished(r, h) || (Walking(env, r, h) && r.mem[r.cur].instr == NoInstr)
    ensures WalkAt(r, h) == Leave(env, WalkAt(s, g)) && h.kids == [] && !h.slash
  {
    var tmp := s.cur;
    var link, parent := s.mem[tmp].link, s.mem[tmp].parent;
    Departed(env, s, g);
    if s.mem[tmp].level > 0 { ParentPath(env, s, g); }
    r := s.(mem := s.mem - {tmp}, cur := NULL);
    h := g.(chain := g.chain[1..]);
    if link != NULL {
      if r.mem[link].level == 0 {
        r, h := NextRoot(env, r, link, h);
      } else {
        r, h := NextSibling(env, r, link, h, g.full[parent]);
      }
    } else if r.mem[parent].level == -1 {
      r := r.(mem := r.mem - {parent});
      h := h.(chain := [], slash := false);
    } else {
      r, h := NextParent(env, r, parent, h);
    }
  }

  // ------------------------------------------------------------------ fts_read

  lemma InstrCleared(env: Env, s: Stream, g: Shadow, instr: Instr)
    requires Walking(env, s, g)
    ensures var r := s.(mem := s.mem[s.cur := s.mem[s.cur].(instr := instr)]);
      Walking(env, r, g) && StackAt(r, g) == StackAt(s, g) && Here(r, g) == Here(s, g)
  {
    HeadRewritten(env, s, g, s.mem[s.cur].(instr := instr));
    assert StackAt(s, g) == [Here(s, g)] + StackAt(s, g)[1..];
  }

  /** FTS_AGAIN is for any node, but not for an argument "." or ".." whose children have been listed:
      that would be reported as FTS_DOT, and the list left behind. */
  predicate Repeatable(s: Stream)
    requires s.cur in s.mem
  {
    s.mem[s.cur].instr == Again && s.child != NULL ==> !IsDot(s.mem[s.cur].name)
  }

  /** A read that returns the same node leaves a slash after its path where it is. */
  function KeepsSlash(env: Env, w: Walk, instr: Instr): bool
    requires w.st != []
  {
    var e := w.st[0];
    || instr == Again
    || (instr == Follow && (e.info == SL || e.info == SLNone))
    || (e.info == D && (instr == Skip || (env.xdev && e.id.dev != w.rootDev)))
  }

  /** fts_read after the first: one step of the stack machine. */
  method Read(env: Env, s: Stream, ghost g: Shadow) returns (r: Stream, ghost h: Shadow)
    requires SaneFiles(env) && Walking(env, s, g) && Repeatable(s)
    ensures Finished(r, h) || (Walking(env, r, h) && r.mem[r.cur].instr == NoInstr)
    ensures WalkAt(r, h) == Step(env, WalkAt(s, g), s.mem[s.cur].instr, g.slash)
    ensures h.slash == (KeepsSlash(env, WalkAt(s, g), s.mem[s.cur].instr) && g.slash)
    ensures (h.kids != []) == (s.mem[s.cur].instr == Again && g.kids != [])
  {
    var p := s.cur;
    var instr := s.mem[p].instr;
    InstrCleared(env, s, g, NoInstr);
    r, h := s.(mem := s.mem[p := s.mem[p].(instr := NoInstr)]), g;
    if instr == Again {
      r := ReadAgain(env, r, false, h);
    } else if instr == Follow && (r.mem[p].info == SL || r.mem[p].info == SLNone) {
      r := ReadAgain(env, r, true, h);
    } else if r.mem[p].info == D {
      if instr == Skip || (env.xdev && r.mem[p].id.dev != r.dev) {
        r, h := ReadSkip(env, r, h);
      } else {
        r, h := ReadDown(env, r, h);
      }
    } else {
      r, h := ReadNext(env, r, h);
    }
  }

  // ------------------------------------------------- fts_children and fts_close

  /** fts_children on a node that has been returned: it changes no visit to come. */
  method ListChildren(env: Env, s: Stream, namesOnly: bool, ghost g: Shadow) returns (r: Stream, list: Ptr, ghost h: Shadow)
    requires SaneFiles(env) && Walking(env, s, g)
    ensures Walking(env, r, h) && WalkAt(r, h) == WalkAt(s, g) && r.cur == s.cur && r.mem[s.cur].instr == s.mem[s.cur].instr
    ensures list == (if s.mem[s.cur].info == D then r.child else NULL)
    ensures s.mem[s.cur].info == D && !namesOnly ==> EntriesOf(r.mem, h.full, h.kids) == Offspring(env, s, g)
    ensures if s.mem[s.cur].info == D then h.slash == (h.kids != []) == (Offspring(env, s, g) != []) else h == g
  {
    r, h := s, g;
    if s.mem[s.cur].info != D { return r, NULL, h; }
    HereFirst(env, s, g);
    r, h := Unlist(env, s, g);
    if namesOnly { r := r.(nameOnly := true); }
    r, h := Relist(env, r, if namesOnly then BNames else BChild, h);
    list := r.child;
  }

  /** The loop of fts_close over fts_link and fts_parent. */
  method FreeChain(mem: Memory, start: Ptr, ghost full: map<Ptr, string>, ghost cap: int, ghost chain: seq<Ptr>,
                   ghost kids: seq<Ptr>, ghost level: int)
    returns (r: Memory)
    requires Chained(mem, full, cap, chain) && start == chain[0] && mem[start].level < level && Linked(mem, kids, level)
    ensures |r| == |mem| - |chain| && Linked(r, kids, level)
  {
    r := mem;
    var p := start;
    ghost var ch := chain;
    while r[p].level >= 0
      invariant Chained(r, full, cap, ch) && p == ch[0] && r[p].level < level && Linked(r, kids, level)
      invariant |r| - |ch| == |mem| - |chain|
      decreases |ch|
    {
      var freep := p;
      p := if r[p].link != NULL then r[p].link else r[p].parent;
      ghost var was := r;
      r := r - {freep};
      FreeOne(was, freep);
      ChainFramed(was, r, full, full, cap, cap, ch[1..]);
      LinkedFramed(was, r, kids, level);
      ch := ch[1..];
    }
    FreeOne(r, p);
    LinkedFramed(r, r - {p}, kids, level);
    r := r - {p};
  }

  /** fts_close: every structure still allocated is freed, once. */
  method Close(env: Env, s: Stream, ghost g: Shadow) returns (mem: Memory)
    requires Finished(s, g) || Walking(env, s, g)
    ensures mem == map[]
  {
    mem := s.mem;
    if s.cur != NULL {
      KidsLinked(s.mem, g.full, |s.path|, g.kids, s.cur);
      mem := FreeChain(mem, s.cur, g.full, |s.path|, g.chain, g.kids, s.mem[s.cur].level + 1);
      if s.child != NULL {
        mem := FreeList(mem, s.child, g.kids, s.mem[s.cur].level + 1);
      }
    }
  }
}
