/** fts_open (library/fts/fts.c:95-213) without a comparison routine, and the first fts_read. */
module FtsOpen {
  import opened FtsSpec
  import opened FtsStack
  import opened FtsMemory
  import opened FtsStream
  import opened FtsRead

  const MAXPATHLEN: nat := 1024

  /** Between fts_open and the first fts_read the current structure is a dummy whose
      fts_link is the list of arguments. */
  ghost predicate Opened(env: Env, s: Stream, g: Shadow) {
    && s.cur in s.mem && s.cur != NULL && s.mem[s.cur].info == Init && s.mem[s.cur].instr == NoInstr
    && g.chain != [] && s.mem[s.cur].link == g.chain[0]
    && var rest := s.(mem := s.mem - {s.cur}, cur := NULL);
    && Chosen(env, rest, g, g.chain[0])
    && rest.mem[g.chain[0]].level == 0 && rest.mem[g.chain[0]].name == g.full[g.chain[0]]
  }

  ghost function OpenedStack(s: Stream, g: Shadow): seq<Entry> {
    StackOf(s.mem - {s.cur}, g.full, g.chain)
  }

  /** The first fts_read frees the dummy and loads the first argument. */
  method ReadFirst(env: Env, s: Stream, ghost g: Shadow) returns (r: Stream, ghost h: Shadow)
    requires Opened(env, s, g)
    ensures Walking(env, r, h) && r.mem[r.cur].instr == NoInstr && OpenedStack(s, g) != [] && h.kids == [] && !h.slash
    ensures WalkAt(r, h) == Walk([Loaded(env, OpenedStack(s, g)[0])] + OpenedStack(s, g)[1..], OpenedStack(s, g)[0].id.dev)
  {
    var p := s.mem[s.cur].link;
    r := s.(mem := s.mem - {s.cur}, cur := NULL);
    r, h := NextRoot(env, r, p, g);
  }

  /** fts_close before any fts_read.  The level of the dummy, which nothing has set, decides whether
      the loop goes on to the arguments. */
  method CloseUnread(env: Env, s: Stream, ghost g: Shadow) returns (mem: Memory)
    requires Opened(env, s, g)
    ensures mem == map[] <==> s.mem[s.cur].level >= 0
  {
    var link := s.mem[s.cur].link;
    mem := s.mem - {s.cur};
    if s.mem[s.cur].level >= 0 {
      mem := FreeChain(mem, link, g.full, |s.path|, g.chain, [], mem[link].level + 1);
    }
  }

  // ------------------------------------------------------------------ fts_open

  /** fts_maxarglen. */
  method MaxArgLen(args: seq<string>) returns (m: nat)
    ensures forall a :: a in args ==> |a| < m
    ensures m == 1 || exists a :: a in args && |a| + 1 == m
  {
    m := 0;
    var i := 0;
    while i < |args|
      invariant 0 <= i <= |args| && forall k :: 0 <= k < i ==> |args[k]| <= m
      invariant m == 0 || exists k :: 0 <= k < i && |args[k]| == m
    {
      if |args[i]| > m { m := |args[i]|; }
      i := i + 1;
    }
    m := m + 1;
  }

  /** Every argument's structure still holds the argument itself. */
  ghost predicate Unloaded(mem: Memory, full: map<Ptr, string>, roots: seq<Ptr>) {
    roots != [] ==> roots[0] in mem && mem[roots[0]].name == PathOf(full, roots[0]) && Unloaded(mem, full, roots[1..])
  }

  lemma {:induction false} UnloadedAppended(mem: Memory, full: map<Ptr, string>, roots: seq<Ptr>, tail: Ptr, q: Ptr, n: Ftsent)
    requires Unloaded(mem, full, roots) && Books(mem, full, q)
    ensures Unloaded(WithChild(mem, tail, q, n), full[q := n.name], roots + [q])
  {
    if roots == [] {
      assert roots + [q] == [q];
    } else {
      UnloadedAppended(mem, full, roots[1..], tail, q, n);
      assert (roots + [q])[1..] == roots[1..] + [q];
    }
  }

  lemma {:induction false} RootsChained(mem: Memory, full: map<Ptr, string>, cap: int, roots: seq<Ptr>, top: Ptr)
    requires KidList(mem, full, cap, roots, top) && Unloaded(mem, full, roots)
    requires mem[top].level == -1 && top != NULL && top !in full && mem[top].instr == NoInstr
    ensures Chained(mem, full, cap, roots + [top])
    ensures StackOf(mem, full, roots + [top]) == EntriesOf(mem, full, roots)
    decreases |roots|
  {
    if roots == [] {
      assert roots + [top] == [top];
    } else {
      var all := roots + [top];
      assert all[0] == roots[0] && all[1..] == roots[1..] + [top];
      RootsChained(mem, full, cap, roots[1..], top);
    }
  }

  const TOP: Ptr := 1

  /** The root's parent and a list of structures, one for each of the arguments `args`. */
  ghost predicate Rooted(env: Env, d: Draft, roots: seq<Ptr>, full: map<Ptr, string>, args: seq<string>) {
    && Books(d.heap, full, d.brk) && |d.heap| == |roots| + 1
    && TOP in d.heap && d.heap[TOP].level == -1 && d.heap[TOP].instr == NoInstr && TOP !in full
    && KidList(d.heap, full, |d.path|, roots, TOP) && Unloaded(d.heap, full, roots)
    && d.head == (if roots == [] then NULL else roots[0]) && d.tail == Last(roots)
    && EntriesOf(d.heap, full, roots) == Arguments(env, args)
  }

  lemma RootAppended(env: Env, d: Draft, roots: seq<Ptr>, full: map<Ptr, string>, args: seq<string>, arg: string, n: Ftsent)
    requires Rooted(env, d, roots, full, args) && GoodName(arg) && |arg| < |d.path|
    requires n.parent == TOP && n.level == 0 && n.link == NULL && n.instr == NoInstr
    requires n.errno != 0 ==> n.info == NS
    requires n.info != Init && Entry(arg, n.name, n.level, n.info, n.id) == Argument(env, arg)
    ensures Rooted(env, Draft(WithChild(d.heap, d.tail, d.brk, n), d.path, d.brk + 1, if roots == [] then d.brk else d.head, d.brk),
                   roots + [d.brk], full[d.brk := arg], args + [arg])
  {
    var full' := full[d.brk := arg];
    assert (args + [arg])[..|args|] == args;
    KidListFramed(d.heap, d.heap, full, full', |d.path|, |d.path|, roots, TOP);
    KidAppended(d.heap, full', |d.path|, roots, TOP, d.brk, n);
    DraftEntries(d, roots, full, TOP, n, arg);
    UnloadedAppended(d.heap, full, roots, d.tail, d.brk, n);
    if roots != [] { LastKid(d.heap, full, |d.path|, roots, TOP); }
  }

  /** One turn of the loop of fts_open over its arguments. */
  method AddRoot(env: Env, d: Draft, arg: string, ghost roots: seq<Ptr>, ghost full: map<Ptr, string>, ghost args: seq<string>)
    returns (r: Draft)
    requires Rooted(env, d, roots, full, args) && GoodName(arg) && |arg| < |d.path|
    ensures Rooted(env, r, roots + [d.brk], full[d.brk := arg], args + [arg]) && r.path == d.path
  {
    var n := Blank(env, arg);
    n := n.(level := 0, parent := TOP, link := NULL);
    n := Stat(env, d.heap, n, arg, env.comFollow, full, |d.path|, [TOP]);
    if env.unixPaths && n.info == Dot {
      n := n.(info := D);
    }
    RootAppended(env, d, roots, full, args, arg, n);
    if roots != [] { LastKid(d.heap, full, |d.path|, roots, TOP); }
    r := d.(brk := d.brk + 1, tail := d.brk);
    if d.head == NULL {
      r := r.(head := d.brk);
    } else {
      r := r.(heap := d.heap[d.tail := d.heap[d.tail].(link := d.brk)]);
    }
    r := r.(heap := r.heap[d.brk := n]);
  }

  /** The code at `mem3:`: what has been allocated so far is freed. */
  method FreeRoots(env: Env, d: Draft, ghost roots: seq<Ptr>, ghost full: map<Ptr, string>, ghost args: seq<string>)
    returns (r: Draft)
    requires Rooted(env, d, roots, full, args)
    ensures r.heap == map[]
  {
    KidsLinked(d.heap, full, |d.path|, roots, TOP);
    var heap := FreeList(d.heap, d.head, roots, 0);
    OneLeft(heap, TOP);
    r := d.(heap := heap - {TOP});
  }

  /** The loop itself; a zero-length argument frees what has been allocated. */
  method OpenRoots(env: Env, args: seq<string>, path: string)
    returns (ok: bool, d: Draft, ghost roots: seq<Ptr>, ghost full: map<Ptr, string>)
    requires forall a :: a in args ==> |a| < |path| && (a == [] || GoodName(a))
    ensures ok <==> [] !in args
    ensures ok ==> Rooted(env, d, roots, full, args) && d.path == path
    ensures !ok ==> d.heap == map[]
  {
    var top := Blank(env, "");
    d := Draft(map[TOP := top.(level := -1)], path, TOP + 1, NULL, NULL);
    roots, full := [], map[];
    var i := 0;
    while i < |args|
      invariant 0 <= i <= |args| && [] !in args[..i]
      invariant Rooted(env, d, roots, full, args[..i]) && d.path == path
    {
      assert args[..i + 1] == args[..i] + [args[i]];
      if |args[i]| == 0 {
        d := FreeRoots(env, d, roots, full, args[..i]);
        return false, d, roots, full;
      }
      ghost var p := d.brk;
      d := AddRoot(env, d, args[i], roots, full, args[..i]);
      roots, full := roots + [p], full[p := args[i]];
      i := i + 1;
    }
    assert args[..i] == args;
    ok := true;
  }

  /** The dummy goes in front of the arguments. */
  lemma DummyAdded(env: Env, d: Draft, roots: seq<Ptr>, full: map<Ptr, string>, args: seq<string>, dummy: Ftsent)
    requires SaneFiles(env) && args != [] && Rooted(env, d, roots, full, args)
    requires dummy.link == d.head && dummy.info == Init && dummy.instr == NoInstr
    ensures var s, g := Stream(d.heap[d.brk := dummy], d.brk, NULL, 0, d.path, false, d.brk + 1), Shadow(roots + [TOP], [], full, false);
      Opened(env, s, g) && OpenedStack(s, g) == Arguments(env, args)
  {
    RootsChained(d.heap, full, |d.path|, roots, TOP);
    ArgumentsShape(env, args);
    ArgumentsCons(env, args);
    assert (d.heap[d.brk := dummy]) - {d.brk} == d.heap;
  }

  /** fts_open: the arguments in the order given, or nothing at all. */
  method Open(env: Env, args: seq<string>) returns (ok: bool, s: Stream, ghost g: Shadow)
    requires SaneFiles(env) && args != [] && forall a :: a in args ==> a == [] || GoodName(a)
    ensures ok <==> [] !in args
    ensures ok ==> Opened(env, s, g) && OpenedStack(s, g) == Arguments(env, args)
    ensures !ok ==> Finished(s, g)
  {
    var longest := MaxArgLen(args);
    var path := GrowPath([], if longest > MAXPATHLEN then longest else MAXPATHLEN);
    var d;
    ghost var roots, full;
    ok, d, roots, full := OpenRoots(env, args, path);
    s := Stream(d.heap, NULL, NULL, 0, path, false, d.brk);
    g := Shadow(if ok then roots + [TOP] else [], [], full, false);
    if ok {
      var dummy := Blank(env, "");
      dummy := dummy.(link := d.head, info := Init);
      DummyAdded(env, d, roots, full, args, dummy);
      s := s.(mem := d.heap[d.brk := dummy], cur := d.brk, brk := d.brk + 1);
    }
  }
}
