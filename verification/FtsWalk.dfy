/** The stream as the application holds it, and what whole runs of calls do. */
module FtsWalk {
  import opened FtsSpec
  import opened FtsStack
  import opened FtsMemory
  import opened FtsStream
  import opened FtsRead
  import opened FtsOpen
  import opened FtsTour

  ghost predicate Usable(env: Env, s: Stream, g: Shadow) {
    Finished(s, g) || Opened(env, s, g) || Walking(env, s, g)
  }

  /** The visits still to come if the application keeps to its policy. */
  ghost function Todo(env: Env, s: Stream, g: Shadow): seq<Visit> {
    if s.cur !in s.mem then []
    else if s.mem[s.cur].info == Init then Next(env, 0, OpenedStack(s, g), s.dev)
    else if StackAt(s, g) == [] then []
    else Pending(env, StackAt(s, g), s.dev)
  }

  /** The application has asked for what its policy says, and for nothing before the first node. */
  predicate Obedient(env: Env, s: Stream, path: string) {
    s.cur in s.mem && s.mem[s.cur].info != Init ==> s.mem[s.cur].instr == env.policy(path, s.mem[s.cur].info)
  }

  lemma {:induction false} ChainLevels(mem: Memory, full: map<Ptr, string>, cap: int, ch: seq<Ptr>)
    requires Chained(mem, full, cap, ch)
    ensures Levels(StackOf(mem, full, ch))
    decreases |ch|
  {
    if |ch| > 1 { ChainLevels(mem, full, cap, ch[1..]); }
  }

  /** A read that keeps to the policy reports the first pending visit. */
  lemma ReadTour(env: Env, s: Stream, g: Shadow, r: Stream, h: Shadow)
    requires SaneFiles(env) && SanePolicy(env) && Walking(env, s, g)
    requires Finished(r, h) || Walking(env, r, h)
    requires s.mem[s.cur].instr == env.policy(Here(s, g).path, s.mem[s.cur].info)
    requires WalkAt(r, h) == Step(env, WalkAt(s, g), s.mem[s.cur].instr, g.slash)
    ensures Todo(env, s, g) == if r.cur == NULL then [] else [Here(r, h).Seen()] + Todo(env, r, h)
  {
    ChainLevels(s.mem, g.full, |s.path|, g.chain);
    StepTour(env, WalkAt(s, g), g.slash);
  }

  /** The first read reports the first argument. */
  lemma FirstTour(env: Env, s: Stream, g: Shadow, r: Stream, h: Shadow)
    requires Opened(env, s, g) && Walking(env, r, h) && OpenedStack(s, g) != []
    requires WalkAt(r, h) == Walk([Loaded(env, OpenedStack(s, g)[0])] + OpenedStack(s, g)[1..], OpenedStack(s, g)[0].id.dev)
    ensures Todo(env, s, g) == [Here(r, h).Seen()] + Todo(env, r, h)
  {
    ChainLevels(r.mem, h.full, |r.path|, h.chain);
    assert StackAt(r, h)[1..] == OpenedStack(s, g)[1..];
    RootsHaveNoAncestors(StackAt(r, h));
  }

  /** fts_read on any stream. */
  method ReadAny(env: Env, s: Stream, ghost g: Shadow) returns (r: Stream, ghost h: Shadow)
    requires SaneFiles(env) && Usable(env, s, g) && (Walking(env, s, g) ==> Repeatable(s))
    ensures Finished(r, h) || (Walking(env, r, h) && r.mem[r.cur].instr == NoInstr)
    ensures SanePolicy(env) && Obedient(env, s, Here(s, g).path) ==>
      Todo(env, s, g) == if r.cur == NULL then [] else [Here(r, h).Seen()] + Todo(env, r, h)
  {
    if s.cur == NULL {
      r, h := s, g;
    } else if s.mem[s.cur].info == Init {
      r, h := ReadFirst(env, s, g);
      FirstTour(env, s, g, r, h);
    } else {
      r, h := Read(env, s, g);
      if SanePolicy(env) && Obedient(env, s, Here(s, g).path) { ReadTour(env, s, g, r, h); }
    }
  }

  // ------------------------------------------------------------- whole runs

  /** The identities of the ancestors of st[0], nearest first. */
  function AncestorChain(st: seq<Entry>): seq<FileId> {
    if |st| <= 1 then []
    else if st[1].level == st[0].level then AncestorChain(st[1..])
    else [st[1].id] + AncestorChain(st[1..])
  }

  predicate AllDifferent(ids: seq<FileId>) {
    ids != [] ==> ids[0] !in ids[1..] && AllDifferent(ids[1..])
  }

  lemma {:induction false} ChainDiffers(env: Env, mem: Memory, full: map<Ptr, string>, cap: int, ch: seq<Ptr>)
    requires Chained(mem, full, cap, ch) && Acyclic(env, StackOf(mem, full, ch))
    ensures AllDifferent(AncestorChain(StackOf(mem, full, ch)))
    ensures forall id :: id in AncestorChain(StackOf(mem, full, ch)) <==> id in AncestorIds(StackOf(mem, full, ch))
    decreases |ch|
  {
    if |ch| > 2 {
      ChainDiffers(env, mem, full, cap, ch[1..]);
      var st := StackOf(mem, full, ch);
      assert st[1..] == StackOf(mem, full, ch[1..]);
      if st[1].level != st[0].level {
        assert AncestorChain(st)[1..] == AncestorChain(st[1..]);
      }
    }
  }

  /** At every node returned, no two of its ancestors are the same directory, and a directory that
      may be entered is none of them. */
  lemma AncestorsDiffer(env: Env, s: Stream, g: Shadow)
    requires Walking(env, s, g)
    ensures AllDifferent(AncestorChain(StackAt(s, g)))
    ensures s.mem[s.cur].info == D ==> Here(s, g).id !in AncestorChain(StackAt(s, g))
  {
    ChainDiffers(env, s.mem, g.full, |s.path|, g.chain);
  }

  /** What the application sees of the node just returned. */
  function Shown(s: Stream): Visit
    requires s.cur in s.mem && s.mem[s.cur].pathlen <= |s.path|
  {
    Visit(s.path[..s.mem[s.cur].pathlen], s.mem[s.cur].info, s.mem[s.cur].level)
  }

  lemma ShownIsSeen(env: Env, s: Stream, g: Shadow)
    requires Walking(env, s, g)
    ensures s.cur != NULL && Shown(s) == Here(s, g).Seen()
  {
  }

  /** Between two reads of an application that keeps to its policy. */
  ghost predicate Ready(env: Env, s: Stream, g: Shadow) {
    Usable(env, s, g) && (Walking(env, s, g) ==> Repeatable(s)) && Obedient(env, s, Here(s, g).path)
  }

  /** One fts_read, and one fts_set on the node it returns. */
  method NextVisit(env: Env, s: Stream, ghost g: Shadow) returns (r: Stream, v: Visit, ghost h: Shadow)
    requires SaneFiles(env) && SanePolicy(env) && Ready(env, s, g)
    ensures Ready(env, r, h)
    ensures if r.cur == NULL then r.mem == map[] && Todo(env, s, g) == []
            else Todo(env, s, g) == [v] + Todo(env, r, h)
  {
    r, h := ReadAny(env, s, g);
    if r.cur == NULL { return r, Visit("", Init, 0), h; }
    ShownIsSeen(env, r, h);
    v := Shown(r);
    var instr := env.policy(v.path, v.info);
    InstrCleared(env, r, h, instr);
    r := r.(mem := r.mem[r.cur := r.mem[r.cur].(instr := instr)]);
  }

  /** The application's loop: read until NULL, asking on each node for what the policy says.
      It sees exactly the recursive tour of the arguments, in one more call than there are
      visits, and nothing is left allocated. */
  method WalkAll(env: Env, args: seq<string>) returns (visits: seq<Visit>, calls: nat, mem: Memory)
    requires SaneFiles(env) && SanePolicy(env) && args != [] && forall a :: a in args ==> GoodName(a)
    ensures visits == WalkOf(env, args) && IsTour(env, args, visits)
    ensures calls == |visits| + 1 && mem == map[]
  {
    var ok, s;
    ghost var g;
    ok, s, g := Open(env, args);
    NextOfArguments(env, args, s.dev);
    WalkIsTour(env, args, WalkOf(env, args));
    visits, calls := [], 0;
    while true
      invariant Ready(env, s, g) && calls == |visits|
      invariant visits + Todo(env, s, g) == WalkOf(env, args)
      decreases |Todo(env, s, g)|
    {
      var v;
      s, v, g := NextVisit(env, s, g);
      calls := calls + 1;
      if s.cur == NULL { return visits, calls, s.mem; }
      MoveOne(visits, v, Todo(env, s, g));
      visits := visits + [v];
    }
  }

  lemma MoveOne<T>(done: seq<T>, v: T, todo: seq<T>)
    ensures (done + [v]) + todo == done + ([v] + todo)
  {
  }

  // -------------------------------------------------------- runs of any calls

  /** What an application may do between fts_open and fts_close, fts_set on the node last returned. */
  datatype Call = ReadCall | ChildrenCall(namesOnly: bool) | SetCall(instr: Instr)

  /** What the calls amount to: the walk, what was asked for on the node last returned, whether a
      slash stands after its path, and whether its children have been listed. */
  datatype Position = Position(w: Walk, instr: Instr, slash: bool, listed: bool)

  function After(env: Env, a: Position, call: Call): Position {
    if a.w.st == [] then a
    else
      match call
      case ReadCall =>
        Position(Step(env, a.w, a.instr, a.slash), NoInstr,
                 KeepsSlash(env, a.w, a.instr) && a.slash, a.instr == Again && a.listed)
      case ChildrenCall(_) =>
        if a.w.st[0].info != D then a
        else
          var some := Reading(env, a.w.st[0], AncestorIds(a.w.st)) != [];
          a.(slash := some, listed := some)
      case SetCall(instr) => a.(instr := instr)
  }

  function AfterAll(env: Env, a: Position, calls: seq<Call>): Position {
    if calls == [] then a else After(env, AfterAll(env, a, calls[..|calls| - 1]), calls[|calls| - 1])
  }

  /** Where the first fts_read gets to. */
  function AtFirst(env: Env, args: seq<string>): Position
    requires args != []
  {
    ArgumentsCons(env, args);
    var es := Arguments(env, args);
    Position(Walk([Loaded(env, es[0])] + es[1..], es[0].id.dev), NoInstr, false, false)
  }

  /** The calls that the code is made for: fts_children and fts_set need a node; and an argument "."
      or ".." whose children have been listed is not read again. */
  predicate InTime(a: Position, call: Call) {
    if call.ReadCall? then a.w.st != [] && a.instr == Again && a.listed ==> !IsDot(a.w.st[0].name) else a.w.st != []
  }

  /** fts_read comes too late only for such an argument, and the other calls only without a node. */
  lemma InTimeIs(a: Position, call: Call)
    ensures call == ReadCall && !InTime(a, call)
       <==> call == ReadCall && a.w.st != [] && a.instr == Again && a.listed && (a.w.st[0].name == "." || a.w.st[0].name == "..")
    ensures call != ReadCall ==> (InTime(a, call) <==> a.w.st != [])
  {
  }

  /** Every call is one of those. */
  predicate NeverLate(env: Env, a: Position, calls: seq<Call>) {
    calls != [] ==>
      var front := calls[..|calls| - 1];
      NeverLate(env, a, front) && InTime(AfterAll(env, a, front), calls[|calls| - 1])
  }

  ghost function PositionAt(s: Stream, g: Shadow): Position {
    Position(WalkAt(s, g), if s.cur in s.mem then s.mem[s.cur].instr else NoInstr, g.slash, g.kids != [])
  }

  ghost predicate Live(env: Env, s: Stream, g: Shadow) {
    (Finished(s, g) && !g.slash) || Walking(env, s, g)
  }

  lemma CurrentNode(env: Env, s: Stream, g: Shadow)
    requires Live(env, s, g)
    ensures s.cur != NULL <==> StackAt(s, g) != []
    ensures s.cur != NULL ==> Walking(env, s, g) && StackAt(s, g)[0] == Here(s, g) && (s.child != NULL <==> g.kids != [])
  {
    if s.cur != NULL && g.kids != [] {
      LastKid(s.mem, g.full, |s.path|, g.kids, s.cur);
    }
  }

  method Perform(env: Env, s: Stream, call: Call, ghost g: Shadow) returns (r: Stream, ghost h: Shadow)
    requires SaneFiles(env) && Live(env, s, g) && InTime(PositionAt(s, g), call)
    ensures Live(env, r, h) && PositionAt(r, h) == After(env, PositionAt(s, g), call)
  {
    r, h := s, g;
    CurrentNode(env, s, g);
    match call
    case ReadCall =>
      if s.cur != NULL {
        r, h := Read(env, s, g);
      }
    case ChildrenCall(namesOnly) =>
      var list;
      r, list, h := ListChildren(env, s, namesOnly, g);
    case SetCall(instr) =>
      InstrCleared(env, s, g, instr);
      r := s.(mem := s.mem[s.cur := s.mem[s.cur].(instr := instr)]);
  }

  lemma OneMore(env: Env, a: Position, calls: seq<Call>, n: nat)
    requires n < |calls|
    ensures AfterAll(env, a, calls[..n + 1]) == After(env, AfterAll(env, a, calls[..n]), calls[n])
    ensures NeverLate(env, a, calls[..n + 1])
            <==> NeverLate(env, a, calls[..n]) && InTime(AfterAll(env, a, calls[..n]), calls[n])
  {
    assert calls[..n + 1][..n] == calls[..n];
  }

  lemma {:induction false} NotLateBefore(env: Env, a: Position, calls: seq<Call>, n: nat)
    requires n <= |calls| && NeverLate(env, a, calls)
    ensures NeverLate(env, a, calls[..n])
    decreases |calls|
  {
    if n == |calls| {
      assert calls[..n] == calls;
    } else {
      var front := calls[..|calls| - 1];
      NotLateBefore(env, a, front, n);
      assert front[..n] == calls[..n];
    }
  }

  /** The first n calls have been performed. */
  ghost predicate Performed(env: Env, a: Position, calls: seq<Call>, n: nat, s: Stream, g: Shadow) {
    && n <= |calls| && Live(env, s, g)
    && PositionAt(s, g) == AfterAll(env, a, calls[..n]) && NeverLate(env, a, calls[..n])
  }

  /** A call that cannot be performed comes too late. */
  lemma Stopped(env: Env, a: Position, calls: seq<Call>, n: nat, s: Stream, g: Shadow)
    requires Performed(env, a, calls, n, s, g) && n < |calls| && !InTime(PositionAt(s, g), calls[n])
    ensures !NeverLate(env, a, calls)
  {
    OneMore(env, a, calls, n);
    if NeverLate(env, a, calls) {
      NotLateBefore(env, a, calls, n + 1);
    }
  }

  method PerformNext(env: Env, ghost a: Position, calls: seq<Call>, n: nat, s: Stream, ghost g: Shadow)
    returns (r: Stream, ghost h: Shadow)
    requires SaneFiles(env) && Performed(env, a, calls, n, s, g) && n < |calls| && InTime(PositionAt(s, g), calls[n])
    ensures Performed(env, a, calls, n + 1, r, h)
  {
    r, h := Perform(env, s, calls[n], g);
    OneMore(env, a, calls, n);
  }

  /** The check an application can make before a call. */
  method MayCall(env: Env, s: Stream, call: Call, ghost g: Shadow) returns (ok: bool)
    requires Live(env, s, g)
    ensures ok == InTime(PositionAt(s, g), call)
  {
    CurrentNode(env, s, g);
    ok := if call.ReadCall? then s.cur == NULL || Repeatable(s) else s.cur != NULL;
  }

  /** fts_open and, unless it fails, the first fts_read. */
  method Begin(env: Env, args: seq<string>) returns (ok: bool, s: Stream, ghost g: Shadow)
    requires SaneFiles(env) && args != [] && forall a :: a in args ==> a == [] || GoodName(a)
    ensures ok <==> [] !in args
    ensures if ok then Live(env, s, g) && PositionAt(s, g) == AtFirst(env, args) else Finished(s, g)
  {
    ok, s, g := Open(env, args);
    if ok {
      s, g := ReadFirst(env, s, g);
    }
  }

  /** The application's calls after its first fts_read, up to the first that the code is not made
      for, if any, and then fts_close: no structure stays allocated, and each was freed while it was
      live.  All calls are performed if and only if none comes too late: fts_children or fts_set after
      the NULL return, or a repeated read of an argument "." whose children have been listed. */
  method Session(env: Env, args: seq<string>, calls: seq<Call>)
    returns (mem: Memory, n: nat, ghost s': Stream, ghost g': Shadow)
    requires SaneFiles(env) && args != [] && forall a :: a in args ==> a == [] || GoodName(a)
    ensures mem == map[]
    ensures [] !in args ==>
      && Performed(env, AtFirst(env, args), calls, n, s', g')
      && (n == |calls| <==> NeverLate(env, AtFirst(env, args), calls))
  {
    var ok, s;
    ghost var g, a := *, AtFirst(env, args);
    ok, s, g := Begin(env, args);
    n, s', g' := 0, s, g;
    if !ok {
      return s.mem, n, s', g';
    }
    while n < |calls|
      invariant Performed(env, a, calls, n, s, g)
    {
      var may := MayCall(env, s, calls[n], g);
      if !may {
        Stopped(env, a, calls, n, s, g);
        s', g' := s, g;
        mem := Close(env, s, g);
        return;
      }
      s, g := PerformNext(env, a, calls, n, s, g);
      n := n + 1;
    }
    assert calls[..n] == calls;
    s', g' := s, g;
    mem := Close(env, s, g);
  }

  /** After the only file, which is not a directory, fts_read returns NULL; fts_children then uses a
      current node that does not exist. */
  lemma LateChildren(env: Env, arg: string, namesOnly: bool)
    requires Root(env, arg).info != D
    ensures !NeverLate(env, AtFirst(env, [arg]), [ReadCall, ChildrenCall(namesOnly)])
  {
    var calls, a := [ReadCall, ChildrenCall(namesOnly)], AtFirst(env, [arg]);
    ArgumentsCons(env, [arg]);
    assert calls[..1] == [ReadCall] && [ReadCall][..0] == [];
    assert AfterAll(env, a, [ReadCall]) == After(env, a, ReadCall);
  }

  /** The argument "." after fts_children: FTS_AGAIN would report it as FTS_DOT, which is left at the
      next read with the list still there. */
  lemma DotAgain(env: Env, namesOnly: bool)
    requires SaneFiles(env) && Root(env, ".").info == D && Reading(env, Root(env, "."), {}) != []
    ensures !NeverLate(env, AtFirst(env, ["."]), [ChildrenCall(namesOnly), SetCall(Again), ReadCall])
    ensures var a := AtFirst(env, ["."]); Step(env, a.w, Again, true).st[0].info == Dot
  {
    var a, listed := AtFirst(env, ["."]), [ChildrenCall(namesOnly)];
    ArgumentsCons(env, ["."]);
    var e := a.w.st[0];
    assert e == Root(env, ".") && AncestorIds(a.w.st) == {} && BaseName("."[..0]) == "" && BaseName(".") == ".";
    var both, all := listed + [SetCall(Again)], listed + [SetCall(Again)] + [ReadCall];
    assert listed[..0] == [] && both[..1] == listed && all[..2] == both;
    assert AfterAll(env, a, listed) == After(env, a, listed[0]);
    assert AfterAll(env, a, both) == After(env, AfterAll(env, a, listed), SetCall(Again));
    assert all == [ChildrenCall(namesOnly), SetCall(Again), ReadCall];
  }

  // -------------------------------------------------------------- the FTS object

  class Fts {
    const env: Env
    var st: Stream
    ghost var sh: Shadow

    ghost predicate Valid()
      reads this
    {
      SaneFiles(env) && Usable(env, st, sh)
    }

    constructor (env: Env, args: seq<string>)
      requires SaneFiles(env) && args != [] && forall a :: a in args ==> a == [] || GoodName(a)
      ensures this.env == env && Valid()
      ensures [] in args ==> Finished(st, sh)
      ensures [] !in args ==> Opened(env, st, sh) && Todo(env, st, sh) == WalkOf(env, args)
    {
      var ok, s;
      ghost var g;
      ok, s, g := Open(env, args);
      NextOfArguments(env, args, s.dev);
      this.env, st, sh := env, s, g;
    }

    /** fts_read: the first pending visit, and the others stay pending. */
    method Read() returns (p: Ptr)
      requires Valid() && (Walking(env, st, sh) ==> Repeatable(st))
      modifies this
      ensures Valid() && !Opened(env, st, sh) && p == st.cur
      ensures old(SanePolicy(env) && Obedient(env, st, Here(st, sh).path)) ==>
        old(Todo(env, st, sh)) == if p == NULL then [] else [Here(st, sh).Seen()] + Todo(env, st, sh)
    {
      st, sh := ReadAny(env, st, sh);
      p := st.cur;
    }

    /** fts_set on the node last returned. */
    method Set(instr: Instr)
      requires Valid() && Walking(env, st, sh)
      modifies this
      ensures Valid() && Walking(env, st, sh)
      ensures st == old(st.(mem := st.mem[st.cur := st.mem[st.cur].(instr := instr)])) && sh == old(sh)
      ensures Todo(env, st, sh) == old(Todo(env, st, sh))
    {
      InstrCleared(env, st, sh, instr);
      st := st.(mem := st.mem[st.cur := st.mem[st.cur].(instr := instr)]);
    }

    /** fts_children: the list of arguments before the first fts_read, the list of a directory in
        pre-order after it; no visit to come is added, lost or moved. */
    method Children(namesOnly: bool) returns (list: Ptr)
      requires Valid() && st.cur != NULL
      modifies this
      ensures Valid() && (Opened(env, st, sh) <==> old(Opened(env, st, sh)))
      ensures list == if old(Opened(env, st, sh)) then sh.chain[0] else if old(st.mem[st.cur].info) == D then st.child else NULL
      ensures Todo(env, st, sh) == old(Todo(env, st, sh))
    {
      if st.mem[st.cur].info == Init {
        return st.mem[st.cur].link;
      }
      st, list, sh := ListChildren(env, st, namesOnly, sh);
    }

    /** fts_close: nothing stays allocated, unless nothing has been read and the level of the dummy,
        which is not set, happens to be negative. */
    method Close()
      requires Valid()
      modifies this
      ensures st.mem == map[] <==> !old(Opened(env, st, sh) && st.mem[st.cur].level < 0)
    {
      var mem;
      if st.cur != NULL && st.mem[st.cur].info == Init {
        mem := CloseUnread(env, st, sh);
      } else {
        mem := FtsRead.Close(env, st, sh);
      }
      st := st.(mem := mem);
    }
  }
}
