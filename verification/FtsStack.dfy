/** The walker's working set seen as one stack: the current node, its later
    siblings, its parent, the parent's later siblings, and so on up to the
    arguments.  This is the order in which fts_close follows fts_link and
    fts_parent (library/fts/fts.c:259-263). */
module FtsStack {
  import opened Common
  import opened FtsSpec

  /** The identities on the ancestor chain of st[0]. */
  function AncestorIds(st: seq<Entry>): set<FileId> {
    if |st| <= 1 then {}
    else if st[1].level == st[0].level then AncestorIds(st[1..])
    else {st[1].id} + AncestorIds(st[1..])
  }

  /** What is known of a file that was found to be a directory, or not found at all. */
  ghost predicate Known(env: Env, e: Entry) {
    && (e.info == D ==> e.id in env.dirs && env.stat(e.path) == Found(Directory(e.id)))
    && (e.info == NS ==> env.list(e.path).Unreadable?)
  }

  /** No directory that is, or may still be, entered repeats one of its ancestors. */
  ghost predicate Acyclic(env: Env, st: seq<Entry>) {
    st != [] ==> Known(env, st[0]) && (st[0].info == D ==> st[0].id !in AncestorIds(st)) && Acyclic(env, st[1..])
  }

  ghost predicate Fresh(env: Env, es: seq<Entry>, ids: set<FileId>) {
    es != [] ==> Known(env, es[0]) && (es[0].info == D ==> es[0].id !in ids) && Fresh(env, es[1..], ids)
  }

  /** fts_stat knows what it reports. */
  lemma Classified(env: Env, path: string, name: string, ancestors: set<FileId>, follow: bool, before: FileId)
    requires SaneFiles(env)
    ensures var i, id := Classify(env, path, name, ancestors, follow), StatId(env, path, follow, before);
      && (i == D ==> id in env.dirs && env.stat(path) == Found(Directory(id)) && id !in ancestors)
      && (i == Dot ==> id in env.dirs && env.stat(path) == Found(Directory(id)))
      && (i == NS ==> env.list(path).Unreadable?)
  {
  }

  /** A child reported as a directory is none of its ancestors: those are reported as FTS_DC. */
  lemma {:induction false} ChildrenAreFresh(env: Env, dir: Entry, ids: set<FileId>, names: seq<string>)
    requires SaneFiles(env)
    ensures Fresh(env, Children(env, dir, ids, names), ids)
  {
    if names != [] {
      ChildrenAreFresh(env, dir, ids, names[1..]);
      var es, tail := Children(env, dir, ids, names), Children(env, dir, ids, names[1..]);
      assert es == if Listed(env, names[0]) then [Child(env, dir, ids, names[0])] + tail else tail;
      if Listed(env, names[0]) {
        assert es[1..] == tail;
        Classified(env, dir.path + "/" + names[0], names[0], ids, false, env.junk);
      }
    }
  }

  lemma {:induction false} AcyclicPushed(env: Env, kids: seq<Entry>, st: seq<Entry>)
    requires st != [] && Acyclic(env, st) && AllAt(kids, st[0].level + 1)
    requires Fresh(env, kids, {st[0].id} + AncestorIds(st))
    ensures Acyclic(env, kids + st)
  {
    if kids == [] {
      assert kids + st == st;
    } else {
      AcyclicPushed(env, kids[1..], st);
      AncestorsOfChildren(kids, st);
      assert (kids + st)[1..] == kids[1..] + st;
    }
  }

  function Loaded(env: Env, e: Entry): Entry {
    if env.unixPaths then e.(name := BaseName(e.name)) else e
  }

  /** What a walk reports after it leaves a node of the given level. */
  function Next(env: Env, level: int, rest: seq<Entry>, rootDev: int): seq<Visit>
    decreases |rest|
  {
    if rest == [] then []
    else if rest[0].level != level then
      [rest[0].After()] + Next(env, rest[0].level, rest[1..], rootDev)
    else if level == 0 then
      var e := Loaded(env, rest[0]);
      [e.Seen()] + Rest(env, e, {}, e.id.dev) + Next(env, level, rest[1..], e.id.dev)
    else
      [rest[0].Seen()] + Rest(env, rest[0], AncestorIds(rest), rootDev)
      + Next(env, level, rest[1..], rootDev)
  }

  /** What a walk reports after it has just reported st[0]. */
  function Pending(env: Env, st: seq<Entry>, rootDev: int): seq<Visit>
    requires st != []
  {
    Rest(env, st[0], AncestorIds(st), rootDev) + Next(env, st[0].level, st[1..], rootDev)
  }

  lemma {:induction false} AncestorsOfChildren(kids: seq<Entry>, st: seq<Entry>)
    requires kids != [] && st != []
    requires AllAt(kids, st[0].level + 1)
    ensures AncestorIds(kids + st) == {st[0].id} + AncestorIds(st)
  {
    assert (kids + st)[1..] == kids[1..] + st;
    if |kids| == 1 {
      assert kids[1..] + st == st;
    } else {
      AncestorsOfChildren(kids[1..], st);
    }
  }

  /** Siblings pushed on top of their parent are reported as a tour, then the parent again. */
  lemma {:induction false} NextOfChildren(env: Env, kids: seq<Entry>, st: seq<Entry>, rootDev: int)
    requires st != [] && st[0].level >= 0
    requires AllAt(kids, st[0].level + 1)
    ensures Next(env, st[0].level + 1, kids + st, rootDev)
         == Tours(env, kids, {st[0].id} + AncestorIds(st), rootDev)
            + ([st[0].After()] + Next(env, st[0].level, st[1..], rootDev))
  {
    if kids == [] {
      assert kids + st == st;
    } else {
      var ids, tail := {st[0].id} + AncestorIds(st), [st[0].After()] + Next(env, st[0].level, st[1..], rootDev);
      AncestorsOfChildren(kids, st);
      assert (kids + st)[1..] == kids[1..] + st;
      NextOfChildren(env, kids[1..], st, rootDev);
      Associate([kids[0].Seen()] + Rest(env, kids[0], ids, rootDev), Tours(env, kids[1..], ids, rootDev), tail);
    }
  }

  /** An argument as fts_open leaves it: not loaded yet. */
  function Argument(env: Env, arg: string): Entry { Root(env, arg).(name := arg) }

  function Arguments(env: Env, args: seq<string>): seq<Entry> {
    if args == [] then [] else Arguments(env, args[..|args| - 1]) + [Argument(env, args[|args| - 1])]
  }

  lemma {:induction false} ArgumentsCons(env: Env, args: seq<string>)
    requires args != []
    ensures Arguments(env, args) == [Argument(env, args[0])] + Arguments(env, args[1..])
  {
    if |args| > 1 {
      ArgumentsCons(env, args[..|args| - 1]);
      assert args[..|args| - 1][1..] == args[1..][..|args| - 2];
    }
  }

  /** The arguments alone: the walk of the arguments. */
  lemma {:induction false} NextOfArguments(env: Env, args: seq<string>, rootDev: int)
    ensures Next(env, 0, Arguments(env, args), rootDev) == WalkOf(env, args)
  {
    if args != [] {
      ArgumentsCons(env, args);
      assert Arguments(env, args)[1..] == Arguments(env, args[1..]);
      NextOfArguments(env, args[1..], Root(env, args[0]).id.dev);
    }
  }

  // ------------------------------------------------ fts_read on the stack alone

  /** The stack and the device of the current argument; an empty stack has finished. */
  datatype Walk = Walk(st: seq<Entry>, rootDev: int)

  function Reading(env: Env, e: Entry, ancestors: set<FileId>): seq<Entry> {
    match env.list(e.path)
    case Unreadable(_) => []
    case Entries(names) => Children(env, e, {e.id} + ancestors, names)
  }

  /** fts_read leaves st[0] for its next sibling, or else its parent. */
  function Leave(env: Env, w: Walk): Walk
    requires w.st != []
  {
    if |w.st| == 1 then Walk([], w.rootDev)
    else if w.st[1].level != w.st[0].level then w.(st := [w.st[1].(info := DP)] + w.st[2..])
    else if w.st[1].level == 0 then Walk([Loaded(env, w.st[1])] + w.st[2..], w.st[1].id.dev)
    else w.(st := w.st[1..])
  }

  /** One fts_read, given what the application asked for on st[0], and whether a slash stands after
      its path: then a link means the directory it leads to. */
  function Step(env: Env, w: Walk, instr: Instr, slash: bool): Walk
    requires w.st != []
  {
    var e, ids, rest := w.st[0], AncestorIds(w.st), w.st[1..];
    if instr == Again then
      w.(st := [e.(info := Classify(env, e.path, e.name, ids, slash), id := StatId(env, e.path, slash, e.id))] + rest)
    else if instr == Follow && (e.info == SL || e.info == SLNone) then
      w.(st := [Resolved(env, e, ids)] + rest)
    else if e.info != D then Leave(env, w)
    else if instr == Skip || (env.xdev && e.id.dev != w.rootDev) then w.(st := [e.(info := DP)] + rest)
    else if Reading(env, e, ids) != [] then w.(st := Reading(env, e, ids) + w.st)
    else w.(st := [e.(info := if env.list(e.path).Unreadable? then DNR else DP)] + rest)
  }

  /** Levels fall by at most one along the stack. */
  ghost predicate Levels(st: seq<Entry>) {
    st != [] ==>
      && st[0].level >= 0 && (|st| > 1 ==> st[1].level == st[0].level || st[1].level == st[0].level - 1)
      && Levels(st[1..])
  }

  lemma {:induction false} RootsHaveNoAncestors(st: seq<Entry>)
    requires Levels(st) && st != [] && st[0].level == 0
    ensures AncestorIds(st) == {}
  {
    if |st| > 1 { RootsHaveNoAncestors(st[1..]); }
  }

  /** On to the next argument. */
  lemma RootTour(env: Env, rest: seq<Entry>, rootDev: int)
    requires rest != [] && Levels(rest) && rest[0].level == 0
    ensures var e := Loaded(env, rest[0]);
      Next(env, 0, rest, rootDev) == [e.Seen()] + Pending(env, [e] + rest[1..], e.id.dev)
  {
    var e := Loaded(env, rest[0]);
    var st := [e] + rest[1..];
    assert st[1..] == rest[1..];
    RootsHaveNoAncestors(st);
    Associate([e.Seen()], Rest(env, e, {}, e.id.dev), Next(env, 0, rest[1..], e.id.dev));
  }

  /** Up to the parent, which has nothing left to report of its own. */
  lemma ParentTour(env: Env, level: int, rest: seq<Entry>, rootDev: int)
    requires rest != [] && rest[0].level != level
    ensures var e := rest[0].(info := DP);
      Next(env, level, rest, rootDev) == [e.Seen()] + Pending(env, [e] + rest[1..], rootDev)
  {
    var st := [rest[0].(info := DP)] + rest[1..];
    assert st[1..] == rest[1..];
    Empty(Next(env, rest[0].level, rest[1..], rootDev));
  }

  lemma LeaveTour(env: Env, w: Walk)
    requires w.st != [] && Levels(w.st)
    ensures var w' := Leave(env, w);
      Next(env, w.st[0].level, w.st[1..], w.rootDev)
      == if w'.st == [] then [] else [w'.st[0].Seen()] + Pending(env, w'.st, w'.rootDev)
  {
    var level, rest := w.st[0].level, w.st[1..];
    if |w.st| > 1 {
      assert rest[1..] == w.st[2..] && rest[0] == w.st[1];
      if rest[0].level != level {
        ParentTour(env, level, rest, w.rootDev);
      } else if level == 0 {
        RootTour(env, rest, w.rootDev);
      } else {
        Associate([rest[0].Seen()], Rest(env, rest[0], AncestorIds(rest), w.rootDev), Next(env, level, rest[1..], w.rootDev));
      }
    }
  }

  lemma Pushed(kids: seq<Entry>, st: seq<Entry>)
    requires kids != []
    ensures (kids + st)[0] == kids[0] && (kids + st)[1..] == kids[1..] + st
  {
  }

  /** What is pending at the first of some children, just pushed. */
  lemma PendingPushed(env: Env, kids: seq<Entry>, st: seq<Entry>, rootDev: int)
    requires st != [] && st[0].level >= 0 && kids != []
    requires AllAt(kids, st[0].level + 1)
    ensures var ids := {st[0].id} + AncestorIds(st);
      Pending(env, kids + st, rootDev)
      == Rest(env, kids[0], ids, rootDev)
         + (Tours(env, kids[1..], ids, rootDev) + ([st[0].After()] + Next(env, st[0].level, st[1..], rootDev)))
  {
    Pushed(kids, st);
    AncestorsOfChildren(kids, st);
    NextOfChildren(env, kids[1..], st, rootDev);
  }

  lemma EnterTour(env: Env, kids: seq<Entry>, st: seq<Entry>, rootDev: int)
    requires st != [] && st[0].level >= 0 && kids != []
    requires AllAt(kids, st[0].level + 1)
    ensures Tours(env, kids, {st[0].id} + AncestorIds(st), rootDev) + ([st[0].After()] + Next(env, st[0].level, st[1..], rootDev))
         == [kids[0].Seen()] + Pending(env, kids + st, rootDev)
  {
    var ids, tail := {st[0].id} + AncestorIds(st), [st[0].After()] + Next(env, st[0].level, st[1..], rootDev);
    PendingPushed(env, kids, st, rootDev);
    Regroup([kids[0].Seen()], Rest(env, kids[0], ids, rootDev), Tours(env, kids[1..], ids, rootDev), tail);
  }

  /** Each fts_read reports the first visit still pending and leaves the others pending. */
  lemma StepTour(env: Env, w: Walk, slash: bool)
    requires SaneFiles(env) && SanePolicy(env)
    requires w.st != [] && Levels(w.st) && Acyclic(env, w.st)
    ensures var w' := Step(env, w, env.policy(w.st[0].path, w.st[0].info), slash);
      Pending(env, w.st, w.rootDev)
      == if w'.st == [] then [] else [w'.st[0].Seen()] + Pending(env, w'.st, w'.rootDev)
  {
    var e, ids := w.st[0], AncestorIds(w.st);
    var instr := env.policy(e.path, e.info);
    if e.info == SL && instr == Follow {
      FollowTour(env, w, slash);
    } else if e.info != D {
      LeaveTour(env, w);
    } else {
      DirectoryTour(env, w, slash);
    }
  }

  lemma FollowTour(env: Env, w: Walk, slash: bool)
    requires SaneFiles(env) && w.st != [] && w.st[0].info == SL && env.policy(w.st[0].path, SL) == Follow
    ensures var w' := Step(env, w, Follow, slash);
      Pending(env, w.st, w.rootDev) == [w'.st[0].Seen()] + Pending(env, w'.st, w'.rootDev)
  {
    var w' := Step(env, w, Follow, slash);
    assert w'.st[1..] == w.st[1..];
    assert AncestorIds(w'.st) == AncestorIds(w.st);
  }

  /** A node that will not be entered (any more) has nothing left to report. */
  lemma SettledTour(env: Env, w: Walk, e: Entry)
    requires w.st != [] && e.level == w.st[0].level && e.info != D && e.info != SL
    ensures Pending(env, [e] + w.st[1..], w.rootDev) == Next(env, w.st[0].level, w.st[1..], w.rootDev)
  {
    assert ([e] + w.st[1..])[1..] == w.st[1..];
  }

  /** A directory that is entered, and has something in it. */
  lemma EnteredTour(env: Env, w: Walk, kids: seq<Entry>)
    requires w.st != [] && w.st[0].level >= 0 && kids != [] && AllAt(kids, w.st[0].level + 1)
    requires var e, ids := w.st[0], AncestorIds(w.st);
      Rest(env, e, ids, w.rootDev) == Tours(env, kids, {e.id} + ids, w.rootDev) + [e.After()]
    ensures Pending(env, w.st, w.rootDev) == [kids[0].Seen()] + Pending(env, kids + w.st, w.rootDev)
  {
    var e, ids, tail := w.st[0], AncestorIds(w.st), Next(env, w.st[0].level, w.st[1..], w.rootDev);
    EnterTour(env, kids, w.st, w.rootDev);
    Associate(Tours(env, kids, {e.id} + ids, w.rootDev), [e.After()], tail);
  }

  /** What is left of a directory that has just been reported. */
  lemma RestOfDirectory(env: Env, e: Entry, ids: set<FileId>, rootDev: int)
    requires e.info == D && e.id in env.dirs && e.id !in ids
    ensures var kids := Reading(env, e, ids);
      Rest(env, e, ids, rootDev)
      == if env.policy(e.path, D) == Skip || (env.xdev && e.id.dev != rootDev) then [e.After()]
         else if env.list(e.path).Unreadable? then [Visit(e.path, DNR, e.level)]
         else Tours(env, kids, {e.id} + ids, rootDev) + [e.After()]
  {
  }

  lemma DirectoryTour(env: Env, w: Walk, slash: bool)
    requires w.st != [] && w.st[0].info == D && w.st[0].level >= 0
    requires w.st[0].id in env.dirs && w.st[0].id !in AncestorIds(w.st)
    requires env.policy(w.st[0].path, D) != Again
    ensures var w' := Step(env, w, env.policy(w.st[0].path, D), slash);
      Pending(env, w.st, w.rootDev) == [w'.st[0].Seen()] + Pending(env, w'.st, w'.rootDev)
  {
    var e, ids := w.st[0], AncestorIds(w.st);
    var kids := Reading(env, e, ids);
    RestOfDirectory(env, e, ids, w.rootDev);
    if env.policy(e.path, D) == Skip || (env.xdev && e.id.dev != w.rootDev) {
      SettledTour(env, w, e.(info := DP));
    } else if kids == [] {
      SettledTour(env, w, e.(info := if env.list(e.path).Unreadable? then DNR else DP));
      Empty([e.After()]);
    } else {
      ChildLevels(env, e, {e.id} + ids, env.list(e.path).names);
      EnteredTour(env, w, kids);
    }
  }

  lemma {:induction false} ArgumentsShape(env: Env, args: seq<string>)
    requires SaneFiles(env)
    ensures Levels(Arguments(env, args)) && Acyclic(env, Arguments(env, args))
  {
    if args != [] {
      ArgumentsShape(env, args[1..]);
      ArgumentsCons(env, args);
      if |args| > 1 { ArgumentsCons(env, args[1..]); }
      ArgumentKnown(env, args[0]);
      RootPushed(env, Argument(env, args[0]), Arguments(env, args[1..]));
    }
  }

  lemma ArgumentKnown(env: Env, arg: string)
    requires SaneFiles(env)
    ensures Argument(env, arg).level == 0 && Known(env, Argument(env, arg))
  {
    Classified(env, arg, arg, {}, env.comFollow, env.junk);
  }

  lemma RootPushed(env: Env, e: Entry, st: seq<Entry>)
    requires Levels(st) && Acyclic(env, st) && e.level == 0 && (st != [] ==> st[0].level == 0)
    requires Known(env, e)
    ensures Levels([e] + st) && Acyclic(env, [e] + st)
  {
    assert ([e] + st)[1..] == st;
    RootsHaveNoAncestors([e] + st);
  }
}
