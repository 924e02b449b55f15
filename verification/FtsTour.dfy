/** What a tour is, said without the walker: a reader that goes through the visits one by one with
    the directories that are open, and asks the file system about each.  It accepts exactly the
    recursive tour (library/fts/fts.c). */
module FtsTour {
  import opened Common
  import opened FtsSpec
  import opened FtsStack

  // ----------------------------------------------------------------------- codes

  /** What fts_stat looks at. */
  function Sees(env: Env, path: string, follow: bool): StatResult {
    if follow then env.stat(path) else if env.logical then env.stat(path) else env.lstat(path)
  }

  /** The code that the file system gives to a file, each with what it means. */
  predicate Coded(env: Env, path: string, name: string, ancestors: set<FileId>, follow: bool, i: Info) {
    var sb := Sees(env, path, follow);
    var dangling := sb.Fails? && (follow || env.logical) && env.lstat(path).Found?;
    && (i == F <==> sb == Found(Regular))
    && (i == SL <==> sb == Found(Symlink))
    && (i == Default <==> sb == Found(Special))
    && (i == SLNone <==> dangling)
    && (i == NS <==> sb.Fails? && !dangling)
    && (i == Dot <==> IsDirectory(sb) && (name == "." || name == ".."))
    && (i == DC <==> IsDirectory(sb) && name != "." && name != ".." && sb.kind.id in ancestors)
    && (i == D <==> IsDirectory(sb) && name != "." && name != ".." && sb.kind.id !in ancestors)
  }

  lemma ClassifyIsCoded(env: Env, path: string, name: string, ancestors: set<FileId>, follow: bool)
    ensures Coded(env, path, name, ancestors, follow, Classify(env, path, name, ancestors, follow))
  {
  }

  /** There is one code for a file. */
  lemma OneCode(env: Env, path: string, name: string, ancestors: set<FileId>, follow: bool, i: Info, j: Info)
    requires Coded(env, path, name, ancestors, follow, i) && Coded(env, path, name, ancestors, follow, j)
    ensures i == j
  {
  }

  /** The code of an argument: with Unix paths "." and ".." are real directories. */
  predicate RootCoded(env: Env, arg: string, i: Info) {
    if env.unixPaths && (arg == "." || arg == "..") && IsDirectory(Sees(env, arg, env.comFollow)) then i == D
    else Coded(env, arg, arg, {}, env.comFollow, i)
  }

  lemma RootIsCoded(env: Env, arg: string)
    ensures RootCoded(env, arg, Root(env, arg).info)
  {
    ClassifyIsCoded(env, arg, arg, {}, env.comFollow);
  }

  lemma OneRootCode(env: Env, arg: string, i: Info, j: Info)
    requires RootCoded(env, arg, i) && RootCoded(env, arg, j)
    ensures i == j
  {
  }

  // -------------------------------------------------------------- reading a tour

  /** An open directory: its path and identity, and the names in it that are still to be reported. */
  datatype Frame = Frame(path: string, id: FileId, todo: seq<string>)

  function Ids(open: seq<Frame>): set<FileId> {
    if open == [] then {} else {open[0].id} + Ids(open[1..])
  }

  /** The names of a directory that are reported. */
  function Shown(env: Env, names: seq<string>): seq<string> {
    if names == [] then []
    else if !env.seeDot && (names[0] == "." || names[0] == "..") then Shown(env, names[1..])
    else [names[0]] + Shown(env, names[1..])
  }

  function Identity(env: Env, path: string): FileId {
    match env.stat(path)
    case Found(Directory(id)) => id
    case _ => env.junk
  }

  /** With Unix paths an argument goes by what comes after its last slash. */
  function RootName(env: Env, arg: string): string {
    if env.unixPaths then BaseName(arg) else arg
  }

  lemma {:induction false} BaseNameIs(s: string) returns (front: string)
    ensures s == front + BaseName(s) && '/' !in BaseName(s) && (front == [] || front[|front| - 1] == '/')
    decreases |s|
  {
    if s == [] || s[|s| - 1] == '/' {
      front := s;
    } else {
      front := BaseNameIs(s[..|s| - 1]);
      assert s == s[..|s| - 1] + [s[|s| - 1]];
    }
  }

  /** The device an argument lies on; nothing has set that of an argument that is no directory. */
  function RootDevice(env: Env, arg: string): int {
    if IsDirectory(Sees(env, arg, env.comFollow)) then Identity(env, arg).dev else env.junk.dev
  }

  /** The visits that are left when these directories are open, the innermost first, and these
      arguments are still to come. */
  predicate Reads(env: Env, vs: seq<Visit>, open: seq<Frame>, args: seq<string>, rootDev: int)
    decreases |vs|, 1
  {
    if open == [] then
      if args == [] then vs == []
      else
        && vs != [] && vs[0].path == args[0] && vs[0].level == 0 && RootCoded(env, args[0], vs[0].info)
        && Goes(env, vs, RootName(env, args[0]), open, args[1..], RootDevice(env, args[0]))
    else if open[0].todo == [] then
      vs != [] && vs[0] == Visit(open[0].path, DP, |open| - 1) && Reads(env, vs[1..], open[1..], args, rootDev)
    else
      var name := open[0].todo[0];
      && vs != [] && vs[0].path == open[0].path + "/" + name && vs[0].level == |open|
      && Coded(env, vs[0].path, name, Ids(open), false, vs[0].info)
      && Goes(env, vs, name, [open[0].(todo := open[0].todo[1..])] + open[1..], args, rootDev)
  }

  /** How it goes on after vs[0]: a link may be followed, a directory entered, skipped or found
      unreadable. */
  predicate Goes(env: Env, vs: seq<Visit>, name: string, open: seq<Frame>, args: seq<string>, rootDev: int)
    requires vs != []
    decreases |vs|, 0
  {
    var v, rest := vs[0], vs[1..];
    var instr := env.policy(v.path, v.info);
    if v.info == SL && instr == Follow then
      && rest != [] && rest[0].path == v.path && rest[0].level == v.level && rest[0].info != SL
      && Coded(env, v.path, name, Ids(open), true, rest[0].info)
      && Goes(env, rest, name, open, args, rootDev)
    else if v.info != D then Reads(env, rest, open, args, rootDev)
    else if instr == Skip || (env.xdev && Identity(env, v.path).dev != rootDev) then
      rest != [] && rest[0] == v.(info := DP) && Reads(env, rest[1..], open, args, rootDev)
    else
      match env.list(v.path)
      case Unreadable(_) => rest != [] && rest[0] == v.(info := DNR) && Reads(env, rest[1..], open, args, rootDev)
      case Entries(names) => Reads(env, rest, [Frame(v.path, Identity(env, v.path), Shown(env, names))] + open, args, rootDev)
  }

  /** The visits are a tour of the arguments. */
  predicate IsTour(env: Env, args: seq<string>, vs: seq<Visit>) {
    Reads(env, vs, [], args, 0)
  }

  // --------------------------------------------------------------- the walk is one

  /** What is known of a file that has been reported as a directory. */
  ghost predicate Sound(env: Env, e: Entry, ancestors: set<FileId>) {
    e.info == D ==> env.stat(e.path) == Found(Directory(e.id)) && e.id !in ancestors && e.id in env.dirs
  }

  lemma SameIds(f: Frame, todo: seq<string>, open: seq<Frame>)
    ensures Ids([f.(todo := todo)] + open) == Ids([f] + open) == {f.id} + Ids(open)
  {
    assert ([f] + open)[1..] == open && ([f.(todo := todo)] + open)[1..] == open;
  }

  /** The visits after a file that has just been reported. */
  lemma {:induction false} RestRead(env: Env, e: Entry, open: seq<Frame>, args: seq<string>, rootDev: int, tail: seq<Visit>)
    requires SaneFiles(env) && Sound(env, e, Ids(open)) && e.level == |open| && Reads(env, tail, open, args, rootDev)
    ensures Goes(env, [e.Seen()] + (Rest(env, e, Ids(open), rootDev) + tail), e.name, open, args, rootDev)
    decreases env.dirs - Ids(open), 1, e.info == SL, 0
  {
    var ids := Ids(open);
    var instr, rest := env.policy(e.path, e.info), Rest(env, e, ids, rootDev);
    var vs := [e.Seen()] + (rest + tail);
    assert vs[0] == e.Seen() && vs[1..] == rest + tail;
    if e.info == SL && instr == Follow {
      LinkRead(env, e, open, args, rootDev, tail);
    } else if e.info != D {
      Empty(tail);
    } else if instr == Skip || (env.xdev && e.id.dev != rootDev) {
      assert (rest + tail)[1..] == tail;
    } else {
      match env.list(e.path)
      case Unreadable(_) =>
        assert (rest + tail)[1..] == tail;
      case Entries(names) =>
        EnterRead(env, e, names, open, args, rootDev, tail);
    }
  }

  lemma {:induction false} LinkRead(env: Env, e: Entry, open: seq<Frame>, args: seq<string>, rootDev: int, tail: seq<Visit>)
    requires SaneFiles(env) && e.info == SL && env.policy(e.path, e.info) == Follow
    requires e.level == |open| && Reads(env, tail, open, args, rootDev)
    ensures Goes(env, [e.Seen()] + (Rest(env, e, Ids(open), rootDev) + tail), e.name, open, args, rootDev)
    decreases env.dirs - Ids(open), 1, true, -1
  {
    var ids := Ids(open);
    var t := Resolved(env, e, ids);
    Classified(env, e.path, e.name, ids, true, e.id);
    ClassifyIsCoded(env, e.path, e.name, ids, true);
    RestRead(env, t, open, args, rootDev, tail);
    Associate([t.Seen()], Rest(env, t, ids, rootDev), tail);
    LinkGoes(env, e.Seen(), [t.Seen()] + (Rest(env, t, ids, rootDev) + tail), e.name, open, args, rootDev);
  }

  lemma LinkGoes(env: Env, v: Visit, rest: seq<Visit>, name: string, open: seq<Frame>, args: seq<string>, rootDev: int)
    requires v.info == SL && env.policy(v.path, v.info) == Follow
    requires rest != [] && rest[0].path == v.path && rest[0].level == v.level && rest[0].info != SL
    requires Coded(env, v.path, name, Ids(open), true, rest[0].info) && Goes(env, rest, name, open, args, rootDev)
    ensures Goes(env, [v] + rest, name, open, args, rootDev)
  {
    assert ([v] + rest)[1..] == rest;
  }

  lemma {:induction false} EnterRead(env: Env, e: Entry, names: seq<string>, open: seq<Frame>, args: seq<string>, rootDev: int, tail: seq<Visit>)
    requires SaneFiles(env) && e.info == D && Sound(env, e, Ids(open)) && e.level == |open|
    requires Reads(env, tail, open, args, rootDev)
    ensures var ids := {e.id} + Ids(open);
      Reads(env, Tours(env, Children(env, e, ids, names), ids, rootDev) + [e.After()] + tail,
            [Frame(e.path, e.id, Shown(env, names))] + open, args, rootDev)
    decreases env.dirs - Ids(open), 1, false, -1
  {
    var frame := Frame(e.path, e.id, Shown(env, names));
    SameIds(frame, frame.todo, open);
    ChildrenRead(env, e, names, [frame] + open, args, rootDev, tail);
    Associate(Tours(env, Children(env, e, {e.id} + Ids(open), names), {e.id} + Ids(open), rootDev), [e.After()], tail);
  }

  /** The visits of the children that are left in the innermost directory, and of what follows it. */
  lemma {:induction false} ChildrenRead(env: Env, dir: Entry, names: seq<string>, open: seq<Frame>, args: seq<string>,
                                        rootDev: int, tail: seq<Visit>)
    requires SaneFiles(env) && open != [] && open[0] == Frame(dir.path, dir.id, Shown(env, names))
    requires dir.level + 1 == |open| && Reads(env, tail, open[1..], args, rootDev)
    ensures Reads(env, Tours(env, Children(env, dir, Ids(open), names), Ids(open), rootDev) + ([dir.After()] + tail), open, args, rootDev)
    decreases env.dirs - Ids(open), 2, false, 2 * |names| + 1
  {
    var ids, end := Ids(open), [dir.After()] + tail;
    if names == [] {
      Empty(end);
      assert end[1..] == tail;
    } else if !Listed(env, names[0]) {
      ChildrenRead(env, dir, names[1..], open, args, rootDev, tail);
      Empty(Children(env, dir, ids, names[1..]));
    } else {
      ChildRead(env, dir, names, open, args, rootDev, tail);
    }
  }

  lemma {:induction false} ChildRead(env: Env, dir: Entry, names: seq<string>, open: seq<Frame>, args: seq<string>,
                                     rootDev: int, tail: seq<Visit>)
    requires SaneFiles(env) && open != [] && open[0] == Frame(dir.path, dir.id, Shown(env, names))
    requires dir.level + 1 == |open| && Reads(env, tail, open[1..], args, rootDev)
    requires names != [] && Listed(env, names[0])
    ensures Reads(env, Tours(env, Children(env, dir, Ids(open), names), Ids(open), rootDev) + ([dir.After()] + tail), open, args, rootDev)
    decreases env.dirs - Ids(open), 2, false, 2 * |names|
  {
    var ids, end := Ids(open), [dir.After()] + tail;
    var c, others := Child(env, dir, ids, names[0]), Children(env, dir, ids, names[1..]);
    var left := [open[0].(todo := open[0].todo[1..])] + open[1..];
    assert open[0].todo[1..] == Shown(env, names[1..]);
    assert open == [open[0]] + open[1..];
    SameIds(open[0], open[0].todo[1..], open[1..]);
    assert left[1..] == open[1..];
    ChildrenRead(env, dir, names[1..], left, args, rootDev, tail);
    var after := Tours(env, others, ids, rootDev) + end;
    Classified(env, c.path, c.name, ids, false, env.junk);
    ClassifyIsCoded(env, c.path, c.name, ids, false);
    RestRead(env, c, left, args, rootDev, after);
    assert Children(env, dir, ids, names) == [c] + others;
    assert ([c] + others)[1..] == others;
    Regroup([c.Seen()], Rest(env, c, ids, rootDev), Tours(env, others, ids, rootDev), end);
  }

  lemma {:induction false} WalkRead(env: Env, args: seq<string>, rootDev: int)
    requires SaneFiles(env)
    ensures Reads(env, WalkOf(env, args), [], args, rootDev)
    decreases |args|
  {
    if args != [] {
      var e, tail := Root(env, args[0]), WalkOf(env, args[1..]);
      Classified(env, args[0], args[0], {}, env.comFollow, env.junk);
      RootIsCoded(env, args[0]);
      WalkRead(env, args[1..], e.id.dev);
      RestRead(env, e, [], args[1..], e.id.dev, tail);
      Associate([e.Seen()], Rest(env, e, {}, e.id.dev), tail);
      assert e.id.dev == RootDevice(env, args[0]);
    }
  }

  /** There is one tour of the arguments: visits that can be read as one are the same visits. */
  lemma {:induction false} OneReading(env: Env, vs: seq<Visit>, us: seq<Visit>, open: seq<Frame>, args: seq<string>, rootDev: int)
    requires Reads(env, vs, open, args, rootDev) && Reads(env, us, open, args, rootDev)
    ensures vs == us
    decreases |vs|, 1
  {
    if open == [] {
      if args != [] {
        OneRootCode(env, args[0], vs[0].info, us[0].info);
        OneWay(env, vs, us, RootName(env, args[0]), open, args[1..], RootDevice(env, args[0]));
      }
    } else if open[0].todo == [] {
      OneReading(env, vs[1..], us[1..], open[1..], args, rootDev);
      assert vs == [vs[0]] + vs[1..] && us == [us[0]] + us[1..];
    } else {
      var name := open[0].todo[0];
      OneCode(env, vs[0].path, name, Ids(open), false, vs[0].info, us[0].info);
      OneWay(env, vs, us, name, [open[0].(todo := open[0].todo[1..])] + open[1..], args, rootDev);
    }
  }

  lemma {:induction false} OneWay(env: Env, vs: seq<Visit>, us: seq<Visit>, name: string, open: seq<Frame>, args: seq<string>, rootDev: int)
    requires vs != [] && us != [] && vs[0] == us[0]
    requires Goes(env, vs, name, open, args, rootDev) && Goes(env, us, name, open, args, rootDev)
    ensures vs == us
    decreases |vs|, 0
  {
    var v, rest, rest' := vs[0], vs[1..], us[1..];
    var instr := env.policy(v.path, v.info);
    assert vs == [v] + rest && us == [v] + rest';
    if v.info == SL && instr == Follow {
      OneCode(env, v.path, name, Ids(open), true, rest[0].info, rest'[0].info);
      OneWay(env, rest, rest', name, open, args, rootDev);
    } else if v.info != D {
      OneReading(env, rest, rest', open, args, rootDev);
    } else if instr == Skip || (env.xdev && Identity(env, v.path).dev != rootDev) || env.list(v.path).Unreadable? {
      OneReading(env, rest[1..], rest'[1..], open, args, rootDev);
      assert rest == [rest[0]] + rest[1..] && rest' == [rest'[0]] + rest'[1..];
    } else {
      OneReading(env, rest, rest', [Frame(v.path, Identity(env, v.path), Shown(env, env.list(v.path).names))] + open, args, rootDev);
    }
  }

  /** The walk, and nothing else, is the tour of the arguments. */
  lemma WalkIsTour(env: Env, args: seq<string>, vs: seq<Visit>)
    requires SaneFiles(env)
    ensures IsTour(env, args, vs) <==> vs == WalkOf(env, args)
  {
    WalkRead(env, args, 0);
    if IsTour(env, args, vs) {
      OneReading(env, vs, WalkOf(env, args), [], args, 0);
    }
  }

  // ----------------------------------------------------- instructions outside a tour

  /** Only the code and the identity of the current node have changed. */
  predicate Restated(st: seq<Entry>, st': seq<Entry>) {
    && st != [] && st' != [] && st'[1..] == st[1..]
    && st'[0].path == st[0].path && st'[0].name == st[0].name && st'[0].level == st[0].level
  }

  /** FTS_AGAIN on any node, and FTS_FOLLOW on a link: the node is reported once more, with the code the
      file system gives it now. */
  lemma StepRestates(env: Env, w: Walk, instr: Instr, slash: bool)
    requires w.st != [] && (instr == Again || (instr == Follow && (w.st[0].info == SL || w.st[0].info == SLNone)))
    ensures var w', e := Step(env, w, instr, slash), w.st[0];
      && w'.rootDev == w.rootDev && Restated(w.st, w'.st)
      && Coded(env, e.path, e.name, AncestorIds(w.st), instr == Follow || slash, w'.st[0].info)
  {
    var e, ids := w.st[0], AncestorIds(w.st);
    ClassifyIsCoded(env, e.path, e.name, ids, instr == Follow || slash);
  }

  // ------------------------------------------------------------------ every visit

  /** What a code says of the file at a path, found with or without following links. */
  predicate Kinded(env: Env, path: string, follow: bool, i: Info) {
    var sb := Sees(env, path, follow);
    && (i == F <==> sb == Found(Regular)) && (i == SL <==> sb == Found(Symlink)) && (i == Default <==> sb == Found(Special))
    && (i == D || i == DC || i == Dot <==> IsDirectory(sb)) && (i == NS || i == SLNone <==> sb.Fails?)
  }

  /** The code of a visit, unless it says that a directory is left or cannot be read, is the one of the file. */
  predicate True(env: Env, v: Visit) {
    v.info == DP || v.info == DNR || Kinded(env, v.path, false, v.info) || Kinded(env, v.path, true, v.info)
  }

  lemma LinkTrue(env: Env, path: string, name: string, ancestors: set<FileId>, i: Info)
    requires Coded(env, path, name, ancestors, true, i)
    ensures Kinded(env, path, true, i)
  {
  }

  predicate AllTrue(env: Env, vs: seq<Visit>) {
    vs == [] || (True(env, vs[0]) && AllTrue(env, vs[1..]))
  }

  lemma {:induction false} ReadTrue(env: Env, vs: seq<Visit>, open: seq<Frame>, args: seq<string>, rootDev: int)
    requires Reads(env, vs, open, args, rootDev)
    ensures AllTrue(env, vs)
    decreases |vs|, 1
  {
    if open == [] {
      if args != [] {
        assert Kinded(env, vs[0].path, env.comFollow, vs[0].info);
        GoesTrue(env, vs, RootName(env, args[0]), open, args[1..], RootDevice(env, args[0]));
      }
    } else if open[0].todo == [] {
      ReadTrue(env, vs[1..], open[1..], args, rootDev);
    } else {
      assert Kinded(env, vs[0].path, false, vs[0].info);
      GoesTrue(env, vs, open[0].todo[0], [open[0].(todo := open[0].todo[1..])] + open[1..], args, rootDev);
    }
  }

  lemma {:induction false} GoesTrue(env: Env, vs: seq<Visit>, name: string, open: seq<Frame>, args: seq<string>, rootDev: int)
    requires vs != [] && Goes(env, vs, name, open, args, rootDev)
    ensures AllTrue(env, vs[1..])
    decreases |vs|, 0
  {
    var v, rest := vs[0], vs[1..];
    var instr := env.policy(v.path, v.info);
    if v.info == SL && instr == Follow {
      LinkTrue(env, v.path, name, Ids(open), rest[0].info);
      GoesTrue(env, rest, name, open, args, rootDev);
    } else if v.info != D {
      ReadTrue(env, rest, open, args, rootDev);
    } else if instr == Skip || (env.xdev && Identity(env, v.path).dev != rootDev) || env.list(v.path).Unreadable? {
      ReadTrue(env, rest[1..], open, args, rootDev);
    } else {
      ReadTrue(env, rest, [Frame(v.path, Identity(env, v.path), Shown(env, env.list(v.path).names))] + open, args, rootDev);
    }
  }

  lemma {:induction false} TrueAt(env: Env, vs: seq<Visit>, k: nat)
    requires AllTrue(env, vs) && k < |vs|
    ensures True(env, vs[k])
    decreases k
  {
    if k > 0 {
      TrueAt(env, vs[1..], k - 1);
    }
  }

  /** Every visit of a walk has the code that the file system gives the file at its path. */
  lemma VisitsAreTrue(env: Env, args: seq<string>, k: nat)
    requires SaneFiles(env) && k < |WalkOf(env, args)|
    ensures True(env, WalkOf(env, args)[k])
  {
    WalkRead(env, args, 0);
    ReadTrue(env, WalkOf(env, args), [], args, 0);
    TrueAt(env, WalkOf(env, args), k);
  }
}
