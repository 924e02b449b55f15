/** The file hierarchy a walk sees, and the recursive tour that fts_read is
    meant to produce one visit at a time (library/fts/fts.c). */
module FtsSpec {

  datatype FileId = FileId(dev: int, ino: int)

  datatype Kind = Directory(id: FileId) | Symlink | Regular | Special

  datatype StatResult = Fails(errno: int) | Found(kind: Kind)

  datatype Listing = Unreadable(errno: int) | Entries(names: seq<string>)

  // The FTS_* codes of fts_info.
  datatype Info = D | DC | Default | DNR | Dot | DP | Err | F | Init | NS | NSOK | SL | SLNone

  // The FTS_* codes of fts_instr.
  datatype Instr = NoInstr | Again | Follow | Skip

  datatype Visit = Visit(path: string, info: Info, level: int)

  /** A static file system addressed by path, the fts_open options, and what the
      application asks for (fts_set) when it is handed a node.  `dirs` holds the
      identity of every directory; `junk` is what malloc leaves in fts_dev/fts_ino. */
  datatype Env = Env(
    stat: string -> StatResult,
    lstat: string -> StatResult,
    list: string -> Listing,
    policy: (string, Info) -> Instr,
    logical: bool, comFollow: bool, seeDot: bool, xdev: bool, unixPaths: bool,
    dirs: set<FileId>,
    junk: FileId)

  /** A file name or argument whose path stays a proper prefix of its children's. */
  predicate GoodName(s: string) {
    && s != [] && s[|s| - 1] != '/' && s[|s| - 1] != ':'
    && forall c :: c in s ==> c != '\0'
  }

  function Slashed(p: string): string { p + "/" }

  predicate IsDirectory(r: StatResult) { r.Found? && r.kind.Directory? }

  /** What stat(2), lstat(2) and opendir(3) guarantee on a file system nobody changes: only a
      directory can be listed, and a slash after its name, or after a link to it, means the directory. */
  ghost predicate SaneFiles(env: Env) {
    && (forall p :: env.list(p).Entries? ==> IsDirectory(env.stat(p)) && env.lstat(p).Found?)
    && (forall p :: env.list(p).Entries? ==> env.stat(Slashed(p)) == env.lstat(Slashed(p)) == env.stat(p))
    && (forall p :: IsDirectory(env.lstat(p)) ==> env.stat(p) == env.lstat(p))
    && (forall p :: env.stat(p) != Found(Symlink))
    && (forall p :: env.list(Slashed(p)) == env.list(p))
    && (forall p, id :: env.stat(p) == Found(Directory(id)) ==> id in env.dirs)
    && (forall p, id :: env.lstat(p) == Found(Directory(id)) ==> id in env.dirs)
    && (forall p :: env.list(p).Entries? ==> forall n :: n in env.list(p).names ==> GoodName(n))
  }

  /** The application never asks for the same answer twice: on a static file
      system FTS_AGAIN, or following a dangling link, repeats the visit for ever. */
  ghost predicate SanePolicy(env: Env) {
    forall p, i :: env.policy(p, i) != Again && (i == SLNone ==> env.policy(p, i) != Follow)
  }

  predicate IsDot(name: string) { name == "." || name == ".." }

  /** fts_stat: the fts_info code of a file whose ancestors have the given identities. */
  function Classify(env: Env, path: string, name: string, ancestors: set<FileId>, follow: bool): (i: Info)
    ensures i == D ==> StatId(env, path, follow, env.junk) !in ancestors
  {
    match if env.logical || follow then env.stat(path) else env.lstat(path)
    case Fails(_) => if (env.logical || follow) && env.lstat(path).Found? then SLNone else NS
    case Found(Directory(id)) => if IsDot(name) then Dot else if id in ancestors then DC else D
    case Found(Symlink) => SL
    case Found(Regular) => F
    case Found(Special) => Default
  }

  /** fts_stat: the identity recorded, which only a directory changes. */
  function StatId(env: Env, path: string, follow: bool, before: FileId): FileId {
    match if env.logical || follow then env.stat(path) else env.lstat(path)
    case Found(Directory(id)) => id
    case _ => before
  }

  // ---------------------------------------------------------------- the tour

  datatype Entry = Entry(path: string, name: string, level: int, info: Info, id: FileId)
  {
    function Seen(): Visit { Visit(path, info, level) }
    function After(): Visit { Visit(path, DP, level) }
  }

  function Child(env: Env, dir: Entry, ancestors: set<FileId>, name: string): Entry {
    var path := dir.path + "/" + name;
    Entry(path, name, dir.level + 1, Classify(env, path, name, ancestors, false),
          StatId(env, path, false, env.junk))
  }

  predicate Listed(env: Env, name: string) { env.seeDot || !IsDot(name) }

  function Children(env: Env, dir: Entry, ancestors: set<FileId>, names: seq<string>): seq<Entry> {
    if names == [] then []
    else
      (if Listed(env, names[0]) then [Child(env, dir, ancestors, names[0])] else [])
      + Children(env, dir, ancestors, names[1..])
  }

  predicate AllAt(es: seq<Entry>, level: int) {
    es != [] ==> es[0].level == level && AllAt(es[1..], level)
  }

  lemma {:induction false} ChildLevels(env: Env, dir: Entry, ancestors: set<FileId>, names: seq<string>)
    ensures AllAt(Children(env, dir, ancestors, names), dir.level + 1)
  {
    if names != [] {
      ChildLevels(env, dir, ancestors, names[1..]);
      if Listed(env, names[0]) {
        assert Children(env, dir, ancestors, names)[1..] == Children(env, dir, ancestors, names[1..]);
      } else {
        assert Children(env, dir, ancestors, names) == Children(env, dir, ancestors, names[1..]);
      }
    }
  }

  lemma {:induction false} ChildrenSnoc(env: Env, dir: Entry, ancestors: set<FileId>, names: seq<string>, name: string)
    ensures Children(env, dir, ancestors, names + [name])
         == Children(env, dir, ancestors, names)
            + if Listed(env, name) then [Child(env, dir, ancestors, name)] else []
  {
    if names == [] {
      assert names + [name] == [name];
    } else {
      ChildrenSnoc(env, dir, ancestors, names[1..], name);
      assert (names + [name])[1..] == names[1..] + [name];
    }
  }

  lemma ChildrenStep(env: Env, dir: Entry, ancestors: set<FileId>, names: seq<string>, i: nat)
    requires i < |names|
    ensures Children(env, dir, ancestors, names[..i + 1])
         == Children(env, dir, ancestors, names[..i])
            + if Listed(env, names[i]) then [Child(env, dir, ancestors, names[i])] else []
  {
    ChildrenSnoc(env, dir, ancestors, names[..i], names[i]);
    assert names[..i + 1] == names[..i] + [names[i]];
  }

  function Resolved(env: Env, e: Entry, ancestors: set<FileId>): Entry {
    e.(info := Classify(env, e.path, e.name, ancestors, true),
       id := StatId(env, e.path, true, e.id))
  }

  /** Everything a walk reports after it has just reported `e` and before it leaves `e`. */
  function Rest(env: Env, e: Entry, ancestors: set<FileId>, rootDev: int): seq<Visit>
    decreases env.dirs - ancestors, 1, e.info == SL, 0
  {
    var instr := env.policy(e.path, e.info);
    if e.info == SL && instr == Follow then
      var t := Resolved(env, e, ancestors);
      if t.info == SL then [] // stat(2) never reports a link
      else [t.Seen()] + Rest(env, t, ancestors, rootDev)
    else if e.info != D then []
    else if instr == Skip || (env.xdev && e.id.dev != rootDev) then [e.After()]
    else if e.id in ancestors || e.id !in env.dirs then [] // Classify reports FTS_DC instead
    else
      match env.list(e.path)
      case Unreadable(_) => [Visit(e.path, DNR, e.level)]
      case Entries(names) =>
        Tours(env, Children(env, e, {e.id} + ancestors, names), {e.id} + ancestors, rootDev) + [e.After()]
  }

  /** The recursive depth-first tour of a list of siblings. */
  function Tours(env: Env, es: seq<Entry>, ancestors: set<FileId>, rootDev: int): seq<Visit>
    decreases env.dirs - ancestors, 2, false, |es|
  {
    if es == [] then []
    else [es[0].Seen()] + Rest(env, es[0], ancestors, rootDev) + Tours(env, es[1..], ancestors, rootDev)
  }

  // -------------------------------------------------------------- the roots

  /** fts_load keeps the part of the argument after its last slash. */
  function BaseName(s: string): string {
    if s == [] || s[|s| - 1] == '/' then [] else BaseName(s[..|s| - 1]) + [s[|s| - 1]]
  }

  function Root(env: Env, arg: string): Entry {
    var i := Classify(env, arg, arg, {}, env.comFollow);
    Entry(arg, if env.unixPaths then BaseName(arg) else arg, 0,
          if env.unixPaths && i == Dot then D else i,
          StatId(env, arg, env.comFollow, env.junk))
  }

  /** The whole walk: one tour per argument, each measured against its own device. */
  function WalkOf(env: Env, args: seq<string>): seq<Visit> {
    if args == [] then []
    else
      var e := Root(env, args[0]);
      [e.Seen()] + Rest(env, e, {}, e.id.dev) + WalkOf(env, args[1..])
  }
}
