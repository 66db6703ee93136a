/** `traverse_directory`: the depth-first walk below the scan root that picks the
    files to read, over an abstract tree of directory entries. */
module Walker {
  import opened Bytes
  import opened Log
  import opened TokenReader

  /** What `lstat` says about an entry, or that it failed. */
  datatype Kind = Directory | Regular | OtherKind | StatFailed

  /** A directory entry: its `d_name`, its lstat kind, whether opendir/fopen succeeds
      on it, the bytes of a regular file and the listing of a directory (in readdir
      order, "." and ".." included where the listing has them). */
  datatype Entry = Entry(name: Name, kind: Kind, opens: bool, content: seq<Byte>, children: seq<Entry>)

  const CurrentDir: Name := [Dot]
  const ParentDir: Name := [Dot, Dot]
  const TokenName: Name := [0x74, 0x6F, 0x6B, 0x65, 0x6E]   // "token"

  /** No file below e holds a NUL byte. */
  predicate NulFree(e: Entry)
  {
    Nul !in e.content && forall i :: 0 <= i < |e.children| ==> NulFree(e.children[i])
  }

  /** What the walk decides to do, in order: report a directory it cannot open, or
      read a token file. */
  datatype Action = ScanFailed(dir: Path) | ReadFile(path: Path, file: File)

  /** The actions for the directory at `path`. */
  function Targets(dir: Entry, path: Path): seq<Action>
    decreases dir, 1, 0
  {
    if !dir.opens then [ScanFailed(path)] else ChildTargets(dir, 0, path)
  }

  /** The actions for the entries of `dir` from the i-th on. */
  function ChildTargets(dir: Entry, i: nat, path: Path): seq<Action>
    requires i <= |dir.children|
    decreases dir, 0, |dir.children| - i
  {
    if i == |dir.children| then []
    else Visit(dir.children[i], path) + ChildTargets(dir, i + 1, path)
  }

  /** One entry of the directory at `path`: skip "." and "..", skip what lstat fails
      on, descend into directories, read regular files named "token", skip the rest. */
  function Visit(e: Entry, path: Path): seq<Action>
    decreases e, 2, 0
  {
    if e.name == CurrentDir || e.name == ParentDir then []
    else match e.kind
      case StatFailed => []
      case Directory => Targets(e, path + [e.name])
      case Regular => if e.name == TokenName then [ReadFile(path + [e.name], File(e.opens, e.content))] else []
      case OtherKind => []
  }

  /** Everything the actions log, in order. */
  function Run(actions: seq<Action>): (r: seq<Event>)
    ensures |r| <= |actions|
  {
    if actions == [] then []
    else
      var first := match actions[0]
        case ScanFailed(dir) => [CannotOpenDirectory(dir)]
        case ReadFile(path, file) => TokenEvents(file, path);
      first + Run(actions[1..])
  }

  lemma {:induction false} RunAppend(a: seq<Action>, b: seq<Action>)
    ensures Run(a + b) == Run(a) + Run(b)
  {
    if a == [] {
      assert a + b == b;
    } else {
      assert (a + b)[0] == a[0] && (a + b)[1..] == a[1..] + b;
      RunAppend(a[1..], b);
    }
  }

  // ---------------------------------------------------------------------------
  // The selection rule, stated on paths

  /** Entry e may be the first step of a walk: neither "." nor "..", and named p[0]. */
  predicate Step(e: Entry, p: Path)
  {
    |p| >= 1 && e.name == p[0] && e.name != CurrentDir && e.name != ParentDir
  }

  /** p leads from the opened directory `dir` through lstat directories that open to a
      regular file named "token" whose open flag and bytes are f. */
  predicate TokenAt(dir: Entry, p: Path, f: File)
    decreases dir
  {
    dir.opens &&
    exists i :: 0 <= i < |dir.children| && Step(dir.children[i], p) &&
      ((|p| == 1 && dir.children[i].kind == Regular && p[0] == TokenName &&
        f == File(dir.children[i].opens, dir.children[i].content)) ||
       (|p| > 1 && dir.children[i].kind == Directory && TokenAt(dir.children[i], p[1..], f)))
  }

  /** An action among the entries from i on comes from one of those entries. */
  lemma {:induction false} InChildTargets(dir: Entry, i: nat, path: Path, a: Action)
    requires i <= |dir.children|
    ensures a in ChildTargets(dir, i, path) <==>
              exists j :: i <= j < |dir.children| && a in Visit(dir.children[j], path)
    decreases |dir.children| - i
  {
    if i < |dir.children| {
      InChildTargets(dir, i + 1, path, a);
    }
  }

  /** Soundness: every file the walk reads is a token file reachable from `dir`,
      named by the path that leads to it. */
  lemma {:induction false} ReadsOnlyTokenFiles(dir: Entry, path: Path, a: Action)
    requires a in Targets(dir, path) && a.ReadFile?
    ensures |path| < |a.path| && a.path[..|path|] == path && TokenAt(dir, a.path[|path|..], a.file)
    decreases dir
  {
    InChildTargets(dir, 0, path, a);
    var j :| 0 <= j < |dir.children| && a in Visit(dir.children[j], path);
    var c := dir.children[j];
    if c.kind == Directory {
      ReadsOnlyTokenFiles(c, path + [c.name], a);
      var rest := a.path[|path|..];
      assert rest[1..] == a.path[|path| + 1..];
      assert rest[0] == c.name;
      assert Step(c, rest);
    } else {
      assert a.path == path + [c.name];
      assert a.path[|path|..] == [c.name];
      assert Step(c, a.path[|path|..]);
    }
  }

  /** Completeness: every reachable token file is read, under its path, however the
      other entries turn out (an unopenable sibling directory included). */
  lemma {:induction false} ReadsEveryTokenFile(dir: Entry, path: Path, p: Path, f: File)
    requires TokenAt(dir, p, f)
    ensures ReadFile(path + p, f) in Targets(dir, path)
    decreases dir
  {
    var j :| 0 <= j < |dir.children| && Step(dir.children[j], p) &&
      ((|p| == 1 && dir.children[j].kind == Regular && p[0] == TokenName &&
        f == File(dir.children[j].opens, dir.children[j].content)) ||
       (|p| > 1 && dir.children[j].kind == Directory && TokenAt(dir.children[j], p[1..], f)));
    var c := dir.children[j];
    if |p| == 1 {
      assert path + p == path + [c.name];
    } else {
      ReadsEveryTokenFile(c, path + [c.name], p[1..], f);
      assert path + [c.name] + p[1..] == path + p;
    }
    InChildTargets(dir, 0, path, ReadFile(path + p, f));
  }

  /** A subdirectory that cannot be opened logs one line, nothing below it, and the
      entries after it are still visited. */
  lemma UnopenableSubdirectory(dir: Entry, i: nat, path: Path)
    requires dir.opens && i < |dir.children|
    requires dir.children[i].kind == Directory && !dir.children[i].opens
    requires dir.children[i].name != CurrentDir && dir.children[i].name != ParentDir
    ensures Run(ChildTargets(dir, i, path)) ==
              [CannotOpenDirectory(path + [dir.children[i].name])] + Run(ChildTargets(dir, i + 1, path))
  {
    var c := dir.children[i];
    RunAppend(Visit(c, path), ChildTargets(dir, i + 1, path));
    assert Visit(c, path) == [ScanFailed(path + [c.name])];
    assert [ScanFailed(path + [c.name])][1..] == [];
  }

  // ---------------------------------------------------------------------------
  // The walk itself

  /** opendir, then the readdir loop, descending by recursion. */
  method TraverseDirectory(dir: Entry, path: Path) returns (events: seq<Event>)
    requires NulFree(dir)
    ensures events == Run(Targets(dir, path))
    decreases dir, 1
  {
    if !dir.opens {
      return [CannotOpenDirectory(path)];
    }
    events := [];
    var i := 0;
    while i < |dir.children|
      invariant i <= |dir.children|
      invariant events + Run(ChildTargets(dir, i, path)) == Run(ChildTargets(dir, 0, path))
    {
      var entry := dir.children[i];
      assert NulFree(entry);
      var found := VisitEntry(entry, path);
      NextEntry(dir, i, path, events, found);
      events := events + found;
      i := i + 1;
    }
    assert Run(ChildTargets(dir, i, path)) == [];
    assert events + [] == events;
  }

  /** The log of the entries from i on is the log of entry i, then the rest. */
  lemma NextEntry(dir: Entry, i: nat, path: Path, events: seq<Event>, found: seq<Event>)
    requires i < |dir.children| && found == Run(Visit(dir.children[i], path))
    ensures events + Run(ChildTargets(dir, i, path)) == (events + found) + Run(ChildTargets(dir, i + 1, path))
  {
    RunAppend(Visit(dir.children[i], path), ChildTargets(dir, i + 1, path));
  }

  /** The body of the readdir loop for one entry. */
  method VisitEntry(entry: Entry, path: Path) returns (events: seq<Event>)
    requires NulFree(entry)
    ensures events == Run(Visit(entry, path))
    decreases entry, 2
  {
    events := [];
    if entry.name == CurrentDir || entry.name == ParentDir {
      return;
    }
    var sub := path + [entry.name];
    if entry.kind == StatFailed {
      return;
    }
    if entry.kind == Directory {
      events := TraverseDirectory(entry, sub);
    } else if entry.kind == Regular && entry.name == TokenName {
      events := ReadAndProcessToken(File(entry.opens, entry.content), sub);
    }
  }
}
