/**
 * The `files` tool: a recursive directory walker that prunes subtrees whose
 * base name matches an ignore pattern, streams every other entry through a
 * channel, and prints the entries whose base name matches a select pattern.
 *
 * The file system is a finite tree of nodes, a compiled regular expression is
 * a predicate on names, and the `mpsc` channel is an object whose list of sent
 * entries only grows. Only the sequential walk is modelled.
 */
module Files {
  import opened Wrappers

  /** A path, as its list of components (the last one is the file name). */
  type Path = seq<string>

  /** One file-system object: its base name, whether it is a directory, and
      its children in the order `read_dir` yields them. */
  datatype Node = Node(name: string, isDir: bool, children: seq<Node>)

  /** A directory entry as `read_dir` yields it: the directory it was read
      from, its file name, and whether it is a directory. */
  datatype DirEntry = DirEntry(parent: Path, name: string, isDir: bool) {
    function FullPath(): (p: Path)
      ensures |p| == |parent| + 1 && p[|parent|] == name
    {
      parent + [name]
    }
  }

  /** A compiled regular expression, seen only through its `is_match`. */
  type Pattern = string -> bool

  /** The walker's configuration (`struct Cli`). */
  datatype Cli = Cli(matchre: Option<Pattern>, ignore: Option<Pattern>, isAsync: bool)

  /** A real directory tree: files have no children and no two children of a
      directory share a name. */
  ghost predicate WellFormed(n: Node)
    decreases n
  {
    && (!n.isDir ==> n.children == [])
    && DistinctNames(n.children)
    && forall c :: c in n.children ==> WellFormed(c)
  }

  ghost predicate DistinctNames(cs: seq<Node>)
  {
    forall i, j :: 0 <= i < j < |cs| ==> cs[i].name != cs[j].name
  }

  // ---------------------------------------------------------------------------
  // Pattern sources and matching
  // ---------------------------------------------------------------------------

  /** The ignore pattern used when neither the command line nor the
      environment supplies one. */
  const DefaultIgnorePattern: string := @"^(\.git|\.hg|\.svn|_darcs|\.bzr)$"

  /** The text of the ignore pattern: the `--ignore` value if given, else the
      `FILES_IGNORE_PATTERN` value if set, else the default; an empty text
      means no pruning at all. */
  function IgnoreSource(ignoreArg: Option<string>, ignoreEnv: Option<string>): (r: Option<string>)
    ensures r.Some? ==> r.value != ""
    ensures ignoreArg.Some? ==>
      (r.Some? <==> ignoreArg.value != "") && (r.Some? ==> r.value == ignoreArg.value)
    ensures ignoreArg.None? && ignoreEnv.Some? ==>
      (r.Some? <==> ignoreEnv.value != "") && (r.Some? ==> r.value == ignoreEnv.value)
    ensures ignoreArg.None? && ignoreEnv.None? ==> r == Some(DefaultIgnorePattern)
  {
    var chosen :=
      match ignoreArg
      case Some(s) => s
      case None => (match ignoreEnv case Some(s) => s case None => DefaultIgnorePattern);
    if chosen != "" then Some(chosen) else None
  }

  /** `Cli::new` once the arguments and the environment have been read:
      the ignore text is compiled first, then the `--matches` text, and the
      first compile error is returned. */
  function New<E>(ignoreArg: Option<string>, ignoreEnv: Option<string>, matchesArg: Option<string>,
                  isAsync: bool, compile: string -> Result<Pattern, E>): (r: Result<Cli, E>)
    ensures
      var src := IgnoreSource(ignoreArg, ignoreEnv);
      && (src.Some? && compile(src.value).Err? ==> r == Err(compile(src.value).error))
      && ((src.None? || compile(src.value).Ok?) && matchesArg.Some? && compile(matchesArg.value).Err?
          ==> r == Err(compile(matchesArg.value).error))
      && (r.Err? <==> (src.Some? && compile(src.value).Err?)
                      || (matchesArg.Some? && compile(matchesArg.value).Err?))
      && (r.Ok? ==>
          && r.value.isAsync == isAsync
          && (r.value.ignore.None? <==> src.None?)
          && (src.Some? ==> compile(src.value) == Ok(r.value.ignore.value))
          && (r.value.matchre.None? <==> matchesArg.None?)
          && (matchesArg.Some? ==> compile(matchesArg.value) == Ok(r.value.matchre.value)))
  {
    var ignore: Result<Option<Pattern>, E> :=
      match IgnoreSource(ignoreArg, ignoreEnv)
      case Some(s) => (match compile(s) case Ok(p) => Ok(Some(p)) case Err(e) => Err(e))
      case None => Ok(None);
    match ignore
    case Err(e) => Err(e)
    case Ok(ig) =>
      match matchesArg
      case Some(s) => (match compile(s) case Ok(m) => Ok(Cli(Some(m), ig, isAsync)) case Err(e) => Err(e))
      case None => Ok(Cli(None, ig, isAsync))
  }

  /** `is_match`: does the pattern match the last component of the path?
      Taking the file name of a path that has none panics. */
  function IsMatch(path: Path, pattern: Option<Pattern>): (r: bool)
    requires pattern.Some? ==> |path| > 0
    ensures pattern.None? ==> !r
  {
    match pattern
    case Some(p) => p(path[|path| - 1])
    case None => false
  }

  // ---------------------------------------------------------------------------
  // The walk, as a function of the tree
  // ---------------------------------------------------------------------------

  /** What the sequential walk at `path` (the location of `n`) sends. */
  function Walk(path: Path, n: Node, ignore: Option<Pattern>): seq<DirEntry>
    requires |path| > 0 || ignore.None?
    decreases n, 1
  {
    if IsMatch(path, ignore) then []
    else if !n.isDir then []
    else WalkChildren(path, n.children, ignore)
  }

  /** What the loop over the children `cs` of the directory at `dir` sends:
      for each child in order, the walk below it and then the child itself. */
  function WalkChildren(dir: Path, cs: seq<Node>, ignore: Option<Pattern>): seq<DirEntry>
    decreases cs, 0
  {
    if cs == [] then []
    else
      var c := cs[|cs| - 1];
      WalkChildren(dir, cs[..|cs| - 1], ignore) + Walk(dir + [c.name], c, ignore)
        + [DirEntry(dir, c.name, c.isDir)]
  }

  /** Does the select pattern let the entry through? */
  predicate Selects(matchre: Option<Pattern>, e: DirEntry)
  {
    match matchre
    case Some(m) => m(e.name)
    case None => true
  }

  /** The received entries that `run` prints, in order. */
  function Selected(es: seq<DirEntry>, matchre: Option<Pattern>): seq<DirEntry>
  {
    if es == [] then []
    else
      var e := es[|es| - 1];
      Selected(es[..|es| - 1], matchre) + (if Selects(matchre, e) then [e] else [])
  }

  // ---------------------------------------------------------------------------
  // The walk, as the program runs it
  // ---------------------------------------------------------------------------

  /** The sending half of the channel: everything sent so far, in order. */
  class Channel {
    var sent: seq<DirEntry>

    constructor ()
      ensures sent == []
    {
      sent := [];
    }

    method Send(e: DirEntry)
      modifies this
      ensures sent == old(sent) + [e]
    {
      sent := sent + [e];
    }
  }

  /** `files_inner`, sequential branch. */
  method FilesInner(path: Path, n: Node, tx: Channel, ignore: Option<Pattern>)
    requires |path| > 0 || ignore.None?
    modifies tx
    ensures tx.sent == old(tx.sent) + Walk(path, n, ignore)
    decreases n
  {
    if IsMatch(path, ignore) {
      return;
    }
    if n.isDir {
      for i := 0 to |n.children|
        invariant tx.sent == old(tx.sent) + WalkChildren(path, n.children[..i], ignore)
      {
        var child := n.children[i];
        assert n.children[..i + 1] == n.children[..i] + [child];
        FilesInner(path + [child.name], child, tx, ignore);
        tx.Send(DirEntry(path, child.name, child.isDir));
      }
      assert n.children[..|n.children|] == n.children;
    }
  }

  /** `files`: start the walk at `root` and hand back everything it sends. */
  method Files(root: Path, tree: Node, ignore: Option<Pattern>) returns (rx: seq<DirEntry>)
    requires |root| > 0 || ignore.None?
    ensures rx == Walk(root, tree, ignore)
  {
    var tx := new Channel();
    FilesInner(root, tree, tx, ignore);
    rx := tx.sent;
  }

  /** `run`: walk from `root` and print the received entries that the select
      pattern lets through. The walk is the sequential one whatever
      `cli.isAsync` says: the order promised here is not that of `--async`. */
  method Run(cli: Cli, root: Path, tree: Node) returns (printed: seq<DirEntry>)
    requires |root| > 0 || cli.ignore.None?
    ensures printed == Selected(Walk(root, tree, cli.ignore), cli.matchre)
  {
    var rx := Files(root, tree, cli.ignore);
    printed := [];
    for i := 0 to |rx|
      invariant printed == Selected(rx[..i], cli.matchre)
    {
      var entry := rx[i];
      assert rx[..i + 1][..i] == rx[..i];
      if cli.matchre.Some? && !cli.matchre.value(entry.name) {
        continue;
      }
      printed := printed + [entry];
    }
    assert rx[..|rx|] == rx;
  }
}
