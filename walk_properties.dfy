/**
 * What the sequential walk of the `files` tool sends, stated against the
 * tree it walks, and what `run` then prints.
 */
module WalkProperties {
  import opened Wrappers
  import opened Files

  // ---------------------------------------------------------------------------
  // A reference description of the tree, independent of the walk
  // ---------------------------------------------------------------------------

  /** The first child named `name`, if any. */
  function FindChild(cs: seq<Node>, name: string): (r: Option<Node>)
    ensures r.Some? ==> r.value in cs && r.value.name == name
    ensures r.None? ==> forall c :: c in cs ==> c.name != name
  {
    if cs == [] then None
    else if cs[0].name == name then Some(cs[0])
    else FindChild(cs[1..], name)
  }

  /** The node reached from `n` by following the names in `q`. */
  function Lookup(n: Node, q: Path): Option<Node>
    decreases q
  {
    if q == [] then Some(n)
    else
      match FindChild(n.children, q[0])
      case None => None
      case Some(c) => Lookup(c, q[1..])
  }

  /** No directory on the way from `path` to `path + q`, `path` itself
      included and `path + q` excluded, matches the ignore pattern. */
  ghost predicate Unpruned(path: Path, q: Path, ignore: Option<Pattern>)
    requires |path| > 0 || ignore.None?
  {
    forall k :: 0 <= k < |q| ==> !IsMatch(path + q[..k], ignore)
  }

  /** The walk at `path` over `n` ought to send `e`: `e` names a node strictly
      below `path`, with the right kind, that no ignored directory hides. */
  ghost predicate Reachable(path: Path, n: Node, ignore: Option<Pattern>, e: DirEntry)
    requires |path| > 0 || ignore.None?
  {
    && |e.parent| >= |path| && e.parent[..|path|] == path
    && var q := e.FullPath()[|path|..];
       && Lookup(n, q).Some?
       && Lookup(n, q).value.isDir == e.isDir
       && Unpruned(path, q, ignore)
  }

  /** No two entries share a path. */
  ghost predicate DistinctPaths(es: seq<DirEntry>)
  {
    forall i, j :: 0 <= i < j < |es| ==> es[i].FullPath() != es[j].FullPath()
  }

  /** The number of nodes of a tree, its root included. */
  function Size(n: Node): nat
    decreases n, 1
  {
    1 + SizeAll(n.children)
  }

  function SizeAll(cs: seq<Node>): nat
    decreases cs, 0
  {
    if cs == [] then 0 else SizeAll(cs[..|cs| - 1]) + Size(cs[|cs| - 1])
  }

  // ---------------------------------------------------------------------------
  // Pattern selection and matching
  // ---------------------------------------------------------------------------

  /** `is_match` looks only at the final component of the path. */
  lemma IsMatchOnFileName(p: Path, q: Path, pattern: Option<Pattern>)
    requires |p| > 0 && |q| > 0 && p[|p| - 1] == q[|q| - 1]
    ensures IsMatch(p, pattern) == IsMatch(q, pattern)
  {
  }

  // ---------------------------------------------------------------------------
  // Shape of the output
  // ---------------------------------------------------------------------------

  /** A path that matches the ignore pattern, and a path that is not a
      directory, send nothing; this includes the root of the walk. */
  lemma WalkSendsNothing(path: Path, n: Node, ignore: Option<Pattern>)
    requires |path| > 0 || ignore.None?
    requires IsMatch(path, ignore) || !n.isDir
    ensures Walk(path, n, ignore) == []
  {
  }

  /** The loop over a directory's children sends, child by child in read
      order, the walk below the child followed by the child itself. */
  lemma {:induction false} WalkChildrenAppend(dir: Path, a: seq<Node>, b: seq<Node>, ignore: Option<Pattern>)
    requires |dir| > 0 || ignore.None?
    ensures WalkChildren(dir, a + b, ignore) == WalkChildren(dir, a, ignore) + WalkChildren(dir, b, ignore)
    decreases |b|
  {
    if b == [] {
      assert a + b == a;
    } else {
      var c := b[|b| - 1];
      assert (a + b)[..|a + b| - 1] == a + b[..|b| - 1];
      WalkChildrenAppend(dir, a, b[..|b| - 1], ignore);
    }
  }

  lemma WalkChildrenSingle(dir: Path, c: Node, ignore: Option<Pattern>)
    requires |dir| > 0 || ignore.None?
    ensures WalkChildren(dir, [c], ignore)
         == Walk(dir + [c.name], c, ignore) + [DirEntry(dir, c.name, c.isDir)]
  {
    var cs := [c];
    assert cs[..|cs| - 1] == [];
    assert WalkChildren(dir, cs, ignore)
        == WalkChildren(dir, [], ignore) + Walk(dir + [c.name], c, ignore) + [DirEntry(dir, c.name, c.isDir)];
  }

  /** Everything the loop over `cs` sends is one of the children or sent by
      the walk below one of them. */
  lemma {:induction false} WalkChildrenMember(dir: Path, cs: seq<Node>, ignore: Option<Pattern>, e: DirEntry)
    requires |dir| > 0 || ignore.None?
    requires e in WalkChildren(dir, cs, ignore)
    ensures exists i :: (0 <= i < |cs| &&
      (e == DirEntry(dir, cs[i].name, cs[i].isDir) || e in Walk(dir + [cs[i].name], cs[i], ignore)))
    decreases |cs|
  {
    var c := cs[|cs| - 1];
    if e in WalkChildren(dir, cs[..|cs| - 1], ignore) {
      WalkChildrenMember(dir, cs[..|cs| - 1], ignore, e);
      var i :| 0 <= i < |cs| - 1 &&
        (e == DirEntry(dir, cs[..|cs| - 1][i].name, cs[..|cs| - 1][i].isDir)
         || e in Walk(dir + [cs[..|cs| - 1][i].name], cs[..|cs| - 1][i], ignore));
      assert cs[..|cs| - 1][i] == cs[i];
    } else {
      assert e == DirEntry(dir, cs[|cs| - 1].name, cs[|cs| - 1].isDir)
          || e in Walk(dir + [cs[|cs| - 1].name], cs[|cs| - 1], ignore);
    }
  }

  /** Each child, and everything the walk below it sends, is sent by the loop. */
  lemma {:induction false} WalkChildrenContains(dir: Path, cs: seq<Node>, ignore: Option<Pattern>, i: nat)
    requires |dir| > 0 || ignore.None?
    requires i < |cs|
    ensures DirEntry(dir, cs[i].name, cs[i].isDir) in WalkChildren(dir, cs, ignore)
    ensures forall e :: e in Walk(dir + [cs[i].name], cs[i], ignore) ==> e in WalkChildren(dir, cs, ignore)
    decreases |cs|
  {
    if i < |cs| - 1 {
      WalkChildrenContains(dir, cs[..|cs| - 1], ignore, i);
      assert cs[..|cs| - 1][i] == cs[i];
    }
  }

  /** The root of the walk is never sent: every entry lies strictly below it. */
  lemma {:induction false} WalkBelowRoot(path: Path, n: Node, ignore: Option<Pattern>, e: DirEntry)
    requires |path| > 0 || ignore.None?
    requires e in Walk(path, n, ignore)
    ensures |e.parent| >= |path| && e.parent[..|path|] == path
    ensures e.FullPath() != path
    decreases n
  {
    WalkChildrenMember(path, n.children, ignore, e);
    var i :| 0 <= i < |n.children| &&
      (e == DirEntry(path, n.children[i].name, n.children[i].isDir)
       || e in Walk(path + [n.children[i].name], n.children[i], ignore));
    var c := n.children[i];
    if e != DirEntry(path, c.name, c.isDir) {
      WalkBelowRoot(path + [c.name], c, ignore, e);
      assert e.parent[..|path|] == e.parent[..|path| + 1][..|path|];
    }
  }

  // ---------------------------------------------------------------------------
  // Exactly the reachable entries, each once
  // ---------------------------------------------------------------------------

  lemma FindChildUnique(cs: seq<Node>, i: nat)
    requires DistinctNames(cs) && i < |cs|
    ensures FindChild(cs, cs[i].name) == Some(cs[i])
  {
    if i > 0 {
      assert cs[0].name != cs[i].name;
      assert forall a, b :: 0 <= a < b < |cs[1..]| ==> cs[1..][a].name != cs[1..][b].name by {
        forall a, b | 0 <= a < b < |cs[1..]| ensures cs[1..][a].name != cs[1..][b].name {
          assert cs[1..][a] == cs[a + 1] && cs[1..][b] == cs[b + 1];
        }
      }
      FindChildUnique(cs[1..], i - 1);
    }
  }

  lemma UnprunedCons(path: Path, x: string, q: Path, ignore: Option<Pattern>)
    requires |path| > 0 || ignore.None?
    ensures Unpruned(path, [x] + q, ignore) <==> !IsMatch(path, ignore) && Unpruned(path + [x], q, ignore)
  {
    var xq := [x] + q;
    assert path + xq[..0] == path;
    forall k | 0 <= k < |q|
      ensures path + xq[..k + 1] == (path + [x]) + q[..k]
    {
      assert xq[..k + 1] == [x] + q[..k];
    }
    if !IsMatch(path, ignore) && Unpruned(path + [x], q, ignore) {
      forall k | 0 <= k < |xq|
        ensures !IsMatch(path + xq[..k], ignore)
      {
        if k > 0 {
          assert path + xq[..k] == (path + [x]) + q[..k - 1];
        }
      }
    }
  }

  /** Everything the walk sends is reachable. */
  lemma {:induction false} WalkSound(path: Path, n: Node, ignore: Option<Pattern>, e: DirEntry)
    requires |path| > 0 || ignore.None?
    requires WellFormed(n)
    requires e in Walk(path, n, ignore)
    ensures Reachable(path, n, ignore, e)
    decreases n
  {
    WalkBelowRoot(path, n, ignore, e);
    WalkChildrenMember(path, n.children, ignore, e);
    var i :| 0 <= i < |n.children| &&
      (e == DirEntry(path, n.children[i].name, n.children[i].isDir)
       || e in Walk(path + [n.children[i].name], n.children[i], ignore));
    var c := n.children[i];
    FindChildUnique(n.children, i);
    var q := e.FullPath()[|path|..];
    if e == DirEntry(path, c.name, c.isDir) {
      assert q == [c.name] + [];
      assert Lookup(n, q) == Lookup(c, []);
      UnprunedCons(path, c.name, [], ignore);
    } else {
      WalkSound(path + [c.name], c, ignore, e);
      var q' := e.FullPath()[|path| + 1..];
      assert e.FullPath()[..|path| + 1] == path + [c.name] by {
        assert e.FullPath()[..|path| + 1] == e.parent[..|path| + 1];
      }
      assert q == [c.name] + q';
      assert Lookup(n, q) == Lookup(c, q');
      UnprunedCons(path, c.name, q', ignore);
    }
  }

  /** Every node that lies strictly below the root and that no ignored
      directory hides is sent. */
  lemma {:induction false} WalkCompleteAt(path: Path, n: Node, ignore: Option<Pattern>, q: Path)
    requires |path| > 0 || ignore.None?
    requires WellFormed(n)
    requires |q| > 0 && Lookup(n, q).Some? && Unpruned(path, q, ignore)
    ensures DirEntry(path + q[..|q| - 1], q[|q| - 1], Lookup(n, q).value.isDir) in Walk(path, n, ignore)
    decreases q
  {
    var c := FindChild(n.children, q[0]).value;
    var i :| 0 <= i < |n.children| && n.children[i] == c;
    var q' := q[1..];
    assert q == [q[0]] + q';
    UnprunedCons(path, q[0], q', ignore);
    WalkChildrenContains(path, n.children, ignore, i);
    assert Walk(path, n, ignore) == WalkChildren(path, n.children, ignore);
    assert Lookup(n, q) == Lookup(c, q');
    if q' != [] {
      WalkCompleteAt(path + [q[0]], c, ignore, q');
      assert q'[|q'| - 1] == q[|q| - 1];
      assert (path + [q[0]]) + q'[..|q'| - 1] == path + q[..|q| - 1] by {
        assert q[..|q| - 1] == [q[0]] + q'[..|q'| - 1];
      }
    } else {
      assert path + q[..|q| - 1] == path;
      assert Lookup(c, q') == Some(c);
      assert DirEntry(path, n.children[i].name, n.children[i].isDir) in WalkChildren(path, n.children, ignore);
    }
  }

  /** The walk sends exactly the reachable entries. */
  lemma WalkExactly(path: Path, n: Node, ignore: Option<Pattern>, e: DirEntry)
    requires |path| > 0 || ignore.None?
    requires WellFormed(n)
    ensures e in Walk(path, n, ignore) <==> Reachable(path, n, ignore, e)
  {
    if e in Walk(path, n, ignore) {
      WalkSound(path, n, ignore, e);
    }
    if Reachable(path, n, ignore, e) {
      var q := e.FullPath()[|path|..];
      assert q[..|q| - 1] == e.parent[|path|..];
      assert path + q[..|q| - 1] == e.parent;
      WalkCompleteAt(path, n, ignore, q);
    }
  }

  lemma DistinctPathsAppend(a: seq<DirEntry>, b: seq<DirEntry>)
    requires DistinctPaths(a) && DistinctPaths(b)
    requires forall x, y :: x in a && y in b ==> x.FullPath() != y.FullPath()
    ensures DistinctPaths(a + b)
  {
    forall i, j | 0 <= i < j < |a + b|
      ensures (a + b)[i].FullPath() != (a + b)[j].FullPath()
    {
      if j < |a| {
        assert (a + b)[i] == a[i] && (a + b)[j] == a[j];
      } else if i >= |a| {
        assert (a + b)[i] == b[i - |a|] && (a + b)[j] == b[j - |a|];
      } else {
        assert (a + b)[i] in a && (a + b)[j] in b;
      }
    }
  }

  /** In a well-formed tree no path is sent twice. */
  lemma {:induction false} WalkDistinct(path: Path, n: Node, ignore: Option<Pattern>)
    requires |path| > 0 || ignore.None?
    requires WellFormed(n)
    ensures DistinctPaths(Walk(path, n, ignore))
    decreases n, 1
  {
    if !IsMatch(path, ignore) && n.isDir {
      WalkChildrenDistinct(path, n.children, ignore);
    }
  }

  lemma {:induction false} WalkChildrenDistinct(dir: Path, cs: seq<Node>, ignore: Option<Pattern>)
    requires |dir| > 0 || ignore.None?
    requires DistinctNames(cs) && forall c :: c in cs ==> WellFormed(c)
    ensures DistinctPaths(WalkChildren(dir, cs, ignore))
    decreases cs, 0
  {
    if cs != [] {
      var pre, c := cs[..|cs| - 1], cs[|cs| - 1];
      var a := WalkChildren(dir, pre, ignore);
      var b := Walk(dir + [c.name], c, ignore);
      var own := DirEntry(dir, c.name, c.isDir);
      WalkChildrenDistinct(dir, pre, ignore);
      WalkDistinct(dir + [c.name], c, ignore);
      forall x | x in a
        ensures |x.FullPath()| > |dir| && x.FullPath()[|dir|] != c.name
      {
        WalkChildrenMember(dir, pre, ignore, x);
        var i :| 0 <= i < |pre| &&
          (x == DirEntry(dir, pre[i].name, pre[i].isDir) || x in Walk(dir + [pre[i].name], pre[i], ignore));
        assert pre[i] == cs[i];
        if x != DirEntry(dir, pre[i].name, pre[i].isDir) {
          WalkBelowRoot(dir + [pre[i].name], pre[i], ignore, x);
          assert x.FullPath()[|dir|] == x.parent[..|dir| + 1][|dir|];
        }
      }
      forall y | y in b
        ensures |y.FullPath()| > |dir| + 1 && y.FullPath()[|dir|] == c.name
      {
        WalkBelowRoot(dir + [c.name], c, ignore, y);
        assert y.FullPath()[|dir|] == y.parent[..|dir| + 1][|dir|];
      }
      DistinctPathsAppend(a, b);
      DistinctPathsAppend(a + b, [own]);
    }
  }

  /** `p` is `q` or an ancestor of it. */
  ghost predicate IsPrefix(p: Path, q: Path)
  {
    |p| <= |q| && q[..|p|] == p
  }

  /** Descendants are sent before their ancestors: post-order. */
  ghost predicate PostOrder(es: seq<DirEntry>)
  {
    forall i, j :: 0 <= i < |es| && 0 <= j < |es| && IsPrefix(es[j].FullPath(), es[i].parent) ==> i < j
  }

  /** Where the entries the loop over `cs` sends lie: below `dir`, under one
      of the children's names. */
  lemma WalkChildrenBelow(dir: Path, cs: seq<Node>, ignore: Option<Pattern>, x: DirEntry)
    requires |dir| > 0 || ignore.None?
    requires x in WalkChildren(dir, cs, ignore)
    ensures |x.parent| >= |dir| && x.parent[..|dir|] == dir
    ensures exists k :: 0 <= k < |cs| && x.FullPath()[|dir|] == cs[k].name
  {
    WalkChildrenMember(dir, cs, ignore, x);
    var i :| 0 <= i < |cs| &&
      (x == DirEntry(dir, cs[i].name, cs[i].isDir) || x in Walk(dir + [cs[i].name], cs[i], ignore));
    if x != DirEntry(dir, cs[i].name, cs[i].isDir) {
      WalkBelowRoot(dir + [cs[i].name], cs[i], ignore, x);
      assert x.parent[..|dir|] == x.parent[..|dir| + 1][..|dir|];
      assert x.FullPath()[|dir|] == x.parent[..|dir| + 1][|dir|];
    }
  }

  lemma PostOrderAppend(a: seq<DirEntry>, b: seq<DirEntry>)
    requires PostOrder(a) && PostOrder(b)
    requires forall x, y :: x in a && y in b ==> !IsPrefix(x.FullPath(), y.parent)
    ensures PostOrder(a + b)
  {
    forall i, j | 0 <= i < |a + b| && 0 <= j < |a + b| && IsPrefix((a + b)[j].FullPath(), (a + b)[i].parent)
      ensures i < j
    {
      if i < |a| && j < |a| {
        assert (a + b)[i] == a[i] && (a + b)[j] == a[j];
      } else if i >= |a| && j >= |a| {
        assert (a + b)[i] == b[i - |a|] && (a + b)[j] == b[j - |a|];
      }
    }
  }

  /** The sequential walk sends every entry after everything below it. */
  lemma {:induction false} WalkPostOrder(path: Path, n: Node, ignore: Option<Pattern>)
    requires |path| > 0 || ignore.None?
    requires WellFormed(n)
    ensures PostOrder(Walk(path, n, ignore))
    decreases n, 1
  {
    if !IsMatch(path, ignore) && n.isDir {
      WalkChildrenPostOrder(path, n.children, ignore);
    }
  }

  lemma {:induction false} WalkChildrenPostOrder(dir: Path, cs: seq<Node>, ignore: Option<Pattern>)
    requires |dir| > 0 || ignore.None?
    requires DistinctNames(cs) && forall c :: c in cs ==> WellFormed(c)
    ensures PostOrder(WalkChildren(dir, cs, ignore))
    decreases cs, 0
  {
    if cs != [] {
      var pre, c := cs[..|cs| - 1], cs[|cs| - 1];
      var a := WalkChildren(dir, pre, ignore);
      var b := Walk(dir + [c.name], c, ignore);
      var own := DirEntry(dir, c.name, c.isDir);
      WalkChildrenPostOrder(dir, pre, ignore);
      WalkPostOrder(dir + [c.name], c, ignore);
      forall x, y | x in a && y in b
        ensures !IsPrefix(x.FullPath(), y.parent)
      {
        WalkChildrenBelow(dir, pre, ignore, x);
        var k :| 0 <= k < |pre| && x.FullPath()[|dir|] == pre[k].name;
        assert pre[k] == cs[k];
        WalkBelowRoot(dir + [c.name], c, ignore, y);
        assert y.parent[|dir|] == y.parent[..|dir| + 1][|dir|];
      }
      PostOrderAppend(a, b);
      forall x | x in a + b
        ensures |x.FullPath()| > |dir|
      {
        if x in a {
          WalkChildrenBelow(dir, pre, ignore, x);
        } else {
          WalkBelowRoot(dir + [c.name], c, ignore, x);
        }
      }
      PostOrderAppend(a + b, [own]);
    }
  }

  /** Without an ignore pattern every node but the root is sent. */
  lemma {:induction false} WalkCountUnpruned(path: Path, n: Node)
    requires WellFormed(n)
    ensures |Walk(path, n, None)| == Size(n) - 1
    decreases n, 1
  {
    if n.isDir {
      WalkChildrenCountUnpruned(path, n.children);
    }
  }

  lemma {:induction false} WalkChildrenCountUnpruned(dir: Path, cs: seq<Node>)
    requires forall c :: c in cs ==> WellFormed(c)
    ensures |WalkChildren(dir, cs, None)| == SizeAll(cs)
    decreases cs, 0
  {
    if cs != [] {
      var c := cs[|cs| - 1];
      WalkChildrenCountUnpruned(dir, cs[..|cs| - 1]);
      WalkCountUnpruned(dir + [c.name], c);
    }
  }

  /** A child whose name matches the ignore pattern is still sent by its
      parent's loop, but nothing below it is. */
  lemma PrunedChildSentAlone(path: Path, n: Node, ignore: Option<Pattern>, i: nat)
    requires |path| > 0 || ignore.None?
    requires WellFormed(n) && n.isDir && !IsMatch(path, ignore)
    requires i < |n.children| && IsMatch(path + [n.children[i].name], ignore)
    ensures DirEntry(path, n.children[i].name, n.children[i].isDir) in Walk(path, n, ignore)
    ensures forall e :: e in Walk(path, n, ignore) ==>
      !(|e.parent| > |path| && e.parent[..|path| + 1] == path + [n.children[i].name])
  {
    var c := n.children[i];
    WalkChildrenContains(path, n.children, ignore, i);
    forall e | e in Walk(path, n, ignore)
      ensures !(|e.parent| > |path| && e.parent[..|path| + 1] == path + [c.name])
    {
      WalkSound(path, n, ignore, e);
      if |e.parent| > |path| {
        var q := e.FullPath()[|path|..];
        assert 1 < |q|;
        assert e.parent[..|path| + 1] == path + q[..1];
        assert !IsMatch(path + q[..1], ignore);
      }
    }
  }

  // ---------------------------------------------------------------------------
  // The select filter of `run`
  // ---------------------------------------------------------------------------

  /** `run` prints a received entry exactly when the select pattern lets it
      through; with no select pattern it prints everything. */
  lemma {:induction false} SelectedMember(es: seq<DirEntry>, matchre: Option<Pattern>, e: DirEntry)
    ensures e in Selected(es, matchre) <==> e in es && Selects(matchre, e)
    decreases |es|
  {
    if es != [] {
      var pre := es[..|es| - 1];
      SelectedMember(pre, matchre, e);
      assert es == pre + [es[|es| - 1]];
    }
  }

  lemma {:induction false} SelectedAll(es: seq<DirEntry>)
    ensures Selected(es, None) == es
    decreases |es|
  {
    if es != [] {
      SelectedAll(es[..|es| - 1]);
      assert es == es[..|es| - 1] + [es[|es| - 1]];
    }
  }

  /** Filtering keeps the received order: it distributes over concatenation. */
  lemma {:induction false} SelectedAppend(a: seq<DirEntry>, b: seq<DirEntry>, matchre: Option<Pattern>)
    ensures Selected(a + b, matchre) == Selected(a, matchre) + Selected(b, matchre)
    decreases |b|
  {
    if b == [] {
      assert a + b == a;
    } else {
      assert (a + b)[..|a + b| - 1] == a + b[..|b| - 1];
      SelectedAppend(a, b[..|b| - 1], matchre);
    }
  }

  // ---------------------------------------------------------------------------
  // The whole tool
  // ---------------------------------------------------------------------------

  /** `run` prints exactly the reachable entries that the select pattern lets
      through: filtering the walk's output keeps the same entries as filtering
      the reachable ones. */
  lemma RunPrintsExactly(path: Path, n: Node, ignore: Option<Pattern>, matchre: Option<Pattern>, e: DirEntry)
    requires |path| > 0 || ignore.None?
    requires WellFormed(n)
    ensures e in Selected(Walk(path, n, ignore), matchre) <==> Reachable(path, n, ignore, e) && Selects(matchre, e)
  {
    SelectedMember(Walk(path, n, ignore), matchre, e);
    WalkExactly(path, n, ignore, e);
  }

  /** What the default ignore pattern, anchored at both ends, accepts. */
  predicate DefaultIgnoreMatches(name: string)
  {
    name in [".git", ".hg", ".svn", "_darcs", ".bzr"]
  }

  /** A directory `proj` holding `a.txt`, `.git/config` and `b/c.txt`, walked
      with the default ignore pattern: `.git` is sent but its `config` is not,
      and `b` comes after `b/c.txt`. */
  lemma DefaultPruningExample()
    ensures
      var proj := Node("proj", true, [
        Node("a.txt", false, []),
        Node(".git", true, [Node("config", false, [])]),
        Node("b", true, [Node("c.txt", false, [])])]);
      Walk(["proj"], proj, Some(DefaultIgnoreMatches))
        == [DirEntry(["proj"], "a.txt", false),
            DirEntry(["proj"], ".git", true),
            DirEntry(["proj", "b"], "c.txt", false),
            DirEntry(["proj"], "b", true)]
  {
    var ig := Some(DefaultIgnoreMatches);
    var a := Node("a.txt", false, []);
    var git := Node(".git", true, [Node("config", false, [])]);
    var c := Node("c.txt", false, []);
    var b := Node("b", true, [c]);
    assert Walk(["proj", "a.txt"], a, ig) == [];
    assert Walk(["proj", ".git"], git, ig) == [];
    assert Walk(["proj", "b", "c.txt"], c, ig) == [];
    WalkChildrenSingle(["proj", "b"], c, ig);
    assert ["proj", "b"] + [c.name] == ["proj", "b", "c.txt"];
    assert Walk(["proj", "b"], b, ig) == [DirEntry(["proj", "b"], "c.txt", false)];
    WalkChildrenSingle(["proj"], a, ig);
    WalkChildrenSingle(["proj"], git, ig);
    WalkChildrenSingle(["proj"], b, ig);
    WalkChildrenAppend(["proj"], [a], [git], ig);
    WalkChildrenAppend(["proj"], [a, git], [b], ig);
    assert [a] + [git] == [a, git] && [a, git] + [b] == [a, git, b];
    assert ["proj"] + [a.name] == ["proj", "a.txt"] && ["proj"] + [git.name] == ["proj", ".git"];
    assert ["proj"] + [b.name] == ["proj", "b"];
    var proj := Node("proj", true, [a, git, b]);
    assert !IsMatch(["proj"], ig);
    assert Walk(["proj"], proj, ig) == WalkChildren(["proj"], [a, git, b], ig);
  }
}
