/** Merging the file trees of all modules into one. */
module Collect {
  import opened Common
  import opened FileTree
  import opened Overlay

  /** What a module has on disk below its `system` directory. */
  datatype Source = SourceDir(entries: map<Name, Source>) | SourceLink(target: string) | SourceWhiteout | SourceFile

  /** A module: what it has as `system`, if anything, and where that is mounted. A module that is
      not to be mounted has nothing. */
  datatype Module = Module(system: Option<Source>, mnt: string)

  /** The node for an entry, without its children. */
  function Fresh(src: Source, mnt: string): Node {
    match src
    case SourceDir(_) => Directory(map[])
    case SourceLink(target) => Symlink(target)
    case SourceWhiteout => Whiteout
    case SourceFile => Regular(mnt)
  }

  /** One module's tree added to what the earlier ones gave: existing nodes stay, and only
      directories are entered. */
  function Merge(node: Node, src: Source, mnt: string): Node
    decreases src
  {
    if node.Directory? && src.SourceDir? then
      Directory(map n | n in node.children.Keys + src.entries.Keys ::
        if n !in src.entries then node.children[n]
        else Merge(if n in node.children then node.children[n] else Fresh(src.entries[n], Join(mnt, n)),
                   src.entries[n], Join(mnt, n)))
    else node
  }

  function MergeAll(modules: seq<Module>): Node {
    if modules == [] then Directory(map[])
    else
      var last := modules[|modules| - 1];
      var before := MergeAll(modules[..|modules| - 1]);
      if last.system.Some? then Merge(before, last.system.value, last.mnt) else before
  }

  // ---------------------------------------------------------------------------------------
  // The code
  // ---------------------------------------------------------------------------------------

  /** `FsNode::collect`: insert where there is nothing, and go into directories. */
  method CollectNode(node: Node, src: Source, mnt: string) returns (out: Node)
    ensures out == Merge(node, src, mnt)
    decreases src
  {
    if !node.Directory? || !src.SourceDir? {
      return node;
    }
    var children := node.children;
    var todo := src.entries.Keys;
    while todo != {}
      invariant todo <= src.entries.Keys
      invariant children.Keys == node.children.Keys + (src.entries.Keys - todo)
      invariant forall n :: n in children && (n !in src.entries || n in todo) ==>
                  n in node.children && children[n] == node.children[n]
      invariant forall n :: n in src.entries && n !in todo ==> children[n] == Merge(node, src, mnt).children[n]
    {
      var n :| n in todo;
      todo := todo - {n};
      var entry := src.entries[n];
      if n !in children {
        children := children[n := Fresh(entry, Join(mnt, n))];
      }
      if entry.SourceDir? {
        var merged := CollectNode(children[n], entry, Join(mnt, n));
        children := children[n := merged];
      }
    }
    out := Directory(children);
  }

  /** Collects every module in turn. */
  method CollectModules(modules: seq<Module>) returns (system: Node)
    ensures system == MergeAll(modules)
  {
    system := Directory(map[]);
    for i := 0 to |modules|
      invariant system == MergeAll(modules[..i])
    {
      assert modules[..i + 1][..i] == modules[..i];
      if modules[i].system.Some? {
        system := CollectNode(system, modules[i].system.value, modules[i].mnt);
      }
    }
    assert modules[..|modules|] == modules;
  }

  // ---------------------------------------------------------------------------------------
  // The result, path by path
  // ---------------------------------------------------------------------------------------

  const DIRECTORY: Node := Directory(map[])

  /** A node without its children. */
  function Shape(node: Node): Node { if node.Directory? then DIRECTORY else node }

  /** What the merged tree has at a path. */
  function ShapeAt(node: Node, p: Path): Option<Node>
    decreases |p|
  {
    if p == [] then Some(Shape(node))
    else if node.Directory? && p[0] in node.children then ShapeAt(node.children[p[0]], p[1..])
    else None
  }

  /** What one module has at a path. */
  function SourceAt(src: Source, mnt: string, p: Path): Option<Node>
    decreases |p|
  {
    if p == [] then Some(Fresh(src, mnt))
    else if src.SourceDir? && p[0] in src.entries then SourceAt(src.entries[p[0]], Join(mnt, p[0]), p[1..])
    else None
  }

  /** What a module has below its `system` directory; a `system` that is none has nothing. */
  function ModuleAt(m: Module, p: Path): Option<Node> {
    if m.system.Some? && m.system.value.SourceDir? then SourceAt(m.system.value, m.mnt, p) else None
  }

  /** What the earliest module that has a path has there. */
  function Earliest(modules: seq<Module>, p: Path): Option<Node> {
    if modules == [] then None
    else
      var before := Earliest(modules[..|modules| - 1], p);
      var last := modules[|modules| - 1];
      if before.Some? then before else ModuleAt(last, p)
  }

  /** On the way to `p`, the earliest module always has a directory. */
  ghost predicate Open(modules: seq<Module>, p: Path) {
    forall k :: 0 <= k < |p| ==> Earliest(modules, p[..k]) == Some(DIRECTORY)
  }

  /** No proper prefix of `p` is a node other than a directory. */
  ghost predicate Unblocked(node: Node, p: Path) {
    forall k :: 0 <= k < |p| ==> ShapeAt(node, p[..k]) in {None, Some(DIRECTORY)}
  }

  lemma UnblockedTail(node: Node, p: Path)
    requires p != [] && node.Directory? && p[0] in node.children
    ensures Unblocked(node, p) <==> Unblocked(node.children[p[0]], p[1..])
  {
    forall k | 0 < k <= |p|
      ensures ShapeAt(node, p[..k]) == ShapeAt(node.children[p[0]], p[1..][..k - 1])
    {
      assert p[..k][1..] == p[1..][..k - 1];
    }
    if Unblocked(node, p) {
      forall k | 0 <= k < |p[1..]|
        ensures ShapeAt(node.children[p[0]], p[1..][..k]) in {None, Some(DIRECTORY)}
      {
        assert ShapeAt(node, p[..k + 1]) in {None, Some(DIRECTORY)};
      }
    }
  }

  /** Adding one module: nothing present changes, and a path is added exactly when the module
      has it and no present non-directory is in the way. */
  lemma {:induction false} MergeByPath(node: Node, src: Source, mnt: string, p: Path)
    ensures ShapeAt(Merge(node, src, mnt), p) ==
              if ShapeAt(node, p).Some? then ShapeAt(node, p)
              else if Unblocked(node, p) then SourceAt(src, mnt, p)
              else None
    decreases |p|
  {
    if p != [] {
      assert p[..0] == [];
      if node.Directory? {
        var n := p[0];
        if n in node.children {
          UnblockedTail(node, p);
        }
        if src.SourceDir? && n in src.entries {
          var s := src.entries[n];
          if n in node.children {
            MergeByPath(node.children[n], s, Join(mnt, n), p[1..]);
          } else {
            MergeByPath(Fresh(s, Join(mnt, n)), s, Join(mnt, n), p[1..]);
            FreshAlone(s, Join(mnt, n), p[1..]);
            assert Unblocked(node, p) by {
              forall k | 0 <= k < |p|
                ensures ShapeAt(node, p[..k]) in {None, Some(DIRECTORY)}
              {}
            }
          }
        }
      } else {
        assert ShapeAt(node, p[..0]) == Some(node);
      }
    }
  }

  /** A node just made is where the source's entry is, and blocks what the source does not have. */
  lemma FreshAlone(src: Source, mnt: string, p: Path)
    ensures ShapeAt(Fresh(src, mnt), p).Some? ==> ShapeAt(Fresh(src, mnt), p) == SourceAt(src, mnt, p)
    ensures !Unblocked(Fresh(src, mnt), p) ==> SourceAt(src, mnt, p) == None
  {
    if p != [] && src.SourceDir? {
      forall k | 0 <= k < |p|
        ensures ShapeAt(Fresh(src, mnt), p[..k]) in {None, Some(DIRECTORY)}
      {}
    }
  }

  /** A module that has a path has directories on the way to it. */
  lemma {:induction false} SourcePrefix(src: Source, mnt: string, p: Path, k: nat)
    requires SourceAt(src, mnt, p).Some? && k < |p|
    ensures SourceAt(src, mnt, p[..k]) == Some(DIRECTORY)
    decreases |p|
  {
    if k > 0 {
      SourcePrefix(src.entries[p[0]], Join(mnt, p[0]), p[1..], k - 1);
      assert p[..k][1..] == p[1..][..k - 1];
    }
  }

  lemma {:induction false} EarliestPrefix(modules: seq<Module>, p: Path, k: nat)
    requires Earliest(modules, p).Some? && k < |p|
    ensures Earliest(modules, p[..k]).Some?
  {
    var init, last := modules[..|modules| - 1], modules[|modules| - 1];
    if Earliest(init, p).Some? {
      EarliestPrefix(init, p, k);
    } else {
      SourcePrefix(last.system.value, last.mnt, p, k);
    }
  }

  /** The simple answer: what the earliest module has, if the way there is open. */
  ghost function Resolved(modules: seq<Module>, p: Path): Option<Node> {
    if Open(modules, p) then Earliest(modules, p) else None
  }

  ghost predicate AgreesUpTo(node: Node, modules: seq<Module>, p: Path) {
    forall k :: 0 < k <= |p| ==> ShapeAt(node, p[..k]) == Resolved(modules, p[..k])
  }

  lemma {:induction false} EarliestRoot(modules: seq<Module>)
    ensures Earliest(modules, []) in {None, Some(DIRECTORY)}
  {
    if modules != [] {
      EarliestRoot(modules[..|modules| - 1]);
    }
  }

  /** Where nothing blocks the way in the tree, the earliest modules have directories too. */
  lemma {:induction false} UnblockedMeansOpen(node: Node, modules: seq<Module>, p: Path, k: nat)
    requires AgreesUpTo(node, modules, p) && Unblocked(node, p)
    requires k <= |p| && Earliest(modules, p[..k]).Some?
    ensures Open(modules, p[..k])
    decreases k
  {
    forall j | 0 <= j < k
      ensures Earliest(modules, p[..k][..j]) == Some(DIRECTORY)
    {
      assert p[..k][..j] == p[..j];
      EarliestPrefix(modules, p[..k], j);
      if j == 0 {
        assert p[..0] == [];
        EarliestRoot(modules);
      } else {
        UnblockedMeansOpen(node, modules, p, j);
        assert ShapeAt(node, p[..j]) == Resolved(modules, p[..j]);
      }
    }
  }

  lemma LastByPath(node: Node, m: Module, p: Path)
    requires p != []
    ensures ShapeAt(if m.system.Some? then Merge(node, m.system.value, m.mnt) else node, p) ==
              if ShapeAt(node, p).Some? then ShapeAt(node, p)
              else if Unblocked(node, p) then ModuleAt(m, p)
              else None
  {
    if m.system.Some? {
      MergeByPath(node, m.system.value, m.mnt, p);
    }
  }

  /** The collected tree has, at each path all of whose proper prefixes are directories in the
      earliest module that has them, what the earliest module has there; elsewhere nothing. */
  lemma {:induction false} CollectedByPath(modules: seq<Module>, p: Path)
    requires p != []
    ensures ShapeAt(MergeAll(modules), p) == Resolved(modules, p)
    decreases |modules|
  {
    if modules == [] {
      assert Earliest(modules, p[..0]) == None;
    } else {
      var init, last := modules[..|modules| - 1], modules[|modules| - 1];
      var node := MergeAll(init);
      forall k | 0 < k <= |p|
        ensures ShapeAt(node, p[..k]) == Resolved(init, p[..k])
      {
        CollectedByPath(init, p[..k]);
      }
      assert p[..|p|] == p;
      assert ShapeAt(node, p) == Resolved(init, p);
      LastByPath(node, last, p);
      if ShapeAt(node, p).Some? {
        assert Open(modules, p);
      } else if Unblocked(node, p) {
        UnblockedStep(modules, p, node);
      } else {
        MergeAllIsDirectory(init);
        BlockedStep(modules, p, node);
      }
    }
  }

  lemma UnblockedStep(modules: seq<Module>, p: Path, node: Node)
    requires p != [] && modules != []
    requires AgreesUpTo(node, modules[..|modules| - 1], p) && ShapeAt(node, p) == None && Unblocked(node, p)
    ensures Resolved(modules, p) == ModuleAt(modules[|modules| - 1], p)
  {
    var init, last := modules[..|modules| - 1], modules[|modules| - 1];
    assert p[..|p|] == p;
    if Earliest(init, p).Some? {
      UnblockedMeansOpen(node, init, p, |p|);
      assert false;
    }
    if ModuleAt(last, p).Some? {
      forall k | 0 <= k < |p|
        ensures Earliest(modules, p[..k]) == Some(DIRECTORY)
      {
        SourcePrefix(last.system.value, last.mnt, p, k);
        if Earliest(init, p[..k]).Some? {
          if k == 0 {
            assert p[..0] == [];
            EarliestRoot(init);
          } else {
            UnblockedMeansOpen(node, init, p, k);
            assert ShapeAt(node, p[..k]) == Resolved(init, p[..k]);
          }
        }
      }
    }
  }

  lemma BlockedStep(modules: seq<Module>, p: Path, node: Node)
    requires p != [] && modules != [] && node.Directory?
    requires AgreesUpTo(node, modules[..|modules| - 1], p) && !Unblocked(node, p)
    ensures Resolved(modules, p) == None
  {
    var init := modules[..|modules| - 1];
    var k :| 0 <= k < |p| && ShapeAt(node, p[..k]) !in {None, Some(DIRECTORY)};
    assert p[..0] == [];
    assert ShapeAt(node, p[..k]) == Resolved(init, p[..k]);
    assert Earliest(modules, p[..k]) == Earliest(init, p[..k]);
  }

  lemma {:induction false} MergeAllIsDirectory(modules: seq<Module>)
    ensures MergeAll(modules).Directory?
  {
    if modules != [] {
      MergeAllIsDirectory(modules[..|modules| - 1]);
    }
  }
}
