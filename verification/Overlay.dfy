/** Putting the merged module tree over the real file system.

    A directory whose new content cannot be bind-mounted entry by entry is rebuilt in a tmpfs
    worker directory, with its real entries mirrored, and then mounted as a whole. */
module Overlay {
  import opened Common
  import opened FileTree

  /** The merged tree of all modules. */
  datatype Node =
    | Directory(children: map<Name, Node>)
    | Regular(src: string)
    | Symlink(target: string)
    | MagiskLink
    | Whiteout

  const REPLACE: Name := ".replace"

  const EMPTY: Node := Directory(map[])

  function MagiskTarget(name: Name): string {
    if name == "supolicy" then "./magiskpolicy" else "./magisk"
  }

  // ---------------------------------------------------------------------------------------
  // The real file system
  // ---------------------------------------------------------------------------------------

  /** What the view does not say: what opening a real link gives, and what a module holds at a path. */
  datatype Outside = Outside(follow: Path -> Option<Tree>, holds: string -> Option<Tree>)

  /** The entries of what stands at `at`; a link is followed. */
  function RealEntries(out: Outside, at: Path, t: Option<Tree>): map<Name, Tree> {
    Entries(if t.Some? && t.value.Link? then out.follow(at) else t)
  }

  /** What stands at a path, itself not followed if it is a link. */
  function RealAt(out: Outside, at: Path, t: Option<Tree>, p: Path): Option<Tree>
    decreases |p|
  {
    if p == [] then t else RealAt(out, at + [p[0]], Get(RealEntries(out, at, t), p[0]), p[1..])
  }

  lemma {:induction false} RealChild(out: Outside, at: Path, t: Option<Tree>, p: Path, n: Name)
    ensures RealAt(out, at, t, p + [n]) == Get(RealEntries(out, at + p, RealAt(out, at, t, p)), n)
    decreases |p|
  {
    hide RealEntries;
    if p == [] {
      assert [n][1..] == [] && at + p == at;
    } else {
      RealChild(out, at + [p[0]], Get(RealEntries(out, at, t), p[0]), p[1..], n);
      assert (p + [n])[1..] == p[1..] + [n] && at + [p[0]] + p[1..] == at + p;
    }
  }

  lemma {:induction false} RealIsLookup(out: Outside, at: Path, t: Option<Tree>, p: Path)
    requires Lookup(t, p).Some?
    ensures RealAt(out, at, t, p) == Lookup(t, p)
    decreases |p|
  {
    if p != [] {
      if t.None? || t.value.Link? {
        LookupInNothing(p[1..]);
      }
      RealIsLookup(out, at + [p[0]], Get(Entries(t), p[0]), p[1..]);
    }
  }

  // ---------------------------------------------------------------------------------------
  // The plain overlay
  // ---------------------------------------------------------------------------------------

  /** A directory with a `.replace` file shows nothing real. */
  predicate Replaces(children: map<Name, Node>) { REPLACE in children && children[REPLACE].Regular? }

  function ParentDir(path: string): string {
    if path == "" then ""
    else if path[|path| - 1] == '/' then path[..|path| - 1]
    else ParentDir(path[..|path| - 1])
  }

  function Join(dir: string, name: Name): string { dir + "/" + name }

  /** The directory beside the `.replace` file, as the module holds it. */
  function HeldDir(out: Outside, replace: string, n: Name): Tree {
    var held := out.holds(Join(ParentDir(replace), n));
    if held.Some? && held.value.Dir? then held.value else Dir(map[])
  }

  /** One entry of an overlaid directory: module node if present, else the real node. */
  function Entry(out: Outside, at: Path, node: Node, entries: map<Name, Tree>, n: Name): Option<Tree>
    requires node.Directory?
    decreases node, 0
  {
    var ch := node.children;
    if n in ch && n != REPLACE then
      if Replaces(ch) && ch[n].Directory? then Some(HeldDir(out, ch[REPLACE].src, n))
      else Overlaid(out, at + [n], n, ch[n], Get(entries, n))
    else if Replaces(ch) then None
    else Get(entries, n)
  }

  /** What a module node makes of the real node. */
  function Overlaid(out: Outside, at: Path, name: Name, node: Node, base: Option<Tree>): Option<Tree>
    decreases node, 1
  {
    match node
    case Directory(ch) =>
      var rc := RealEntries(out, at, base);
      Some(Dir(map n | n in ch.Keys + rc.Keys && Entry(out, at, node, rc, n).Some? ::
                 Entry(out, at, node, rc, n).value))
    case Regular(src) => Some(File(src))
    case Symlink(target) => Some(Link(target))
    case MagiskLink => Some(Link(MagiskTarget(name)))
    case Whiteout => None
  }

  /** What one sees at a path, without what is below it. */
  datatype Kind = IsDir | IsFile(content: string) | IsLink(target: string)

  function KindOf(t: Tree): Kind {
    match t
    case Dir(_) => IsDir
    case File(c) => IsFile(c)
    case Link(l) => IsLink(l)
  }

  function KindAt(t: Option<Tree>, p: Path): Option<Kind> {
    var found := Lookup(t, p);
    if found.Some? then Some(KindOf(found.value)) else None
  }

  function NodeKind(name: Name, node: Node): Option<Kind> {
    match node
    case Directory(_) => Some(IsDir)
    case Regular(src) => Some(IsFile(src))
    case Symlink(target) => Some(IsLink(target))
    case MagiskLink => Some(IsLink(MagiskTarget(name)))
    case Whiteout => None
  }

  /** Following a path in the module tree: it ends at a node, leaves the tree for a real or
      held one, or is cut off. */
  datatype Found = Present(name: Name, node: Node) | Elsewhere(tree: Option<Tree>, rest: Path) | Hidden

  function Find(out: Outside, at: Path, name: Name, node: Node, base: Option<Tree>, p: Path): Found
    decreases |p|
  {
    if p == [] then Present(name, node)
    else if !node.Directory? then Hidden
    else
      var n, ch, entry := p[0], node.children, Get(RealEntries(out, at, base), p[0]);
      if n in ch && n != REPLACE then
        if Replaces(ch) && ch[n].Directory? then Elsewhere(Some(HeldDir(out, ch[REPLACE].src, n)), p[1..])
        else Find(out, at + [n], n, ch[n], entry, p[1..])
      else if Replaces(ch) then Hidden
      else Elsewhere(entry, p[1..])
  }

  function FoundKind(found: Found): Option<Kind> {
    match found
    case Present(name, node) => NodeKind(name, node)
    case Elsewhere(tree, rest) => KindAt(tree, rest)
    case Hidden => None
  }

  lemma {:induction false} LookupInNothing(p: Path)
    ensures Lookup(None, p) == None
    decreases |p|
  {
    if p != [] {
      LookupInNothing(p[1..]);
    }
  }

  lemma OverlaidEntry(out: Outside, at: Path, name: Name, node: Node, base: Option<Tree>, n: Name)
    requires node.Directory?
    ensures Get(Entries(Overlaid(out, at, name, node, base)), n) ==
            Entry(out, at, node, RealEntries(out, at, base), n)
  {
    hide RealEntries;
  }

  /** The overlay, path by path. */
  lemma {:induction false} OverlaidByPath(
    out: Outside, at: Path, name: Name, node: Node, base: Option<Tree>, p: Path)
    ensures KindAt(Overlaid(out, at, name, node, base), p) == FoundKind(Find(out, at, name, node, base, p))
    decreases |p|
  {
    hide RealEntries, HeldDir;
    if p != [] {
      LookupInNothing(p[1..]);
      if node.Directory? {
        var n := p[0];
        OverlaidEntry(out, at, name, node, base, n);
        if n in node.children && n != REPLACE && !(Replaces(node.children) && node.children[n].Directory?) {
          OverlaidByPath(out, at + [n], n, node.children[n], Get(RealEntries(out, at, base), n), p[1..]);
        }
      }
    }
  }

  /** What a replaced directory shows does not depend on anything real. */
  lemma ReplaceIgnoresReal(out: Outside, at: Path, name: Name, node: Node, base: Option<Tree>, base': Option<Tree>)
    requires node.Directory? && Replaces(node.children)
    ensures Overlaid(out, at, name, node, base) == Overlaid(out, at, name, node, base')
  {
    hide RealEntries, HeldDir;
    var s, t := Overlaid(out, at, name, node, base).value.entries, Overlaid(out, at, name, node, base').value.entries;
    forall n
      ensures Get(s, n) == Get(t, n)
    {
      OverlaidEntry(out, at, name, node, base, n);
      OverlaidEntry(out, at, name, node, base', n);
    }
    SameMaps(s, t);
  }

  /** No module asks to replace a directory wholesale. */
  ghost predicate NoReplace(node: Node) {
    node.Directory? ==>
      REPLACE !in node.children && forall n :: n in node.children ==> NoReplace(node.children[n])
  }

  /** No module directory lies over a real symbolic link. */
  ghost predicate NoDirOverLink(node: Node, base: Option<Tree>)
    decreases node
  {
    node.Directory? ==>
      && (base.Some? ==> !base.value.Link?)
      && forall n :: n in node.children ==> NoDirOverLink(node.children[n], Get(Entries(base), n))
  }

  /** Then what a path that leaves the module tree shows is the real node. */
  lemma {:induction false} ElsewhereIsReal(
    out: Outside, at: Path, name: Name, node: Node, base: Option<Tree>, p: Path)
    requires NoReplace(node) && NoDirOverLink(node, base)
    ensures var found := Find(out, at, name, node, base, p);
            found.Elsewhere? ==> FoundKind(found) == KindAt(base, p)
    decreases |p|
  {
    if p != [] && node.Directory? && p[0] in node.children {
      var n := p[0];
      ElsewhereIsReal(out, at + [n], n, node.children[n], Get(Entries(base), n), p[1..]);
    }
  }

  // ---------------------------------------------------------------------------------------
  // What committing does
  // ---------------------------------------------------------------------------------------

  /** The parent has to be rebuilt if the target is missing or a link, or the node is not
      something that can be bind-mounted. */
  predicate ParentShouldBeTmpfs(node: Node, target: Option<Tree>) {
    match node
    case Directory(_) => target.None? || target.value.Link?
    case Regular(_) => target.None? || target.value.Link?
    case _ => true
  }

  /** Some child forces the directory to be rebuilt, or it is to be replaced. */
  predicate NeedsTmpfs(children: map<Name, Node>, base: Tree) {
    REPLACE in children || exists n :: n in children && ParentShouldBeTmpfs(children[n], Get(Entries(Some(base)), n))
  }

  /** The children a partition root can take: it is never rebuilt itself. */
  function Supported(children: map<Name, Node>, base: Tree): map<Name, Node> {
    map n | n in children && n != REPLACE && !ParentShouldBeTmpfs(children[n], Get(Entries(Some(base)), n)) ::
      children[n]
  }

  /** A mount only takes place between two directories or two non-directories. */
  predicate Mountable(src: Tree, dest: Tree) { src.Dir? == dest.Dir? }

  /** The effect of `commit` on an existing subtree. */
  function Committed(out: Outside, at: Path, name: Name, node: Node, base: Tree): Tree
    decreases node
  {
    match node
    case Directory(ch) =>
      if NeedsTmpfs(ch, base) then
        if base.Dir? then Overlaid(out, at, name, node, Some(base)).value else base
      else if base.Dir? then
        Dir(map n | n in base.entries ::
              if n in ch then Committed(out, at + [n], n, ch[n], base.entries[n]) else base.entries[n])
      else base
    case Regular(src) => if Mountable(File(src), base) then File(src) else base
    case _ => base
  }

  /** Where a directory is not rebuilt, its module children have the kind of the real entries:
      a directory over a directory, a file over a non-directory. */
  ghost predicate KindsAgree(node: Node, base: Tree)
    decreases node
  {
    match node
    case Directory(ch) =>
      && base.Dir?
      && (!NeedsTmpfs(ch, base) ==>
            forall n :: n in ch && n in base.entries ==> KindsAgree(ch[n], base.entries[n]))
    case Regular(_) => !base.Dir?
    case _ => true
  }

  /** Where the parent is not rebuilt, the committed view is the plain overlay exactly when the
      kinds agree. */
  lemma {:induction false} CommittedIsOverlaid(out: Outside, at: Path, name: Name, node: Node, base: Tree)
    requires !ParentShouldBeTmpfs(node, Some(base))
    ensures Some(Committed(out, at, name, node, base)) == Overlaid(out, at, name, node, Some(base)) <==>
            KindsAgree(node, base)
    decreases node
  {
    if node.Directory? && base.Dir? && !NeedsTmpfs(node.children, base) {
      var ch := node.children;
      var c, o := Committed(out, at, name, node, base), Overlaid(out, at, name, node, Some(base)).value;
      assert RealEntries(out, at, Some(base)) == base.entries;
      forall n
        ensures n in ch ==> n in base.entries && !ParentShouldBeTmpfs(ch[n], Some(base.entries[n]))
        ensures n in base.entries <==> n in o.entries
        ensures n in base.entries ==>
                (c.entries[n] == o.entries[n] <==> (n in ch ==> KindsAgree(ch[n], base.entries[n])))
      {
        OverlaidEntry(out, at, name, node, Some(base), n);
        if n in ch {
          assert !ParentShouldBeTmpfs(ch[n], Get(Entries(Some(base)), n));
          CommittedIsOverlaid(out, at + [n], n, ch[n], base.entries[n]);
        }
      }
      assert c.entries.Keys == o.entries.Keys;
      assert c.entries == o.entries <==> forall n :: n in base.entries ==> c.entries[n] == o.entries[n];
    }
  }

  /** Kinds that disagree do make a difference: a module's file over a real directory is lost,
      since it cannot be mounted there. */
  lemma FileOverDirectoryIsLost(out: Outside, at: Path, src: string)
    ensures
      var node, base := Directory(map["etc" := Regular(src)]), Dir(map["etc" := Dir(map[])]);
      && Committed(out, at, "system", node, base) == base
      && Overlaid(out, at, "system", node, Some(base)) == Some(Dir(map["etc" := File(src)]))
  {
    var node, base := Directory(map["etc" := Regular(src)]), Dir(map["etc" := Dir(map[])]);
    assert Committed(out, at + ["etc"], "etc", Regular(src), Dir(map[])) == Dir(map[]);
    assert Committed(out, at, "system", node, base).entries == base.entries;
    forall n
      ensures Get(Entries(Overlaid(out, at, "system", node, Some(base))), n) == Get(map["etc" := File(src)], n)
    {
      OverlaidEntry(out, at, "system", node, Some(base), n);
    }
    SameMaps(Entries(Overlaid(out, at, "system", node, Some(base))), map["etc" := File(src)]);
  }

  /** The tree a root hands on: a partition root drops the children it cannot take. */
  function Effective(node: Node, base: Tree, isRoot: bool): Node {
    if isRoot && node.Directory? then Directory(Supported(node.children, base)) else node
  }

  /** A partition root: it is never rebuilt, and the view below it is, path by path, what the
      supported part of the module tree leads to. It is so exactly when the kinds agree. */
  lemma RootView(out: Outside, at: Path, name: Name, node: Node, base: Tree)
    requires node.Directory? && base.Dir?
    ensures !NeedsTmpfs(Supported(node.children, base), base)
    ensures var top := Effective(node, base, true);
            KindsAgree(top, base) <==>
            forall p :: KindAt(Some(Committed(out, at, name, top, base)), p) ==
                        FoundKind(Find(out, at, name, top, Some(base), p))
  {
    var top := Effective(node, base, true);
    var seen := Some(Committed(out, at, name, top, base));
    var wanted := Overlaid(out, at, name, top, Some(base));
    CommittedIsOverlaid(out, at, name, top, base);
    forall p
      ensures KindAt(wanted, p) == FoundKind(Find(out, at, name, top, Some(base), p))
    {
      OverlaidByPath(out, at, name, top, Some(base), p);
    }
    if forall p :: KindAt(seen, p) == KindAt(wanted, p) {
      SameKindsSameTree(seen, wanted);
    }
  }

  /** Two trees that look the same at every path are the same. */
  lemma {:induction false} SameKindsSameTree(s: Option<Tree>, t: Option<Tree>)
    requires forall p :: KindAt(s, p) == KindAt(t, p)
    ensures s == t
    decreases s.Some?, TreeOr(s)
  {
    assert KindAt(s, []) == KindAt(t, []);
    if s.Some? && s.value.Dir? {
      var a, b := Entries(s), Entries(t);
      forall n | n in a.Keys + b.Keys
        ensures Get(a, n) == Get(b, n)
      {
        forall p
          ensures KindAt(Get(a, n), p) == KindAt(Get(b, n), p)
        {
          assert ([n] + p)[1..] == p;
          assert KindAt(s, [n] + p) == KindAt(t, [n] + p);
        }
        assert KindAt(Get(a, n), []) == KindAt(Get(b, n), []);
        if n in a {
          SameKindsSameTree(Get(a, n), Get(b, n));
        }
      }
      SameMaps(a, b);
    }
  }

  lemma MirrorIsIdentity(out: Outside, at: Path, name: Name, base: Tree)
    requires base.Dir?
    ensures Overlaid(out, at, name, Directory(map[]), Some(base)) == Some(base)
  {
    assert Overlaid(out, at, name, Directory(map[]), Some(base)).value.entries == base.entries;
  }

  lemma OverlaidEntries(
    out: Outside, at: Path, name: Name, node: Node, base: Option<Tree>, made: map<Name, Tree>)
    requires node.Directory? && made.Keys <= node.children.Keys + RealEntries(out, at, base).Keys
    requires forall n :: n in node.children.Keys + RealEntries(out, at, base).Keys ==>
               Get(made, n) == Entry(out, at, node, RealEntries(out, at, base), n)
    ensures Overlaid(out, at, name, node, base) == Some(Dir(made))
  {
    hide RealEntries, Entry;
    var rc := RealEntries(out, at, base);
    var o := Overlaid(out, at, name, node, base).value.entries;
    forall n | n in node.children.Keys + rc.Keys
      ensures Get(made, n) == Get(o, n)
    {
      assert Get(made, n) == Entry(out, at, node, rc, n);
    }
    SameMaps(made, o);
  }

  /** A directory some of whose module children are still to be committed. */
  ghost function PartlyCommitted(
    out: Outside, at: Path, children: map<Name, Node>, todo: set<Name>, base: Tree): Tree
    requires base.Dir?
  {
    Dir(map n | n in base.entries ::
          if n in children && n !in todo then Committed(out, at + [n], n, children[n], base.entries[n])
          else base.entries[n])
  }

  /** Committing one more child turns one partly committed directory into the next. */
  lemma CommitOneMore(
    out: Outside, view: Tree, path: Path, children: map<Name, Node>, todo: set<Name>, base: Tree, n: Name)
    requires base.Dir? && n in todo && n in children && n in base.entries
    ensures
      var now := Some(Graft(Some(view), path, PartlyCommitted(out, path, children, todo, base)));
      && Lookup(now, path + [n]) == Some(base.entries[n])
      && Graft(now, path + [n], Committed(out, path + [n], n, children[n], base.entries[n])) ==
           Graft(Some(view), path, PartlyCommitted(out, path, children, todo - {n}, base))
  {
    hide Committed;
    var current := PartlyCommitted(out, path, children, todo, base);
    var next := PartlyCommitted(out, path, children, todo - {n}, base);
    var now := Some(Graft(Some(view), path, current));
    LookupGraft(Some(view), path, current);
    LookupChild(now, path, n);
    GraftChild(now, path, n, Committed(out, path + [n], n, children[n], base.entries[n]));
    assert next.entries == current.entries[n := Committed(out, path + [n], n, children[n], base.entries[n])];
    GraftGraft(Some(view), path, current, next);
  }

  ghost function TreeOr(t: Option<Tree>): Tree { if t.Some? then t.value else Dir(map[]) }

  ghost function WorkerWith(original: Tree, path: Path, made: Option<map<Name, Tree>>): Tree {
    if made.Some? then Graft(Some(original), path, Dir(made.value)) else original
  }

  /** A name not yet made below `path` is free in the worker directory. */
  lemma PrepareWorker(original: Tree, path: Path, made: Option<map<Name, Tree>>, n: Name)
    requires Passable(Some(original), path) && Lookup(Some(original), path) == None
    requires made.Some? ==> n !in made.value
    ensures
      var w := WorkerWith(original, path, made);
      Passable(Some(w), path + [n]) && Lookup(Some(w), path + [n]) == None
  {
    var w := WorkerWith(original, path, made);
    if made.Some? {
      PassableGraft(Some(original), path, Dir(made.value));
      LookupGraft(Some(original), path, Dir(made.value));
    }
    PassableChild(Some(w), path, n);
    LookupChild(Some(w), path, n);
  }

  /** Making one more name below `path`. */
  lemma ExtendWorker(original: Tree, path: Path, made: Option<map<Name, Tree>>, n: Name, sub: Tree)
      returns (made': Option<map<Name, Tree>>)
    requires Lookup(Some(original), path) == None
    ensures made' == Some((if made.Some? then made.value else map[])[n := sub])
    ensures Graft(Some(WorkerWith(original, path, made)), path + [n], sub) == WorkerWith(original, path, made')
  {
    var w := WorkerWith(original, path, made);
    made' := Some((if made.Some? then made.value else map[])[n := sub]);
    GraftChild(Some(w), path, n, sub);
    if made.Some? {
      LookupGraft(Some(original), path, Dir(made.value));
      GraftGraft(Some(original), path, Dir(made.value), Dir(made'.value));
    }
  }

  // ---------------------------------------------------------------------------------------
  // The code
  // ---------------------------------------------------------------------------------------

  /** What lookups from / see, and the tmpfs worker directory. */
  class Mounts {
    const out: Outside
    var view: Tree
    var worker: Tree

    /** What stands at a path no directory of which is a link. */
    function At(path: Path): Option<Tree>
      reads this
    {
      Lookup(Some(view), path)
    }

    function Target(path: Path): Option<Tree>
      reads this
    {
      RealAt(out, [], Some(view), path)
    }

    /** The entries of the directory at a path. */
    function Listing(path: Path): map<Name, Tree>
      reads this
    {
      RealEntries(out, path, Target(path))
    }

    lemma ListingGives(path: Path, n: Name)
      ensures Target(path + [n]) == Get(Listing(path), n)
    {
      RealChild(out, [], Some(view), path, n);
      assert [] + path == path;
    }

    /** Errors are ignored: a mount that cannot be made changes nothing. */
    method BindMount(src: Tree, dest: Path)
      modifies this`view
      ensures view == if old(At(dest)).Some? && Mountable(src, old(At(dest)).value)
                      then Graft(Some(old(view)), dest, src) else old(view)
    {
      var target := At(dest);
      if target.Some? && Mountable(src, target.value) {
        view := Graft(Some(view), dest, src);
      }
    }

    /** First pass of `commit`: is a rebuild needed, and which children stay. */
    method Retain(children: map<Name, Node>, path: Path, isRoot: bool) returns (kept: map<Name, Node>, isTmpfs: bool)
      requires At(path).Some? && !At(path).value.Link?
      ensures kept == if isRoot then Supported(children, At(path).value) else children
      ensures isTmpfs == (!isRoot && NeedsTmpfs(children, At(path).value))
    {
      kept, isTmpfs := map[], false;
      var todo := children.Keys;
      ghost var entries := Entries(At(path));
      RealIsLookup(out, [], Some(view), path);
      while todo != {}
        invariant todo <= children.Keys
        invariant kept.Keys <= children.Keys - todo
        invariant forall n :: n in children && n !in todo ==>
                    (n in kept <==> !isRoot || (n != REPLACE && !ParentShouldBeTmpfs(children[n], Get(entries, n))))
        invariant forall n :: n in kept ==> kept[n] == children[n]
        invariant isTmpfs <==>
                    && !isRoot
                    && ((REPLACE in children && REPLACE !in todo)
                        || exists n :: n in children && n !in todo && ParentShouldBeTmpfs(children[n], Get(entries, n)))
      {
        var n :| n in todo;
        todo := todo - {n};
        if n == REPLACE {
          if isRoot {
            continue;
          }
          isTmpfs := true;
        } else {
          ListingGives(path, n);
          if ParentShouldBeTmpfs(children[n], Target(path + [n])) {
            if isRoot {
              continue;
            }
            isTmpfs := true;
          }
        }
        kept := kept[n := children[n]];
      }
    }

    /** The merged subtree at `path` is put over the real one. Afterwards the view there is what
        `Committed` says, and nothing changes anywhere else. */
    method Commit(name: Name, node: Node, path: Path, isRoot: bool)
      requires At(path).Some? && (node.Directory? ==> !At(path).value.Link?)
      requires Passable(Some(worker), path) && Lookup(Some(worker), path) == None
      modifies this
      ensures var base := old(At(path)).value;
              view == Graft(Some(old(view)), path, Committed(out, path, name, Effective(node, base, isRoot), base))
      ensures worker == old(worker) || exists m :: worker == Graft(Some(old(worker)), path, Dir(m))
      decreases node, 1
    {
      ghost var base := At(path).value;
      GraftSame(Some(view), path);
      match node
      case Directory(children) =>
        var kept, isTmpfs := Retain(children, path, isRoot);
        if isTmpfs {
          RealIsLookup(out, [], Some(view), path);
          CommitTmpfs(name, node, path);
          LookupGraft(Some(old(worker)), path, Overlaid(out, path, name, node, Some(base)).value);
          var built := Lookup(Some(worker), path);
          BindMount(built.value, path);
        } else {
          CommitChildren(name, kept, path, node);
        }
      case Regular(src) =>
        BindMount(File(src), path);
      case _ =>
    }

    /** Second pass of `commit` for a directory that is not rebuilt. */
    method CommitChildren(name: Name, children: map<Name, Node>, path: Path, ghost parent: Node)
      requires At(path).Some? && !NeedsTmpfs(children, At(path).value)
      requires parent.Directory?
      requires forall n :: n in children ==> n in parent.children && children[n] == parent.children[n]
      requires Passable(Some(worker), path) && Lookup(Some(worker), path) == None
      modifies this
      ensures view == Graft(Some(old(view)), path, Committed(out, path, name, Directory(children), old(At(path)).value))
      ensures worker == old(worker) || exists m :: worker == Graft(Some(old(worker)), path, Dir(m))
      decreases parent, 0
    {
      ghost var base := At(path).value;
      GraftSame(Some(view), path);
      ghost var made: Option<map<Name, Tree>> := None;
      var todo := children.Keys;
      ghost var current := base;
      while todo != {}
        invariant todo <= children.Keys
        invariant view == Graft(Some(old(view)), path, current)
        invariant base.Dir? ==> current == PartlyCommitted(out, path, children, todo, base)
        invariant !base.Dir? ==> current == base
        invariant worker == if made.Some? then Graft(Some(old(worker)), path, Dir(made.value)) else old(worker)
        invariant made.Some? ==> made.value.Keys !! todo
      {
        var n :| n in todo;
        assert !ParentShouldBeTmpfs(children[n], Get(Entries(Some(base)), n));
        CommitOneMore(out, old(view), path, children, todo, base, n);
        PrepareWorker(old(worker), path, made, n);
        ghost var before := worker;
        Commit(n, children[n], path + [n], false);
        todo := todo - {n};
        current := PartlyCommitted(out, path, children, todo, base);
        if worker != before {
          ghost var m :| worker == Graft(Some(before), path + [n], Dir(m));
          made := ExtendWorker(old(worker), path, made, n, Dir(m));
        }
      }
      assert base.Dir? ==> current.entries == Committed(out, path, name, Directory(children), base).entries;
    }

    /** Builds the overlay of `path` in the worker directory, mirroring what is real. */
    method CommitTmpfs(name: Name, node: Node, path: Path)
      requires Passable(Some(worker), path) && Lookup(Some(worker), path) == None
      modifies this`worker
      ensures worker == match Overlaid(out, path, name, node, Target(path))
                        case Some(t) => Graft(Some(old(worker)), path, t)
                        case None => old(worker)
      decreases node != EMPTY, node, Dir(Listing(path)), 1
    {
      hide RealEntries, Entry, RealAt;
      match node
      case Directory(children) =>
        worker := Graft(Some(worker), path, Dir(map[]));
        if Replaces(children) {
          MergeChildren(name, node, path, old(worker), map[]);
        } else {
          ghost var made := MirrorEntries(node, path, old(worker));
          MergeChildren(name, node, path, old(worker), made);
        }
      case Regular(src) =>
        worker := Graft(Some(worker), path, File(src));
      case Symlink(target) =>
        worker := Graft(Some(worker), path, Link(target));
      case MagiskLink =>
        worker := Graft(Some(worker), path, Link(MagiskTarget(name)));
      case Whiteout =>
    }

    /** Copies the real entries that no module touches. */
    method MirrorEntries(node: Node, path: Path, ghost original: Tree) returns (ghost made: map<Name, Tree>)
      requires node.Directory?
      requires Passable(Some(original), path) && Lookup(Some(original), path) == None
      requires worker == Graft(Some(original), path, Dir(map[]))
      modifies this`worker
      ensures made == Listing(path) - (node.children.Keys - {REPLACE})
      ensures worker == Graft(Some(original), path, Dir(made))
      decreases node != EMPTY, node, Dir(Listing(path)), 0
    {
      hide RealEntries, RealAt;
      made := map[];
      var entries := Listing(path);
      var todo := entries.Keys;
      while todo != {}
        invariant todo <= entries.Keys
        invariant worker == Graft(Some(original), path, Dir(made))
        invariant made == entries - (todo + (node.children.Keys - {REPLACE}))
      {
        var n :| n in todo;
        todo := todo - {n};
        if n in node.children && n != REPLACE {
          continue;
        }
        MirrorOne(path, n, entries[n], original, made);
        made := made[n := entries[n]];
      }
    }

    method MirrorOne(path: Path, n: Name, entry: Tree, ghost original: Tree, ghost made: map<Name, Tree>)
      requires Passable(Some(original), path) && Lookup(Some(original), path) == None
      requires worker == Graft(Some(original), path, Dir(made))
      requires n !in made && Get(Listing(path), n) == Some(entry)
      modifies this`worker
      ensures worker == Graft(Some(original), path, Dir(made[n := entry]))
      decreases false, EMPTY, entry, 2
    {
      hide RealAt;
      PrepareWorker(original, path, Some(made), n);
      ListingGives(path, n);
      ghost var _ := ExtendWorker(original, path, Some(made), n, entry);
      match entry
      case Dir(_) =>
        MirrorIsIdentity(out, path + [n], n, entry);
        CommitTmpfs(n, Directory(map[]), path + [n]);
      case Link(target) =>
        worker := Graft(Some(worker), path + [n], Link(target));
      case File(content) =>
        worker := Graft(Some(worker), path + [n], File(content));
    }

    /** Adds the module's children to the mirrored entries, or to nothing in a replaced directory. */
    method MergeChildren(name: Name, node: Node, path: Path, ghost original: Tree, ghost mirrored: map<Name, Tree>)
      requires node.Directory?
      requires Passable(Some(original), path) && Lookup(Some(original), path) == None
      requires mirrored == if Replaces(node.children) then map[] else Listing(path) - (node.children.Keys - {REPLACE})
      requires worker == Graft(Some(original), path, Dir(mirrored))
      modifies this`worker
      ensures worker == Graft(Some(original), path, Overlaid(out, path, name, node, Target(path)).value)
      decreases node != EMPTY, node, Dir(Listing(path)), 0
    {
      hide RealEntries, RealAt;
      ghost var entries := Listing(path);
      ghost var made := mirrored;
      var todo := node.children.Keys - {REPLACE};
      while todo != {}
        invariant todo <= node.children.Keys - {REPLACE}
        invariant worker == Graft(Some(original), path, Dir(made))
        invariant made.Keys <= node.children.Keys + entries.Keys - todo
        invariant forall n :: n in node.children.Keys + entries.Keys - todo ==>
                    Get(made, n) == Entry(out, path, node, entries, n)
      {
        var n :| n in todo;
        todo := todo - {n};
        PrepareWorker(original, path, Some(made), n);
        ListingGives(path, n);
        MergeOne(n, node, path);
        ghost var o := Entry(out, path, node, entries, n);
        if o.Some? {
          ghost var _ := ExtendWorker(original, path, Some(made), n, o.value);
          made := made[n := o.value];
        }
      }
      OverlaidEntries(out, path, name, node, Target(path), made);
    }

    /** One child: in a replaced directory, a directory is the module's own. */
    method MergeOne(n: Name, node: Node, path: Path)
      requires node.Directory? && n in node.children && n != REPLACE
      requires Passable(Some(worker), path + [n]) && Lookup(Some(worker), path + [n]) == None
      modifies this`worker
      ensures worker == match Entry(out, path, node, Listing(path), n)
                        case Some(t) => Graft(Some(old(worker)), path + [n], t)
                        case None => old(worker)
      decreases node != EMPTY, node, Dir(Listing(path)), 0, 0
    {
      hide RealEntries, RealAt;
      var ch := node.children;
      ListingGives(path, n);
      if Replaces(ch) && ch[n].Directory? {
        worker := Graft(Some(worker), path + [n], HeldDir(out, ch[REPLACE].src, n));
      } else {
        CommitTmpfs(n, ch[n], path + [n]);
      }
    }
  }
}
