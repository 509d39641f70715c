/** Directory trees, path lookup and subtree replacement. */
module FileTree {
  import opened Common

  type Name = string
  type Path = seq<Name>

  /** A file is known by what it shows, a link by its target. */
  datatype Tree = Dir(entries: map<Name, Tree>) | File(content: string) | Link(target: string)

  function Entries(t: Option<Tree>): map<Name, Tree> {
    if t.Some? && t.value.Dir? then t.value.entries else map[]
  }

  function Lookup(t: Option<Tree>, p: Path): Option<Tree>
    decreases |p|
  {
    if p == [] then t else Lookup(Get(Entries(t), p[0]), p[1..])
  }

  /** The tree with the subtree at `p` replaced; missing directories on the way are made. */
  function Graft(t: Option<Tree>, p: Path, sub: Tree): Tree
    decreases |p|
  {
    if p == [] then sub
    else Dir(Entries(t)[p[0] := Graft(Get(Entries(t), p[0]), p[1..], sub)])
  }

  /** What exists on the way to `p` is a directory. */
  predicate Passable(t: Option<Tree>, p: Path)
    decreases |p|
  {
    p == [] || ((t.Some? ==> t.value.Dir?) && Passable(Get(Entries(t), p[0]), p[1..]))
  }

  lemma {:induction false} LookupGraft(t: Option<Tree>, p: Path, sub: Tree)
    ensures Lookup(Some(Graft(t, p, sub)), p) == Some(sub)
    decreases |p|
  {
    if p != [] {
      LookupGraft(Get(Entries(t), p[0]), p[1..], sub);
    }
  }

  lemma {:induction false} LookupChild(t: Option<Tree>, p: Path, n: Name)
    ensures Lookup(t, p + [n]) == Get(Entries(Lookup(t, p)), n)
    decreases |p|
  {
    if p == [] {
      assert [n][1..] == [];
    } else {
      LookupChild(Get(Entries(t), p[0]), p[1..], n);
      assert (p + [n])[1..] == p[1..] + [n];
    }
  }

  /** Replacing an entry of the directory at `p` is replacing that directory. */
  lemma {:induction false} GraftChild(t: Option<Tree>, p: Path, n: Name, sub: Tree)
    ensures Graft(t, p + [n], sub) == Graft(t, p, Dir(Entries(Lookup(t, p))[n := sub]))
    decreases |p|
  {
    if p == [] {
      assert [n][1..] == [];
    } else {
      GraftChild(Get(Entries(t), p[0]), p[1..], n, sub);
      assert (p + [n])[1..] == p[1..] + [n];
    }
  }

  /** A second replacement at the same place hides the first. */
  lemma {:induction false} GraftGraft(t: Option<Tree>, p: Path, sub: Tree, sub': Tree)
    ensures Graft(Some(Graft(t, p, sub)), p, sub') == Graft(t, p, sub')
    decreases |p|
  {
    if p != [] {
      GraftGraft(Get(Entries(t), p[0]), p[1..], sub, sub');
    }
  }

  /** Replacing a subtree by itself changes nothing. */
  lemma {:induction false} GraftSame(t: Option<Tree>, p: Path)
    requires Lookup(t, p).Some?
    ensures Some(Graft(t, p, Lookup(t, p).value)) == t
    decreases |p|
  {
    if p != [] {
      GraftSame(Get(Entries(t), p[0]), p[1..]);
      assert t.value.entries[p[0] := t.value.entries[p[0]]] == t.value.entries;
    }
  }

  /** Paths that part ways do not see each other's replacements. */
  lemma {:induction false} LookupGraftElsewhere(t: Option<Tree>, p: Path, sub: Tree, q: Path)
    requires !(p <= q) && !(q <= p)
    ensures Lookup(Some(Graft(t, p, sub)), q) == Lookup(t, q)
    decreases |p|
  {
    if p[0] == q[0] {
      assert p == [p[0]] + p[1..] && q == [q[0]] + q[1..];
      LookupGraftElsewhere(Get(Entries(t), p[0]), p[1..], sub, q[1..]);
    }
  }

  lemma {:induction false} PassableChild(t: Option<Tree>, p: Path, n: Name)
    requires Passable(t, p) && (Lookup(t, p).Some? ==> Lookup(t, p).value.Dir?)
    ensures Passable(t, p + [n])
    decreases |p|
  {
    if p == [] {
      assert [n][1..] == [];
    } else {
      PassableChild(Get(Entries(t), p[0]), p[1..], n);
      assert (p + [n])[1..] == p[1..] + [n];
    }
  }

  lemma {:induction false} PassableGraft(t: Option<Tree>, p: Path, sub: Tree)
    ensures Passable(Some(Graft(t, p, sub)), p)
    decreases |p|
  {
    if p != [] {
      PassableGraft(Get(Entries(t), p[0]), p[1..], sub);
    }
  }
}
