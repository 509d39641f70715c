/** The access vector table: a list of nodes, found by key and changed in place. */
module AvTab {
  import opened Common

  /** A bit of a 32-bit permission word; a word is the set of its bits. */
  type Bit = b: int | 0 <= b < 32

  type Bits = set<Bit>

  const ALL: Bits := set b: Bit | 0 <= b < 32

  datatype Effect = Allowed | AuditAllow | AuditDeny | XpermAllowed | XpermAuditAllow | XpermDontAudit

  predicate IsXperm(e: Effect) { e.XpermAllowed? || e.XpermAuditAllow? || e.XpermDontAudit? }

  datatype Key = Key(src: nat, tgt: nat, cls: nat, effect: Effect)

  /** Extended permissions: 256 bits over drivers, or over the functions of one driver. */
  datatype Ext = Driver(perms: set<byte>) | Function(driver: byte, perms: set<byte>)

  datatype Node = Node(key: Key, data: Bits, ext: Option<Ext>)

  /** A node that says no more than its absence. */
  predicate Redundant(n: Node) {
    match n.key.effect
    case AuditDeny => n.data == ALL
    case _ => n.data == {}
  }

  /** A word that need not be stored. */
  predicate Stale(n: Node) { !IsXperm(n.key.effect) && Redundant(n) }

  function Default(e: Effect): Bits { if e.AuditDeny? then ALL else {} }

  // ---------------------------------------------------------------------------------------
  // What a list of nodes keeps, and what it means
  // ---------------------------------------------------------------------------------------

  function Slot(e: Ext): nat {
    match e
    case Driver(_) => 256
    case Function(driver, _) => driver as nat
  }

  /** Two nodes that may not both be stored. */
  predicate Clash(a: Node, b: Node) {
    a.key == b.key && (a.ext.Some? && b.ext.Some? ==> Slot(a.ext.value) == Slot(b.ext.value))
  }

  predicate Shaped(nodes: seq<Node>) {
    && (forall i :: 0 <= i < |nodes| ==> (nodes[i].ext.Some? <==> IsXperm(nodes[i].key.effect)))
    && (forall i, j :: 0 <= i < j < |nodes| ==> !Clash(nodes[i], nodes[j]))
  }

  predicate Has(nodes: seq<Node>, k: Key) { exists i :: 0 <= i < |nodes| && nodes[i].key == k }

  /** The word stored for a key, or what its absence stands for. */
  ghost function At(nodes: seq<Node>, k: Key): Bits {
    if Has(nodes, k) then
      var i :| 0 <= i < |nodes| && nodes[i].key == k; nodes[i].data
    else Default(k.effect)
  }

  ghost function Exts(nodes: seq<Node>, k: Key): set<Ext> {
    set n | n in nodes && n.key == k && n.ext.Some? :: n.ext.value
  }

  lemma OnlyOne(nodes: seq<Node>, i: nat)
    requires Shaped(nodes) && i < |nodes| && !IsXperm(nodes[i].key.effect)
    ensures forall n: Node :: n in nodes && n.key == nodes[i].key ==> n == nodes[i]
  {
    forall j | 0 <= j < |nodes| && nodes[j].key == nodes[i].key
      ensures j == i
    {
      if j < i {
        assert Clash(nodes[j], nodes[i]);
      } else if i < j {
        assert Clash(nodes[i], nodes[j]);
      }
    }
  }

  lemma AtNode(nodes: seq<Node>, i: nat)
    requires Shaped(nodes) && i < |nodes| && !IsXperm(nodes[i].key.effect)
    ensures At(nodes, nodes[i].key) == nodes[i].data
  {
    OnlyOne(nodes, i);
    forall j | 0 <= j < |nodes| && nodes[j].key == nodes[i].key
      ensures nodes[j] == nodes[i]
    {
      assert nodes[j] in nodes;
    }
  }

  lemma AtMissing(nodes: seq<Node>, n: Node)
    requires !Has(nodes, n.key) && Redundant(n)
    ensures At(nodes, n.key) == n.data
  {
  }

  /** Lists that hold the same nodes for a key mean the same for it. */
  lemma AtSame(a: seq<Node>, b: seq<Node>, k: Key)
    requires Shaped(a) && Shaped(b) && !IsXperm(k.effect)
    requires forall n: Node :: n.key == k ==> (n in a <==> n in b)
    ensures At(a, k) == At(b, k)
  {
    if Has(a, k) {
      var i :| 0 <= i < |a| && a[i].key == k;
      AtNode(a, i);
      assert a[i] in b;
      var j :| 0 <= j < |b| && b[j] == a[i];
      AtNode(b, j);
    } else {
      assert forall j :: 0 <= j < |b| && b[j].key == k ==> b[j] in a;
    }
  }

  lemma SameExts(a: seq<Node>, b: seq<Node>, k: Key)
    requires forall n: Node :: n.key == k && n.ext.Some? ==> (n in a <==> n in b)
    ensures Exts(a, k) == Exts(b, k)
  {
  }

  // ---------------------------------------------------------------------------------------
  // The table
  // ---------------------------------------------------------------------------------------

  /** What an allow, deny, auditallow or dontaudit rule does to a word. */
  function Changed(word: Bits, perm: Option<Bit>, invert: bool): Bits {
    match perm
    case None => if invert then {} else ALL
    case Some(b) => if invert then word - {b} else word + {b}
  }

  /** Every key that `hit` selects was changed, and nothing else. None of these keys has a word
      that need not be stored, and no such word is new. */
  ghost predicate Changes(before: seq<Node>, after: seq<Node>, hit: Key -> bool, perm: Option<Bit>, invert: bool) {
    && Shaped(after)
    && (forall k: Key :: !IsXperm(k.effect) ==>
         At(after, k) == if hit(k) then Changed(At(before, k), perm, invert) else At(before, k))
    && (forall k: Key :: Exts(after, k) == Exts(before, k))
    && (forall n: Node :: n in after && Stale(n) ==> n in before && !hit(n.key))
  }

  lemma ChangesNothing(nodes: seq<Node>, hit: Key -> bool, perm: Option<Bit>, invert: bool)
    requires Shaped(nodes) && forall k :: !hit(k)
    ensures Changes(nodes, nodes, hit, perm, invert)
  {
  }

  lemma ChangesTwice(a: seq<Node>, b: seq<Node>, c: seq<Node>,
                     first: Key -> bool, second: Key -> bool, hit: Key -> bool, perm: Option<Bit>, invert: bool)
    requires Changes(a, b, first, perm, invert) && Changes(b, c, second, perm, invert)
    requires forall k :: hit(k) <==> first(k) || second(k)
    ensures Changes(a, c, hit, perm, invert)
  {
    hide At, Exts, Shaped, Stale;
  }

  class Table {
    var nodes: seq<Node>

    ghost predicate Valid()
      reads this
    {
      Shaped(nodes)
    }

    method SearchNode(key: Key) returns (found: Option<nat>)
      ensures found.Some? ==> found.value < |nodes| && nodes[found.value].key == key
      ensures found.None? ==> !Has(nodes, key)
    {
      for i := 0 to |nodes|
        invariant forall j :: 0 <= j < i ==> nodes[j].key != key
      {
        if nodes[i].key == key {
          return Some(i);
        }
      }
      return None;
    }

    method InsertNode(key: Key) returns (i: nat)
      modifies this
      ensures nodes == old(nodes) + [Node(key, Default(key.effect), None)] && i == |old(nodes)|
    {
      i := |nodes|;
      nodes := nodes + [Node(key, if key.effect.AuditDeny? then ALL else {}, None)];
    }

    /** `avtab_remove_node`: walk to the node, join what stands before it and after it. */
    method RemoveNode(node: nat)
      requires node < |nodes|
      modifies this
      ensures nodes == old(nodes)[..node] + old(nodes)[node + 1..]
    {
      var before, cur := [], 0;
      while cur != node
        invariant cur <= node && before == nodes[..cur]
      {
        before := before + [nodes[cur]];
        cur := cur + 1;
      }
      nodes := before + nodes[cur + 1..];
    }

    /** `get_avtab_node` for the unique keys. */
    method GetNode(key: Key) returns (i: nat)
      requires Valid() && !IsXperm(key.effect)
      modifies this
      ensures Shaped(nodes) && i < |nodes| && nodes[i].key == key && nodes[i].ext == None
      ensures nodes[i].data == old(At(nodes, key))
      ensures forall n: Node :: n.key != key ==> (n in nodes <==> n in old(nodes))
    {
      var found := SearchNode(key);
      if found.None? {
        i := InsertNode(key);
      } else {
        i := found.value;
        AtNode(nodes, i);
      }
    }

    /** The innermost part of `add_rule`: one key. */
    method Change(key: Key, perm: Option<Bit>, invert: bool)
      requires Valid() && !IsXperm(key.effect)
      modifies this
      ensures Valid() && Changes(old(nodes), nodes, k => k == key, perm, invert)
    {
      hide Redundant, Changed, At, Exts;
      var i := GetNode(key);
      ghost var got := nodes;
      var data := Changed(nodes[i].data, perm, invert);
      nodes := nodes[i := nodes[i].(data := data)];
      Updated(got, i, data);
      ghost var updated := nodes;
      if Redundant(nodes[i]) {
        RemoveNode(i);
        Removed(updated, i);
        AtMissing(nodes, updated[i]);
      } else {
        AtNode(nodes, i);
        OnlyOne(nodes, i);
      }
      forall k: Key
        ensures Exts(nodes, k) == Exts(old(nodes), k)
        ensures !IsXperm(k.effect) && k != key ==> At(nodes, k) == At(old(nodes), k)
      {
        SameExts(old(nodes), nodes, k);
        if !IsXperm(k.effect) && k != key {
          AtSame(old(nodes), nodes, k);
        }
      }
    }
  }

  lemma Updated(nodes: seq<Node>, i: nat, data: Bits)
    requires Shaped(nodes) && i < |nodes|
    ensures var changed := nodes[i := nodes[i].(data := data)];
            Shaped(changed) && forall n: Node :: n.key != nodes[i].key ==> (n in changed <==> n in nodes)
  {
    var changed := nodes[i := nodes[i].(data := data)];
    forall j, k | 0 <= j < k < |changed| ensures !Clash(changed[j], changed[k]) {
      assert !Clash(nodes[j], nodes[k]);
    }
    forall n: Node | n.key != nodes[i].key ensures n in changed <==> n in nodes {
      if n in nodes {
        var j :| 0 <= j < |nodes| && nodes[j] == n;
        assert changed[j] == n;
      }
    }
  }

  lemma Removed(nodes: seq<Node>, i: nat)
    requires Shaped(nodes) && i < |nodes| && !IsXperm(nodes[i].key.effect)
    ensures var left := nodes[..i] + nodes[i + 1..];
            Shaped(left) && !Has(left, nodes[i].key)
            && forall n: Node :: n.key != nodes[i].key ==> (n in left <==> n in nodes)
  {
    var left := nodes[..i] + nodes[i + 1..];
    assert forall j :: 0 <= j < |left| ==> left[j] == nodes[if j < i then j else j + 1];
    forall j, k | 0 <= j < k < |left| ensures !Clash(left[j], left[k]) {
      assert !Clash(nodes[if j < i then j else j + 1], nodes[if k < i then k else k + 1]);
    }
    forall j | 0 <= j < |left| ensures left[j].key != nodes[i].key {
      assert j < i ==> !Clash(nodes[j], nodes[i]);
      assert j >= i ==> !Clash(nodes[i], nodes[j + 1]);
    }
    forall n: Node | n in nodes && n.key != nodes[i].key ensures n in left {
      var j :| 0 <= j < |nodes| && nodes[j] == n;
      assert left[if j < i then j else j - 1] == n;
    }
  }
}
