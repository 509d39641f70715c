/** Extended ioctl permissions: driver nodes and function nodes, and the set of ioctls they stand for. */
module XpermTable {
  import opened Common
  import opened AvTab
  import opened RuleTable
  import opened PolicyParser

  // ---------------------------------------------------------------------------------------
  // Meaning
  // ---------------------------------------------------------------------------------------

  type Ioctl = x: int | 0 <= x < 0x1_0000

  function DriverOf(x: Ioctl): byte { (x / 256) as byte }

  function FuncOf(x: Ioctl): byte { (x % 256) as byte }

  predicate Permits(e: Ext, x: Ioctl) {
    match e
    case Driver(perms) => DriverOf(x) in perms
    case Function(driver, perms) => driver == DriverOf(x) && FuncOf(x) in perms
  }

  /** The ioctls of a key: the union of its nodes. */
  ghost predicate Permitted(exts: set<Ext>, x: Ioctl) { exists e :: e in exts && Permits(e, x) }

  /** A range counts whole drivers when its ends differ in driver. */
  predicate InRange(p: Xperm, x: Ioctl) {
    if DriverOf(p.low) != DriverOf(p.high) then DriverOf(p.low) <= DriverOf(x) <= DriverOf(p.high)
    else DriverOf(x) == DriverOf(p.low) && FuncOf(p.low) <= FuncOf(x) <= FuncOf(p.high)
  }

  /** What one extended permission makes of the answer for an ioctl. */
  predicate Applied(p: Xperm, x: Ioctl, before: bool) { if p.reset then !InRange(p, x) else before || InRange(p, x) }

  // ---------------------------------------------------------------------------------------
  // Bitmaps
  // ---------------------------------------------------------------------------------------

  function Byte(i: int): byte
    requires 0 <= i < 256
  {
    i as byte
  }

  /** A bitmap filled with ones. */
  function Full(): (s: set<byte>)
    ensures forall b: byte :: b in s
  {
    var s := set i: int | 0 <= i < 256 :: Byte(i);
    assert forall b: byte :: b == Byte(b as int) && b in s;
    s
  }

  method SetRange(perms: set<byte>, low: byte, high: byte) returns (out: set<byte>)
    ensures forall b: byte :: b in out <==> b in perms || low <= b <= high
  {
    out := perms;
    var i := low as int;
    while i <= high as int
      invariant low as int <= i <= 256
      invariant forall b: byte :: b in out <==> b in perms || (low <= b <= high && b as int < i)
    {
      out := out + {i as byte};
      i := i + 1;
    }
  }

  method ClearRange(perms: set<byte>, low: byte, high: byte) returns (out: set<byte>)
    ensures forall b: byte :: b in out <==> b in perms && !(low <= b <= high)
  {
    out := perms;
    var i := low as int;
    while i <= high as int
      invariant low as int <= i <= 256
      invariant forall b: byte :: b in out <==> b in perms && !(low <= b <= high && b as int < i)
    {
      out := out - {i as byte};
      i := i + 1;
    }
  }

  // ---------------------------------------------------------------------------------------
  // The nodes of one key
  // ---------------------------------------------------------------------------------------

  /** Nothing but the nodes of `key` may differ. */
  ghost predicate OnlyKey(before: seq<Node>, after: seq<Node>, key: Key) {
    && Shaped(after)
    && (forall n: Node :: n.key != key ==> (n in after <==> n in before))
  }

  /** The bitmap of the slot of `ext` is now `ext`; other slots are as before. */
  ghost predicate Replaced(before: set<Ext>, after: set<Ext>, ext: Ext) {
    forall e :: e in after <==> e == ext || (Slot(e) != Slot(ext) && e in before)
  }

  /** `perms` is the bitmap of a slot, when its node exists. */
  ghost predicate HasBitmap(exts: set<Ext>, slot: nat, perms: Option<set<byte>>) {
    match perms
    case None => forall e :: e in exts ==> Slot(e) != slot
    case Some(s) =>
      (exists e :: e in exts && Slot(e) == slot) && (forall e :: e in exts && Slot(e) == slot ==> e.perms == s)
  }

  /** At most one node in a slot: the one found there is the only one. */
  ghost predicate InSlot(nodes: seq<Node>, key: Key, slot: nat, i: nat) {
    i < |nodes| && nodes[i].key == key && nodes[i].ext.Some? && Slot(nodes[i].ext.value) == slot
  }

  method FindSlot(table: Table, key: Key, slot: nat) returns (found: Option<nat>)
    ensures found.Some? ==> InSlot(table.nodes, key, slot, found.value)
    ensures found.None? ==> forall i: nat :: !InSlot(table.nodes, key, slot, i)
  {
    for i := 0 to |table.nodes|
      invariant forall j: nat :: j < i ==> !InSlot(table.nodes, key, slot, j)
    {
      var n := table.nodes[i];
      if n.key == key && n.ext.Some? && Slot(n.ext.value) == slot {
        return Some(i);
      }
    }
    return None;
  }

  /** Store the bitmap of a slot, in the node that is there or in a new one. */
  method Put(table: Table, key: Key, ext: Ext)
    requires table.Valid() && IsXperm(key.effect)
    modifies table
    ensures OnlyKey(old(table.nodes), table.nodes, key) && table.Valid()
    ensures Replaced(old(Exts(table.nodes, key)), Exts(table.nodes, key), ext)
  {
    var found := FindSlot(table, key, Slot(ext));
    if found.Some? {
      PutFound(table.nodes, found.value, key, ext);
      table.nodes := table.nodes[found.value := table.nodes[found.value].(ext := Some(ext))];
    } else {
      PutNew(table.nodes, key, ext);
      var i := table.InsertNode(key);
      table.nodes := table.nodes[i := table.nodes[i].(ext := Some(ext))];
      assert table.nodes == old(table.nodes) + [Node(key, {}, Some(ext))];
    }
  }

  lemma PutFound(nodes: seq<Node>, i: nat, key: Key, ext: Ext)
    requires Shaped(nodes) && IsXperm(key.effect) && InSlot(nodes, key, Slot(ext), i)
    ensures var after := nodes[i := nodes[i].(ext := Some(ext))];
            OnlyKey(nodes, after, key)
            && Replaced(Exts(nodes, key), Exts(after, key), ext)
  {
    var after := nodes[i := nodes[i].(ext := Some(ext))];
    forall j, k | 0 <= j < k < |after| ensures !Clash(after[j], after[k]) {
      assert !Clash(nodes[j], nodes[k]);
    }
    assert after[i] in after;
    forall n: Node | n in nodes && n != nodes[i] ensures n in after && !Clash(n, nodes[i]) {
      var j :| 0 <= j < |nodes| && nodes[j] == n;
      assert after[j] == n;
      assert j < i ==> !Clash(nodes[j], nodes[i]);
      assert j > i ==> !Clash(nodes[i], nodes[j]);
    }
    forall n: Node | n in after && n != after[i] ensures n in nodes && n != nodes[i] {
      var j :| 0 <= j < |after| && after[j] == n;
      assert nodes[j] == n;
      assert j < i ==> !Clash(nodes[j], nodes[i]);
      assert j > i ==> !Clash(nodes[i], nodes[j]);
    }
  }

  lemma PutNew(nodes: seq<Node>, key: Key, ext: Ext)
    requires Shaped(nodes) && IsXperm(key.effect) && forall i: nat :: !InSlot(nodes, key, Slot(ext), i)
    ensures var after := nodes + [Node(key, {}, Some(ext))];
            OnlyKey(nodes, after, key)
            && Replaced(Exts(nodes, key), Exts(after, key), ext)
  {
    var after := nodes + [Node(key, {}, Some(ext))];
    assert after[|nodes|] in after;
    forall j | 0 <= j < |nodes| ensures !Clash(nodes[j], after[|nodes|]) {
      assert !InSlot(nodes, key, Slot(ext), j);
    }
    forall n: Node | n in nodes && n.key == key && n.ext.Some? ensures Slot(n.ext.value) != Slot(ext) {
      var j :| 0 <= j < |nodes| && nodes[j] == n;
      assert !InSlot(nodes, key, Slot(ext), j);
    }
  }

  /** Remove the node of a slot. */
  method Drop(table: Table, key: Key, slot: nat)
    requires table.Valid() && IsXperm(key.effect)
    modifies table
    ensures OnlyKey(old(table.nodes), table.nodes, key) && table.Valid()
    ensures forall e :: e in Exts(table.nodes, key) <==> Slot(e) != slot && e in old(Exts(table.nodes, key))
  {
    var found := FindSlot(table, key, slot);
    if found.Some? {
      DropFound(table.nodes, found.value, key, slot);
      table.RemoveNode(found.value);
    } else {
      forall n: Node | n in table.nodes && n.key == key && n.ext.Some? ensures Slot(n.ext.value) != slot {
        var j :| 0 <= j < |table.nodes| && table.nodes[j] == n;
        assert !InSlot(table.nodes, key, slot, j);
      }
    }
  }

  lemma DropFound(nodes: seq<Node>, i: nat, key: Key, slot: nat)
    requires Shaped(nodes) && IsXperm(key.effect) && InSlot(nodes, key, slot, i)
    ensures var after := nodes[..i] + nodes[i + 1..];
            OnlyKey(nodes, after, key)
            && forall e :: e in Exts(after, key) <==> Slot(e) != slot && e in Exts(nodes, key)
  {
    var after := nodes[..i] + nodes[i + 1..];
    assert forall j :: 0 <= j < |after| ==> after[j] == nodes[if j < i then j else j + 1];
    forall j, k | 0 <= j < k < |after| ensures !Clash(after[j], after[k]) {
      assert !Clash(nodes[if j < i then j else j + 1], nodes[if k < i then k else k + 1]);
    }
    forall j | 0 <= j < |after| ensures !Clash(after[j], nodes[i]) {
      assert j < i ==> !Clash(nodes[j], nodes[i]);
      assert j >= i ==> !Clash(nodes[i], nodes[j + 1]);
    }
    forall n: Node | n in nodes && n != nodes[i] ensures n in after {
      var j :| 0 <= j < |nodes| && nodes[j] == n;
      assert after[if j < i then j else j - 1] == n;
    }
  }

  lemma OnlyKeyTwice(a: seq<Node>, b: seq<Node>, c: seq<Node>, key: Key)
    requires OnlyKey(a, b, key) && OnlyKey(b, c, key)
    ensures OnlyKey(a, c, key)
  {
    hide Shaped;
  }

  method Bitmap(table: Table, key: Key, slot: nat) returns (perms: Option<set<byte>>)
    requires table.Valid() && IsXperm(key.effect)
    ensures HasBitmap(Exts(table.nodes, key), slot, perms)
  {
    var found := FindSlot(table, key, slot);
    if found.Some? {
      ghost var i := found.value;
      var n := table.nodes[found.value];
      perms := Some(n.ext.value.perms);
      assert n in table.nodes && n.ext.value in Exts(table.nodes, key);
      forall m: Node | m in table.nodes && m.key == key && m.ext.Some? && Slot(m.ext.value) == slot ensures m == n {
        var j :| 0 <= j < |table.nodes| && table.nodes[j] == m;
        if j < i {
          assert Clash(table.nodes[j], table.nodes[i]);
        } else if j > i {
          assert Clash(table.nodes[i], table.nodes[j]);
        }
      }
    } else {
      perms := None;
      forall n: Node | n in table.nodes && n.key == key && n.ext.Some? ensures Slot(n.ext.value) != slot {
        var j :| 0 <= j < |table.nodes| && table.nodes[j] == n;
        assert !InSlot(table.nodes, key, slot, j);
      }
    }
  }

  function OrEmpty(perms: Option<set<byte>>): set<byte> { if perms.Some? then perms.value else {} }

  /** The innermost part of `add_xperm_rule`: one key. */
  method ChangeXperm(table: Table, key: Key, p: Xperm)
    requires table.Valid() && IsXperm(key.effect)
    modifies table
    ensures OnlyKey(old(table.nodes), table.nodes, key) && table.Valid()
    ensures forall x: Ioctl ::
      Permitted(Exts(table.nodes, key), x) <==> Applied(p, x, Permitted(old(Exts(table.nodes, key)), x))
  {
    if p.reset {
      Reset(table, key, p);
    } else {
      Add(table, key, p);
    }
  }

  method Add(table: Table, key: Key, p: Xperm)
    requires table.Valid() && IsXperm(key.effect)
    modifies table
    ensures OnlyKey(old(table.nodes), table.nodes, key) && table.Valid()
    ensures forall x: Ioctl ::
      Permitted(Exts(table.nodes, key), x) <==> Permitted(old(Exts(table.nodes, key)), x) || InRange(p, x)
  {
    hide Shaped, Exts, OnlyKey;
    var low, high := DriverOf(p.low), DriverOf(p.high);
    if low != high {
      var found := Bitmap(table, key, 256);
      var perms := SetRange(OrEmpty(found), low, high);
      Put(table, key, Driver(perms));
      Added(old(Exts(table.nodes, key)), Exts(table.nodes, key), found, Driver(perms), p);
    } else {
      var found := Bitmap(table, key, low as nat);
      var perms := SetRange(OrEmpty(found), FuncOf(p.low), FuncOf(p.high));
      Put(table, key, Function(low, perms));
      Added(old(Exts(table.nodes, key)), Exts(table.nodes, key), found, Function(low, perms), p);
    }
  }

  lemma Added(before: set<Ext>, after: set<Ext>, found: Option<set<byte>>, ext: Ext, p: Xperm)
    requires HasBitmap(before, Slot(ext), found) && Replaced(before, after, ext)
    requires forall x: Ioctl :: Permits(ext, x) <==> Permits(ext.(perms := OrEmpty(found)), x) || InRange(p, x)
    ensures forall x: Ioctl :: Permitted(after, x) <==> Permitted(before, x) || InRange(p, x)
  {
    hide InRange;
    forall x: Ioctl ensures Permitted(after, x) <==> Permitted(before, x) || InRange(p, x) {
      if e :| e in before && Permits(e, x) {
        assert Slot(e) == Slot(ext) ==> e == ext.(perms := OrEmpty(found));
        assert e in after || Permits(ext, x);
      }
      assert ext in after;
      if Permits(ext.(perms := OrEmpty(found)), x) {
        assert found.Some?;
        assert ext.(perms := found.value) in before;
      }
    }
  }

  method Reset(table: Table, key: Key, p: Xperm)
    requires table.Valid() && IsXperm(key.effect)
    modifies table
    ensures OnlyKey(old(table.nodes), table.nodes, key) && table.Valid()
    ensures forall x: Ioctl :: Permitted(Exts(table.nodes, key), x) <==> !InRange(p, x)
  {
    hide Shaped, Exts, OnlyKey;
    DropFunctions(table, key);
    ghost var dropped := table.nodes;
    var low, high := DriverOf(p.low), DriverOf(p.high);
    if low != high {
      var drivers := ClearRange(Full(), low, high);
      Put(table, key, Driver(drivers));
      forall x: Ioctl ensures Permitted(Exts(table.nodes, key), x) <==> !InRange(p, x) {
        OneOrTwo(Exts(table.nodes, key), Driver(drivers), Driver(drivers), x);
      }
    } else {
      Put(table, key, Driver(Full() - {low}));
      ghost var mid := table.nodes;
      assert forall e :: e in Exts(table.nodes, key) <==> e == Driver(Full() - {low});
      var funcs := ClearRange(Full(), FuncOf(p.low), FuncOf(p.high));
      Put(table, key, Function(low, funcs));
      forall x: Ioctl ensures Permitted(Exts(table.nodes, key), x) <==> !InRange(p, x) {
        OneOrTwo(Exts(table.nodes, key), Driver(Full() - {low}), Function(low, funcs), x);
      }
      OnlyKeyTwice(dropped, mid, table.nodes, key);
    }
    OnlyKeyTwice(old(table.nodes), dropped, table.nodes, key);
  }

  lemma OneOrTwo(exts: set<Ext>, a: Ext, b: Ext, x: Ioctl)
    requires forall e :: e in exts <==> e == a || e == b
    ensures Permitted(exts, x) <==> Permits(a, x) || Permits(b, x)
  {
    assert a in exts && b in exts;
  }

  /** The loop that removes the function nodes; the driver node is refilled by the caller. */
  method DropFunctions(table: Table, key: Key)
    requires table.Valid() && IsXperm(key.effect)
    modifies table
    ensures OnlyKey(old(table.nodes), table.nodes, key) && table.Valid()
    ensures forall e :: e in Exts(table.nodes, key) ==> Slot(e) == 256
  {
    hide Shaped, Exts, OnlyKey;
    OnlyKeyNone(table.nodes, key);
    for i := 0 to 256
      invariant OnlyKey(old(table.nodes), table.nodes, key) && table.Valid()
      invariant forall e :: e in Exts(table.nodes, key) ==> Slot(e) >= i
    {
      ghost var before := table.nodes;
      Drop(table, key, i);
      OnlyKeyTwice(old(table.nodes), before, table.nodes, key);
    }
  }

  lemma OnlyKeyNone(nodes: seq<Node>, key: Key)
    requires Shaped(nodes)
    ensures OnlyKey(nodes, nodes, key)
  {
  }

  // ---------------------------------------------------------------------------------------
  // Rules with wildcards
  // ---------------------------------------------------------------------------------------

  /** Every key that `hit` selects had the extended permission applied, and nothing else changed. */
  ghost predicate XChanges(before: seq<Node>, after: seq<Node>, hit: Key -> bool, p: Xperm) {
    && Shaped(after)
    && (forall k: Key, x: Ioctl :: IsXperm(k.effect) ==>
         (Permitted(Exts(after, k), x) <==>
          if hit(k) then Applied(p, x, Permitted(Exts(before, k), x)) else Permitted(Exts(before, k), x)))
    && (forall k: Key :: !IsXperm(k.effect) ==> At(after, k) == At(before, k))
    && (forall n: Node :: !IsXperm(n.key.effect) ==> (n in after <==> n in before))
  }

  lemma XChangesNothing(nodes: seq<Node>, hit: Key -> bool, p: Xperm)
    requires Shaped(nodes) && forall k :: !hit(k)
    ensures XChanges(nodes, nodes, hit, p)
  {
    hide At, Exts, Permitted, Applied, Shaped;
  }

  lemma XChangesTwice(a: seq<Node>, b: seq<Node>, c: seq<Node>,
                      first: Key -> bool, second: Key -> bool, hit: Key -> bool, p: Xperm)
    requires XChanges(a, b, first, p) && XChanges(b, c, second, p)
    requires forall k :: hit(k) <==> first(k) || second(k)
    ensures XChanges(a, c, hit, p)
  {
    hide At, Exts, Permitted, InRange, Shaped;
  }

  lemma XChangesOne(before: seq<Node>, after: seq<Node>, key: Key, hit: Key -> bool, p: Xperm)
    requires Shaped(before) && IsXperm(key.effect) && OnlyKey(before, after, key)
    requires forall x: Ioctl :: Permitted(Exts(after, key), x) <==> Applied(p, x, Permitted(Exts(before, key), x))
    requires forall k :: hit(k) <==> k == key
    ensures XChanges(before, after, hit, p)
  {
    hide At, Exts, Permitted, Applied;
    forall k: Key | k != key
      ensures Exts(after, k) == Exts(before, k)
      ensures !IsXperm(k.effect) ==> At(after, k) == At(before, k)
    {
      SameExts(after, before, k);
      if !IsXperm(k.effect) {
        AtSame(after, before, k);
      }
    }
  }

  class XpermPolicy {
    const db: Symbols
    const table: Table
    /** The policy version knows ioctl rules. */
    const supported: bool

    constructor (db: Symbols, table: Table, supported: bool)
      ensures this.db == db && this.table == table && this.supported == supported
    {
      this.db := db;
      this.table := table;
      this.supported := supported;
    }

    /** `add_xperm_rule` on the symbols. A wildcard type stands for every attribute. */
    method AddXpermRule(src: Option<nat>, tgt: Option<nat>, cls: Option<nat>, p: Xperm, effect: Effect)
      requires table.Valid() && IsXperm(effect)
      modifies table
      ensures table.Valid()
      ensures XChanges(old(table.nodes), table.nodes, XHits(db, supported, src, tgt, cls, effect), p)
      decreases (if src.None? then 1 else 0) + (if tgt.None? then 1 else 0) + (if cls.None? then 1 else 0)
    {
      hide XChanges, Shaped, Applied, OnlyKey, Exts;
      if !supported {
        XChangesNothing(table.nodes, XHits(db, supported, src, tgt, cls, effect), p);
      } else if src.None? {
        ForSources(tgt, cls, p, effect);
      } else if tgt.None? {
        ForTargets(src.value, cls, p, effect);
      } else if cls.None? {
        ForClasses(src.value, tgt.value, p, effect);
      } else {
        var key := Key(src.value, tgt.value, cls.value, effect);
        ChangeXperm(table, key, p);
        XChangesOne(old(table.nodes), table.nodes, key, XHits(db, supported, src, tgt, cls, effect), p);
      }
    }

    /** The arm for a wildcard source. */
    method ForSources(tgt: Option<nat>, cls: Option<nat>, p: Xperm, effect: Effect)
      requires supported && table.Valid() && IsXperm(effect)
      modifies table
      ensures table.Valid()
      ensures XChanges(old(table.nodes), table.nodes, XHits(db, supported, None, tgt, cls, effect), p)
      decreases (if tgt.None? then 1 else 0) + (if cls.None? then 1 else 0) + 1, 0
    {
      hide XChanges, Shaped, Values, ClassValues;
      ghost var tgts, classes := TypeSet(db, tgt, false), ClassSet(db, cls);
      NoValues(false);
      XChangesNothing(table.nodes, Box(Values(db.types[..0], false), tgts, classes, effect), p);
      for i := 0 to |db.types|
        invariant table.Valid()
        invariant XChanges(old(table.nodes), table.nodes, Box(Values(db.types[..i], false), tgts, classes, effect), p)
      {
        var t := db.types[i];
        ValuesStep(db.types, i, false);
        if t.isAttribute {
          ghost var before := table.nodes;
          AddXpermRule(Some(t.value), tgt, cls, p, effect);
          XChangesTwice(old(table.nodes), before, table.nodes,
            Box(Values(db.types[..i], false), tgts, classes, effect), Box({t.value}, tgts, classes, effect),
            Box(Values(db.types[..i + 1], false), tgts, classes, effect), p);
        }
      }
      assert db.types[..|db.types|] == db.types;
    }

    /** The arm for a wildcard target. */
    method ForTargets(src: nat, cls: Option<nat>, p: Xperm, effect: Effect)
      requires supported && table.Valid() && IsXperm(effect)
      modifies table
      ensures table.Valid()
      ensures XChanges(old(table.nodes), table.nodes, XHits(db, supported, Some(src), None, cls, effect), p)
      decreases (if cls.None? then 1 else 0) + 1, 0
    {
      hide XChanges, Shaped, Values, ClassValues;
      ghost var classes := ClassSet(db, cls);
      NoValues(false);
      XChangesNothing(table.nodes, Box({src}, Values(db.types[..0], false), classes, effect), p);
      for i := 0 to |db.types|
        invariant table.Valid()
        invariant XChanges(old(table.nodes), table.nodes, Box({src}, Values(db.types[..i], false), classes, effect), p)
      {
        var t := db.types[i];
        ValuesStep(db.types, i, false);
        if t.isAttribute {
          ghost var before := table.nodes;
          AddXpermRule(Some(src), Some(t.value), cls, p, effect);
          XChangesTwice(old(table.nodes), before, table.nodes,
            Box({src}, Values(db.types[..i], false), classes, effect), Box({src}, {t.value}, classes, effect),
            Box({src}, Values(db.types[..i + 1], false), classes, effect), p);
        }
      }
      assert db.types[..|db.types|] == db.types;
    }

    /** The arm for a wildcard class. */
    method ForClasses(src: nat, tgt: nat, p: Xperm, effect: Effect)
      requires supported && table.Valid() && IsXperm(effect)
      modifies table
      ensures table.Valid()
      ensures XChanges(old(table.nodes), table.nodes, XHits(db, supported, Some(src), Some(tgt), None, effect), p)
      decreases 1, 0
    {
      hide XChanges, Shaped, Values, ClassValues;
      NoValues(false);
      XChangesNothing(table.nodes, Box({src}, {tgt}, ClassValues(db.classes[..0]), effect), p);
      for i := 0 to |db.classes|
        invariant table.Valid()
        invariant XChanges(old(table.nodes), table.nodes, Box({src}, {tgt}, ClassValues(db.classes[..i]), effect), p)
      {
        var t := db.classes[i];
        ClassValuesStep(db.classes, i);
        ghost var before := table.nodes;
        AddXpermRule(Some(src), Some(tgt), Some(t.value), p, effect);
        XChangesTwice(old(table.nodes), before, table.nodes,
          Box({src}, {tgt}, ClassValues(db.classes[..i]), effect), Box({src}, {tgt}, {t.value}, effect),
          Box({src}, {tgt}, ClassValues(db.classes[..i + 1]), effect), p);
      }
      assert db.classes[..|db.classes|] == db.classes;
    }

    /** `add_xperm_rule` on names. */
    method AddNamedXpermRule(r: XRule) returns (ok: bool)
      requires table.Valid() && IsXperm(r.effect)
      modifies table
      ensures table.Valid() && ok == XResolves(db, r)
      ensures XActs(db, supported, [r], old(table.nodes), table.nodes)
    {
      hide XActs, Shaped, XChanges, XHits;
      if (r.src != "" && FindType(db.types, r.src).None?)
        || (r.tgt != "" && FindType(db.types, r.tgt).None?)
        || (r.cls != "" && FindClass(db.classes, r.cls).None?)
      {
        XActsUnresolved(db, supported, r, table.nodes);
        return false;
      }
      AddXpermRule(TypeValue(db, r.src), TypeValue(db, r.tgt), XClassValue(db, r), r.xperm, r.effect);
      XActsAsChanges(db, supported, r, old(table.nodes), table.nodes);
      return true;
    }

    /** `allowxperm`, `auditallowxperm` and `dontauditxperm`. */
    method RunXperm(st: XStatement)
      requires table.Valid() && IsXperm(st.effect)
      modifies table
      ensures table.Valid()
      ensures XActs(db, supported, XExpand(st), old(table.nodes), table.nodes)
    {
      hide XActs, Shaped, XExpand;
      var rules := XExpand(st);
      XActsNothing(db, supported, table.nodes);
      for i := 0 to |rules|
        invariant table.Valid()
        invariant XActs(db, supported, rules[..i], old(table.nodes), table.nodes)
      {
        ghost var before := table.nodes;
        var _ := AddNamedXpermRule(rules[i]);
        XActsAppend(db, supported, rules[..i], [rules[i]], old(table.nodes), before, table.nodes);
        assert rules[..i + 1] == rules[..i] + [rules[i]];
      }
      assert rules[..|rules|] == rules;
    }
  }

  ghost function XHits(db: Symbols, supported: bool, src: Option<nat>, tgt: Option<nat>, cls: Option<nat>,
                       effect: Effect): Key -> bool
  {
    if supported then Box(TypeSet(db, src, false), TypeSet(db, tgt, false), ClassSet(db, cls), effect)
    else (k: Key) => false
  }

  // ---------------------------------------------------------------------------------------
  // Statements
  // ---------------------------------------------------------------------------------------

  datatype XRule = XRule(src: string, tgt: string, cls: string, xperm: Xperm, effect: Effect)

  datatype XStatement = XStatement(
    src: seq<string>, tgt: seq<string>, cls: seq<string>, xperms: seq<Xperm>, effect: Effect)

  predicate XResolves(db: Symbols, r: XRule) {
    TypeKnown(db, r.src) && TypeKnown(db, r.tgt) && (r.cls == "" || FindClass(db.classes, r.cls).Some?)
  }

  function XClassValue(db: Symbols, r: XRule): Option<nat>
    requires XResolves(db, r)
  {
    if r.cls == "" then None else Some(FindClass(db.classes, r.cls).value.value)
  }

  ghost predicate XTouches(db: Symbols, supported: bool, r: XRule, k: Key) {
    && XResolves(db, r)
    && XHits(db, supported, TypeValue(db, r.src), TypeValue(db, r.tgt), XClassValue(db, r), r.effect)(k)
  }

  /** Whether an ioctl is permitted for a key after a list of rules. */
  ghost predicate IoctlAfter(db: Symbols, supported: bool, rules: seq<XRule>, k: Key, x: Ioctl, before: bool) {
    if rules == [] then before
    else
      var last := rules[|rules| - 1];
      var now := IoctlAfter(db, supported, rules[..|rules| - 1], k, x, before);
      if XTouches(db, supported, last, k) then Applied(last.xperm, x, now) else now
  }

  ghost predicate XActs(db: Symbols, supported: bool, rules: seq<XRule>, before: seq<Node>, after: seq<Node>) {
    && (forall k: Key, x: Ioctl :: IsXperm(k.effect) ==>
         (Permitted(Exts(after, k), x) <==> IoctlAfter(db, supported, rules, k, x, Permitted(Exts(before, k), x))))
    && (forall k: Key :: !IsXperm(k.effect) ==> At(after, k) == At(before, k))
    && (forall n: Node :: !IsXperm(n.key.effect) ==> (n in after <==> n in before))
  }

  lemma XActsNothing(db: Symbols, supported: bool, nodes: seq<Node>)
    ensures XActs(db, supported, [], nodes, nodes)
  {
    hide At, Exts, Permitted;
  }

  lemma IoctlAfterOne(db: Symbols, supported: bool, r: XRule, k: Key, x: Ioctl, before: bool)
    ensures IoctlAfter(db, supported, [r], k, x, before) ==
            if XTouches(db, supported, r, k) then Applied(r.xperm, x, before) else before
  {
    hide XTouches, Applied;
    assert [r][..|[r]| - 1] == [];
  }

  lemma XActsUnresolved(db: Symbols, supported: bool, r: XRule, nodes: seq<Node>)
    requires !XResolves(db, r)
    ensures XActs(db, supported, [r], nodes, nodes)
  {
    hide At, Exts, Permitted, XResolves, IoctlAfter;
    forall k: Key, x: Ioctl, b: bool ensures IoctlAfter(db, supported, [r], k, x, b) == b {
      IoctlAfterOne(db, supported, r, k, x, b);
    }
  }

  lemma XActsAsChanges(db: Symbols, supported: bool, r: XRule, before: seq<Node>, after: seq<Node>)
    requires XResolves(db, r)
    requires XChanges(before, after,
               XHits(db, supported, TypeValue(db, r.src), TypeValue(db, r.tgt), XClassValue(db, r), r.effect), r.xperm)
    ensures XActs(db, supported, [r], before, after)
  {
    hide At, Exts, Permitted, IoctlAfter, XHits, Shaped, Applied;
    forall k: Key, x: Ioctl, b: bool
      ensures IoctlAfter(db, supported, [r], k, x, b) ==
              if XTouches(db, supported, r, k) then Applied(r.xperm, x, b) else b
    {
      IoctlAfterOne(db, supported, r, k, x, b);
    }
  }

  lemma {:induction false} IoctlAfterAppend(db: Symbols, supported: bool, a: seq<XRule>, b: seq<XRule>,
                                            k: Key, x: Ioctl, before: bool)
    ensures IoctlAfter(db, supported, a + b, k, x, before) ==
            IoctlAfter(db, supported, b, k, x, IoctlAfter(db, supported, a, k, x, before))
    decreases |b|
  {
    hide XTouches, Applied;
    if b == [] {
      assert a + b == a;
    } else {
      assert (a + b)[..|a + b| - 1] == a + b[..|b| - 1];
      IoctlAfterAppend(db, supported, a, b[..|b| - 1], k, x, before);
    }
  }

  lemma XActsAppend(db: Symbols, supported: bool, r: seq<XRule>, s: seq<XRule>,
                    a: seq<Node>, b: seq<Node>, c: seq<Node>)
    requires XActs(db, supported, r, a, b) && XActs(db, supported, s, b, c)
    ensures XActs(db, supported, r + s, a, c)
  {
    hide At, Exts, Permitted, IoctlAfter;
    forall k: Key, x: Ioctl, v: bool
      ensures IoctlAfter(db, supported, r + s, k, x, v) ==
              IoctlAfter(db, supported, s, k, x, IoctlAfter(db, supported, r, k, x, v))
    {
      IoctlAfterAppend(db, supported, r, s, k, x, v);
    }
  }

  // `expand`: the extended permissions are the innermost list, and an empty one is no wildcard.

  function XExpand(st: XStatement): (rules: seq<XRule>)
    ensures forall i :: 0 <= i < |rules| ==> rules[i].effect == st.effect
  {
    XExpandSrc(st, OrWild(st.src))
  }

  function XExpandSrc(st: XStatement, srcs: seq<string>): (rules: seq<XRule>)
    ensures forall i :: 0 <= i < |rules| ==> rules[i].effect == st.effect
  {
    if srcs == [] then [] else XExpandTgt(st, srcs[0], OrWild(st.tgt)) + XExpandSrc(st, srcs[1..])
  }

  function XExpandTgt(st: XStatement, src: string, tgts: seq<string>): (rules: seq<XRule>)
    ensures forall i :: 0 <= i < |rules| ==> rules[i].effect == st.effect
  {
    if tgts == [] then [] else XExpandCls(st, src, tgts[0], OrWild(st.cls)) + XExpandTgt(st, src, tgts[1..])
  }

  function XExpandCls(st: XStatement, src: string, tgt: string, classes: seq<string>): (rules: seq<XRule>)
    ensures forall i :: 0 <= i < |rules| ==> rules[i].effect == st.effect
  {
    if classes == [] then []
    else WithXperms(st, src, tgt, classes[0], st.xperms) + XExpandCls(st, src, tgt, classes[1..])
  }

  function WithXperms(st: XStatement, src: string, tgt: string, cls: string, xperms: seq<Xperm>): (rules: seq<XRule>)
    ensures forall i :: 0 <= i < |rules| ==> rules[i].effect == st.effect
  {
    if xperms == [] then []
    else WithXperms(st, src, tgt, cls, xperms[..|xperms| - 1])
         + [XRule(src, tgt, cls, xperms[|xperms| - 1], st.effect)]
  }

  /** What the extended permissions of a list, one after the other, make of the answer for an ioctl. */
  predicate Fold(xperms: seq<Xperm>, x: Ioctl, before: bool) {
    if xperms == [] then before
    else Applied(xperms[|xperms| - 1], x, Fold(xperms[..|xperms| - 1], x, before))
  }

  /** A list that was just applied changes nothing when applied again. */
  lemma {:induction false} FoldTwice(xperms: seq<Xperm>, x: Ioctl, before: bool)
    ensures Fold(xperms, x, Fold(xperms, x, before)) == Fold(xperms, x, before)
  {
    hide Applied;
    FoldMonotone(xperms, x);
  }

  lemma {:induction false} FoldMonotone(xperms: seq<Xperm>, x: Ioctl)
    ensures Fold(xperms, x, false) ==> Fold(xperms, x, true)
  {
    hide InRange;
    if xperms != [] {
      FoldMonotone(xperms[..|xperms| - 1], x);
    }
  }

  /** Some choice of names in the statement selects the key. */
  ghost predicate XReaches(db: Symbols, supported: bool, st: XStatement, k: Key) {
    exists s, t, c :: s in OrWild(st.src) && t in OrWild(st.tgt) && c in OrWild(st.cls)
      && Selects(db, supported, s, t, c, st.effect, k)
  }

  ghost predicate Selects(db: Symbols, supported: bool, src: string, tgt: string, cls: string, effect: Effect, k: Key) {
    XTouches(db, supported, XRule(src, tgt, cls, Xperm(0, 0, false), effect), k)
  }

  lemma {:induction false} WithXpermsFolds(db: Symbols, supported: bool, st: XStatement,
      src: string, tgt: string, cls: string, xperms: seq<Xperm>, k: Key, x: Ioctl, before: bool)
    ensures IoctlAfter(db, supported, WithXperms(st, src, tgt, cls, xperms), k, x, before) ==
            if Selects(db, supported, src, tgt, cls, st.effect, k) then Fold(xperms, x, before) else before
  {
    hide XHits, Applied, FindType, FindClass;
    if xperms != [] {
      var init := xperms[..|xperms| - 1];
      WithXpermsFolds(db, supported, st, src, tgt, cls, init, k, x, before);
      var rules := WithXperms(st, src, tgt, cls, xperms);
      assert rules[..|rules| - 1] == WithXperms(st, src, tgt, cls, init);
    }
  }

  lemma {:induction false} XExpandClsFolds(db: Symbols, supported: bool, st: XStatement,
      src: string, tgt: string, classes: seq<string>, k: Key, x: Ioctl, before: bool)
    ensures IoctlAfter(db, supported, XExpandCls(st, src, tgt, classes), k, x, before) ==
            if exists c :: c in classes && Selects(db, supported, src, tgt, c, st.effect, k)
            then Fold(st.xperms, x, before) else before
  {
    hide IoctlAfter, Selects, WithXperms, Fold;
    if classes == [] {
      EmptyRules(db, supported, k, x, before);
    } else {
      var here := WithXperms(st, src, tgt, classes[0], st.xperms);
      IoctlAfterAppend(db, supported, here, XExpandCls(st, src, tgt, classes[1..]), k, x, before);
      WithXpermsFolds(db, supported, st, src, tgt, classes[0], st.xperms, k, x, before);
      var mid := IoctlAfter(db, supported, here, k, x, before);
      XExpandClsFolds(db, supported, st, src, tgt, classes[1..], k, x, mid);
      FoldTwice(st.xperms, x, before);
      assert forall c :: c in classes <==> c == classes[0] || c in classes[1..];
    }
  }

  lemma EmptyRules(db: Symbols, supported: bool, k: Key, x: Ioctl, before: bool)
    ensures IoctlAfter(db, supported, [], k, x, before) == before
  {
  }

  lemma {:induction false} XExpandTgtFolds(db: Symbols, supported: bool, st: XStatement,
      src: string, tgts: seq<string>, k: Key, x: Ioctl, before: bool)
    ensures IoctlAfter(db, supported, XExpandTgt(st, src, tgts), k, x, before) ==
            if exists t, c :: t in tgts && c in OrWild(st.cls) && Selects(db, supported, src, t, c, st.effect, k)
            then Fold(st.xperms, x, before) else before
  {
    hide IoctlAfter, Selects, XExpandCls, Fold, OrWild;
    if tgts == [] {
      EmptyRules(db, supported, k, x, before);
    } else {
      var here := XExpandCls(st, src, tgts[0], OrWild(st.cls));
      IoctlAfterAppend(db, supported, here, XExpandTgt(st, src, tgts[1..]), k, x, before);
      XExpandClsFolds(db, supported, st, src, tgts[0], OrWild(st.cls), k, x, before);
      var mid := IoctlAfter(db, supported, here, k, x, before);
      XExpandTgtFolds(db, supported, st, src, tgts[1..], k, x, mid);
      FoldTwice(st.xperms, x, before);
      assert forall t :: t in tgts <==> t == tgts[0] || t in tgts[1..];
    }
  }

  lemma {:induction false} XExpandSrcFolds(db: Symbols, supported: bool, st: XStatement,
      srcs: seq<string>, k: Key, x: Ioctl, before: bool)
    ensures IoctlAfter(db, supported, XExpandSrc(st, srcs), k, x, before) ==
            if exists s, t, c :: s in srcs && t in OrWild(st.tgt) && c in OrWild(st.cls)
                 && Selects(db, supported, s, t, c, st.effect, k)
            then Fold(st.xperms, x, before) else before
  {
    hide IoctlAfter, Selects, XExpandTgt, Fold, OrWild;
    if srcs == [] {
      EmptyRules(db, supported, k, x, before);
    } else {
      var here := XExpandTgt(st, srcs[0], OrWild(st.tgt));
      IoctlAfterAppend(db, supported, here, XExpandSrc(st, srcs[1..]), k, x, before);
      XExpandTgtFolds(db, supported, st, srcs[0], OrWild(st.tgt), k, x, before);
      var mid := IoctlAfter(db, supported, here, k, x, before);
      XExpandSrcFolds(db, supported, st, srcs[1..], k, x, mid);
      FoldTwice(st.xperms, x, before);
      assert forall s :: s in srcs <==> s == srcs[0] || s in srcs[1..];
    }
  }

  /** A statement applies its list once to every key it reaches, however often it reaches it. */
  lemma XpermStatementIsPointwise(db: Symbols, supported: bool, st: XStatement, k: Key, x: Ioctl, before: bool)
    ensures IoctlAfter(db, supported, XExpand(st), k, x, before) ==
            if XReaches(db, supported, st, k) then Fold(st.xperms, x, before) else before
  {
    hide IoctlAfter, Selects, XExpandSrc, Fold, OrWild;
    XExpandSrcFolds(db, supported, st, OrWild(st.src), k, x, before);
  }

  // Lists as the parser makes them: one reset flag for all.

  predicate InAny(xperms: seq<Xperm>, x: Ioctl) { exists i :: 0 <= i < |xperms| && InRange(xperms[i], x) }

  /** A plain list adds exactly the union of its ranges. */
  lemma {:induction false} PlainListAdds(xperms: seq<Xperm>, x: Ioctl, before: bool)
    requires forall i :: 0 <= i < |xperms| ==> !xperms[i].reset
    ensures Fold(xperms, x, before) <==> before || InAny(xperms, x)
  {
    hide InRange;
    if xperms != [] {
      var init := xperms[..|xperms| - 1];
      PlainListAdds(init, x, before);
      assert InAny(init, x) ==> InAny(xperms, x);
      assert xperms == init + [xperms[|xperms| - 1]];
    }
  }

  /** A `~{...}` list leaves the complement of its last range, whatever was there and whatever stands before it. */
  lemma ResetListKeepsLast(xperms: seq<Xperm>, x: Ioctl, before: bool)
    requires xperms != [] && forall i :: 0 <= i < |xperms| ==> xperms[i].reset
    ensures Fold(xperms, x, before) <==> !InRange(xperms[|xperms| - 1], x)
  {
  }

  /** So it is the complement of the whole list exactly when the last range covers the others. */
  lemma ResetListIsComplement(xperms: seq<Xperm>, before: bool)
    requires xperms != [] && forall i :: 0 <= i < |xperms| ==> xperms[i].reset
    ensures (forall x: Ioctl :: Fold(xperms, x, before) <==> !InAny(xperms, x))
            <==> (forall x: Ioctl, i :: 0 <= i < |xperms| && InRange(xperms[i], x) ==> InRange(xperms[|xperms| - 1], x))
  {
    hide InRange, Fold;
    var last := xperms[|xperms| - 1];
    forall x: Ioctl ensures Fold(xperms, x, before) <==> !InRange(last, x) {
      ResetListKeepsLast(xperms, x, before);
    }
    if forall x: Ioctl :: Fold(xperms, x, before) <==> !InAny(xperms, x) {
      forall x: Ioctl, i | 0 <= i < |xperms| && InRange(xperms[i], x) ensures InRange(last, x) {
        assert InAny(xperms, x);
      }
    }
  }

  /** `~{ 0x1 0x2 }` permits 0x1. */
  lemma ResetListForgets()
    ensures Fold([Xperm(1, 1, true), Xperm(2, 2, true)], 1, false)
  {
  }
}
