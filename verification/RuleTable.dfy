/** Rules over type, class and permission names, and the table they act on. */
module RuleTable {
  import opened Common
  import opened AvTab

  datatype TypeDatum = TypeDatum(name: string, value: nat, isAttribute: bool)

  datatype ClassDatum = ClassDatum(name: string, value: nat, perms: map<string, Bit>, common: map<string, Bit>)

  /** What the rules look up but do not change: the symbol tables, and the attributes of each type. */
  datatype Symbols = Symbols(types: seq<TypeDatum>, classes: seq<ClassDatum>, attributes: map<nat, set<nat>>)

  /** One line of the rule language, after its lists were expanded: empty names are wildcards. */
  datatype Rule = Rule(src: string, tgt: string, cls: string, perm: string, effect: Effect, invert: bool)

  // ---------------------------------------------------------------------------------------
  // Names
  // ---------------------------------------------------------------------------------------

  function FindType(types: seq<TypeDatum>, name: string): Option<TypeDatum> {
    if types == [] then None
    else if types[0].name == name then Some(types[0])
    else FindType(types[1..], name)
  }

  function FindClass(classes: seq<ClassDatum>, name: string): Option<ClassDatum> {
    if classes == [] then None
    else if classes[0].name == name then Some(classes[0])
    else FindClass(classes[1..], name)
  }

  /** A permission of the class, or else one it has in common with other classes. */
  function FindPerm(c: ClassDatum, name: string): Option<Bit> {
    if name in c.perms then Some(c.perms[name]) else Get(c.common, name)
  }

  predicate TypeKnown(db: Symbols, name: string) { name == "" || FindType(db.types, name).Some? }

  /** The rule names nothing unknown, and no permission without its class. */
  predicate Resolves(db: Symbols, r: Rule) {
    && TypeKnown(db, r.src) && TypeKnown(db, r.tgt)
    && (r.cls == "" || FindClass(db.classes, r.cls).Some?)
    && (r.perm == "" || (r.cls != "" && FindPerm(FindClass(db.classes, r.cls).value, r.perm).Some?))
  }

  // ---------------------------------------------------------------------------------------
  // Meaning
  // ---------------------------------------------------------------------------------------

  /** `strip_av`: the rule takes something away from the types. */
  predicate Strips(effect: Effect, invert: bool) { effect.AuditDeny? == !invert }

  /** A wildcard is every type for a rule that strips, and every attribute for others. */
  predicate Chosen(t: TypeDatum, strips: bool) { strips || t.isAttribute }

  function Values(types: seq<TypeDatum>, strips: bool): set<nat> {
    set t | t in types && Chosen(t, strips) :: t.value
  }

  function ClassValues(classes: seq<ClassDatum>): set<nat> { set c | c in classes :: c.value }

  function TypeSet(db: Symbols, t: Option<nat>, strips: bool): set<nat> {
    match t
    case Some(v) => {v}
    case None => Values(db.types, strips)
  }

  function ClassSet(db: Symbols, c: Option<nat>): set<nat> {
    match c
    case Some(v) => {v}
    case None => ClassValues(db.classes)
  }

  /** The keys of one effect over a product of sources, targets and classes. */
  ghost function Box(srcs: set<nat>, tgts: set<nat>, classes: set<nat>, effect: Effect): Key -> bool {
    (k: Key) => k.effect == effect && k.src in srcs && k.tgt in tgts && k.cls in classes
  }

  ghost function Hits(db: Symbols, src: Option<nat>, tgt: Option<nat>, cls: Option<nat>,
                      effect: Effect, invert: bool): Key -> bool
  {
    var strips := Strips(effect, invert);
    Box(TypeSet(db, src, strips), TypeSet(db, tgt, strips), ClassSet(db, cls), effect)
  }

  function TypeValue(db: Symbols, name: string): Option<nat>
    requires TypeKnown(db, name)
  {
    if name == "" then None else Some(FindType(db.types, name).value.value)
  }

  function ClassValue(db: Symbols, r: Rule): Option<nat>
    requires Resolves(db, r)
  {
    if r.cls == "" then None else Some(FindClass(db.classes, r.cls).value.value)
  }

  function PermBit(db: Symbols, r: Rule): Option<Bit>
    requires Resolves(db, r)
  {
    if r.perm == "" then None else FindPerm(FindClass(db.classes, r.cls).value, r.perm)
  }

  /** The rule sets or clears bit `b` of key `k`. */
  ghost predicate Touches(db: Symbols, r: Rule, k: Key, b: Bit) {
    && Resolves(db, r)
    && Hits(db, TypeValue(db, r.src), TypeValue(db, r.tgt), ClassValue(db, r), r.effect, r.invert)(k)
    && (PermBit(db, r) == None || PermBit(db, r) == Some(b))
  }

  /** A bit after a list of rules: the last rule that touches it decides. */
  ghost function BitAfter(db: Symbols, rules: seq<Rule>, k: Key, b: Bit, before: bool): bool {
    if rules == [] then before
    else
      var last := rules[|rules| - 1];
      if Touches(db, last, k, b) then !last.invert else BitAfter(db, rules[..|rules| - 1], k, b, before)
  }

  /** The rules acted on every bit of every word, and on nothing else. */
  ghost predicate Acts(db: Symbols, rules: seq<Rule>, before: seq<Node>, after: seq<Node>) {
    && (forall k: Key, b: Bit :: !IsXperm(k.effect) ==>
         (b in At(after, k) <==> BitAfter(db, rules, k, b, b in At(before, k))))
    && (forall k: Key :: Exts(after, k) == Exts(before, k))
    && NoneLeft(db, rules, before, after)
  }

  /** A word that need not be stored is an old one that no rule touched. */
  ghost predicate NoneLeft(db: Symbols, rules: seq<Rule>, before: seq<Node>, after: seq<Node>) {
    && (forall n: Node :: n in after && Stale(n) ==> n in before)
    && (forall n: Node, r, b: Bit :: n in after && Stale(n) && r in rules ==> !Touches(db, r, n.key, b))
  }

  lemma ActsNothing(db: Symbols, nodes: seq<Node>)
    ensures Acts(db, [], nodes, nodes)
  {
    hide At, Exts;
  }

  lemma BitAfterOne(db: Symbols, r: Rule, k: Key, b: Bit, before: bool)
    ensures BitAfter(db, [r], k, b, before) == if Touches(db, r, k, b) then !r.invert else before
  {
    hide Touches;
    assert [r][..|[r]| - 1] == [];
  }

  lemma ActsAsChanges(db: Symbols, r: Rule, before: seq<Node>, after: seq<Node>)
    requires Resolves(db, r)
    requires Changes(before, after,
               Hits(db, TypeValue(db, r.src), TypeValue(db, r.tgt), ClassValue(db, r), r.effect, r.invert),
               PermBit(db, r), r.invert)
    ensures Acts(db, [r], before, after)
  {
    hide At, Exts, TypeSet, ClassSet, Shaped, BitAfter;
    var hit := Hits(db, TypeValue(db, r.src), TypeValue(db, r.tgt), ClassValue(db, r), r.effect, r.invert);
    forall k: Key, b: Bit | !IsXperm(k.effect)
      ensures b in At(after, k) <==> BitAfter(db, [r], k, b, b in At(before, k))
    {
      BitAfterOne(db, r, k, b, b in At(before, k));
      assert Touches(db, r, k, b) <==> hit(k) && (PermBit(db, r) == None || PermBit(db, r) == Some(b));
      assert b in ALL;
    }
  }

  lemma ActsUnresolved(db: Symbols, r: Rule, nodes: seq<Node>)
    requires !Resolves(db, r)
    ensures Acts(db, [r], nodes, nodes)
  {
    hide At, Exts, Resolves, BitAfter;
    forall k: Key, b: Bit, x: bool ensures BitAfter(db, [r], k, b, x) == x {
      BitAfterOne(db, r, k, b, x);
    }
  }

  // ---------------------------------------------------------------------------------------
  // Statements
  // ---------------------------------------------------------------------------------------

  /** A statement of the rule language; an empty list is a wildcard. */
  datatype Statement = Statement(
    src: seq<string>, tgt: seq<string>, cls: seq<string>, perm: seq<string>, effect: Effect, invert: bool)

  function Allow(src: seq<string>, tgt: seq<string>, cls: seq<string>, perm: seq<string>): Statement {
    Statement(src, tgt, cls, perm, Allowed, false)
  }

  function Deny(src: seq<string>, tgt: seq<string>, cls: seq<string>, perm: seq<string>): Statement {
    Statement(src, tgt, cls, perm, Allowed, true)
  }

  function OrWild(names: seq<string>): seq<string> { if names == [] then [""] else names }

  /** `expand`: the callback's arguments, in the order of its calls. */
  function Expand(st: Statement): seq<Rule> {
    ExpandSrc(st, OrWild(st.src))
  }

  function ExpandSrc(st: Statement, srcs: seq<string>): seq<Rule> {
    if srcs == [] then [] else ExpandTgt(st, srcs[0], OrWild(st.tgt)) + ExpandSrc(st, srcs[1..])
  }

  function ExpandTgt(st: Statement, src: string, tgts: seq<string>): seq<Rule> {
    if tgts == [] then [] else ExpandCls(st, src, tgts[0], OrWild(st.cls)) + ExpandTgt(st, src, tgts[1..])
  }

  function ExpandCls(st: Statement, src: string, tgt: string, classes: seq<string>): seq<Rule> {
    if classes == [] then []
    else ExpandPerm(st, src, tgt, classes[0], OrWild(st.perm)) + ExpandCls(st, src, tgt, classes[1..])
  }

  function ExpandPerm(st: Statement, src: string, tgt: string, cls: string, perms: seq<string>): seq<Rule> {
    if perms == [] then []
    else [Rule(src, tgt, cls, perms[0], st.effect, st.invert)] + ExpandPerm(st, src, tgt, cls, perms[1..])
  }

  lemma {:induction false} ExpandPermHas(
    st: Statement, src: string, tgt: string, cls: string, perms: seq<string>, r: Rule)
    ensures r in ExpandPerm(st, src, tgt, cls, perms) <==>
            r.src == src && r.tgt == tgt && r.cls == cls && r.perm in perms
            && r.effect == st.effect && r.invert == st.invert
  {
    if perms != [] {
      ExpandPermHas(st, src, tgt, cls, perms[1..], r);
      assert r.perm in perms <==> r.perm == perms[0] || r.perm in perms[1..];
    }
  }

  lemma {:induction false} ExpandClsHas(st: Statement, src: string, tgt: string, classes: seq<string>, r: Rule)
    ensures r in ExpandCls(st, src, tgt, classes) <==>
            r.src == src && r.tgt == tgt && r.cls in classes && r.perm in OrWild(st.perm)
            && r.effect == st.effect && r.invert == st.invert
  {
    hide OrWild;
    if classes != [] {
      ExpandPermHas(st, src, tgt, classes[0], OrWild(st.perm), r);
      ExpandClsHas(st, src, tgt, classes[1..], r);
      assert r.cls in classes <==> r.cls == classes[0] || r.cls in classes[1..];
    }
  }

  lemma {:induction false} ExpandTgtHas(st: Statement, src: string, tgts: seq<string>, r: Rule)
    ensures r in ExpandTgt(st, src, tgts) <==>
            r.src == src && r.tgt in tgts && r.cls in OrWild(st.cls) && r.perm in OrWild(st.perm)
            && r.effect == st.effect && r.invert == st.invert
  {
    hide OrWild, ExpandCls;
    if tgts != [] {
      ExpandClsHas(st, src, tgts[0], OrWild(st.cls), r);
      ExpandTgtHas(st, src, tgts[1..], r);
      assert r.tgt in tgts <==> r.tgt == tgts[0] || r.tgt in tgts[1..];
    }
  }

  lemma {:induction false} ExpandSrcHas(st: Statement, srcs: seq<string>, r: Rule)
    ensures r in ExpandSrc(st, srcs) <==>
            r.src in srcs && r.tgt in OrWild(st.tgt) && r.cls in OrWild(st.cls) && r.perm in OrWild(st.perm)
            && r.effect == st.effect && r.invert == st.invert
  {
    hide OrWild, ExpandTgt;
    if srcs != [] {
      ExpandTgtHas(st, srcs[0], OrWild(st.tgt), r);
      ExpandSrcHas(st, srcs[1..], r);
      assert r.src in srcs <==> r.src == srcs[0] || r.src in srcs[1..];
    }
  }

  /** The rule stands in the product of the four lists. */
  predicate InProduct(st: Statement, r: Rule) {
    && r.src in OrWild(st.src) && r.tgt in OrWild(st.tgt) && r.cls in OrWild(st.cls) && r.perm in OrWild(st.perm)
    && r.effect == st.effect && r.invert == st.invert
  }

  lemma ExpandIsProduct(st: Statement, r: Rule)
    ensures r in Expand(st) <==> InProduct(st, r)
  {
    hide OrWild, ExpandSrc;
    ExpandSrcHas(st, OrWild(st.src), r);
  }

  /** Some rule of the product touches the bit. */
  ghost predicate Reaches(db: Symbols, st: Statement, k: Key, b: Bit) {
    exists r :: InProduct(st, r) && Touches(db, r, k, b)
  }

  lemma {:induction false} BitAfterSameInvert(db: Symbols, rules: seq<Rule>, invert: bool, k: Key, b: Bit, before: bool)
    requires forall i :: 0 <= i < |rules| ==> rules[i].invert == invert
    ensures BitAfter(db, rules, k, b, before) ==
            if exists r :: r in rules && Touches(db, r, k, b) then !invert else before
  {
    hide Touches;
    if rules != [] {
      var last := rules[|rules| - 1];
      BitAfterSameInvert(db, rules[..|rules| - 1], invert, k, b, before);
      assert rules == rules[..|rules| - 1] + [last];
    }
  }

  /** A statement sets or clears exactly the bits its product reaches, whatever the order of the lists. */
  lemma StatementIsPointwise(db: Symbols, st: Statement, k: Key, b: Bit, before: bool)
    ensures BitAfter(db, Expand(st), k, b, before) == if Reaches(db, st, k, b) then !st.invert else before
  {
    hide Touches, InProduct, Expand, BitAfter;
    forall r: Rule ensures r in Expand(st) <==> InProduct(st, r) {
      ExpandIsProduct(st, r);
    }
    forall i | 0 <= i < |Expand(st)| ensures Expand(st)[i].invert == st.invert {
      ProductInvert(st, Expand(st)[i]);
    }
    BitAfterSameInvert(db, Expand(st), st.invert, k, b, before);
  }

  lemma ProductInvert(st: Statement, r: Rule)
    requires InProduct(st, r)
    ensures r.invert == st.invert && r.effect == st.effect
  {
  }

  function AllRules(sts: seq<Statement>): seq<Rule> {
    if sts == [] then [] else AllRules(sts[..|sts| - 1]) + Expand(sts[|sts| - 1])
  }

  // ---------------------------------------------------------------------------------------
  // The code
  // ---------------------------------------------------------------------------------------

  class Policy {
    const db: Symbols
    const table: Table

    constructor (db: Symbols, table: Table)
      ensures this.db == db && this.table == table
    {
      this.db := db;
      this.table := table;
    }

    /** `add_rule` on the symbols: a missing source, target or class is expanded, then one key is changed. */
    method AddRule(
      src: Option<nat>, tgt: Option<nat>, cls: Option<nat>, perm: Option<Bit>, effect: Effect, invert: bool)
      requires table.Valid() && !IsXperm(effect)
      modifies table
      ensures table.Valid()
      ensures Changes(old(table.nodes), table.nodes, Hits(db, src, tgt, cls, effect, invert), perm, invert)
      decreases (if src.None? then 1 else 0) + (if tgt.None? then 1 else 0) + (if cls.None? then 1 else 0)
    {
      hide Changes, Shaped;
      if src.None? {
        AddRuleForSources(tgt, cls, perm, effect, invert);
      } else if tgt.None? {
        AddRuleForTargets(src.value, cls, perm, effect, invert);
      } else if cls.None? {
        AddRuleForClasses(src.value, tgt.value, perm, effect, invert);
      } else {
        var key := Key(src.value, tgt.value, cls.value, effect);
        ChangesNothing(table.nodes, k => false, perm, invert);
        table.Change(key, perm, invert);
        ChangesTwice(old(table.nodes), old(table.nodes), table.nodes,
          k => false, k => k == key, Hits(db, src, tgt, cls, effect, invert), perm, invert);
      }
    }

    /** The arm for a wildcard source. */
    method AddRuleForSources(tgt: Option<nat>, cls: Option<nat>, perm: Option<Bit>, effect: Effect, invert: bool)
      requires table.Valid() && !IsXperm(effect)
      modifies table
      ensures table.Valid()
      ensures Changes(old(table.nodes), table.nodes, Hits(db, None, tgt, cls, effect, invert), perm, invert)
      decreases (if tgt.None? then 1 else 0) + (if cls.None? then 1 else 0) + 1, 0
    {
      hide Changes, Shaped, Values, ClassValues;
      ghost var strips := Strips(effect, invert);
      ghost var tgts, classes := TypeSet(db, tgt, strips), ClassSet(db, cls);
      NoValues(strips);
      ChangesNothing(table.nodes, Box(Values(db.types[..0], strips), tgts, classes, effect), perm, invert);
      for i := 0 to |db.types|
        invariant table.Valid()
        invariant Changes(old(table.nodes), table.nodes,
                    Box(Values(db.types[..i], strips), tgts, classes, effect), perm, invert)
      {
        var t := db.types[i];
        ValuesStep(db.types, i, strips);
        if Strips(effect, invert) || t.isAttribute {
          ghost var before := table.nodes;
          AddRule(Some(t.value), tgt, cls, perm, effect, invert);
          ChangesTwice(old(table.nodes), before, table.nodes,
            Box(Values(db.types[..i], strips), tgts, classes, effect), Box({t.value}, tgts, classes, effect),
            Box(Values(db.types[..i + 1], strips), tgts, classes, effect), perm, invert);
        }
      }
      assert db.types[..|db.types|] == db.types;
    }

    /** The arm for a wildcard target. */
    method AddRuleForTargets(src: nat, cls: Option<nat>, perm: Option<Bit>, effect: Effect, invert: bool)
      requires table.Valid() && !IsXperm(effect)
      modifies table
      ensures table.Valid()
      ensures Changes(old(table.nodes), table.nodes, Hits(db, Some(src), None, cls, effect, invert), perm, invert)
      decreases (if cls.None? then 1 else 0) + 1, 0
    {
      hide Changes, Shaped, Values, ClassValues;
      ghost var strips := Strips(effect, invert);
      ghost var classes := ClassSet(db, cls);
      NoValues(strips);
      ChangesNothing(table.nodes, Box({src}, Values(db.types[..0], strips), classes, effect), perm, invert);
      for i := 0 to |db.types|
        invariant table.Valid()
        invariant Changes(old(table.nodes), table.nodes,
                    Box({src}, Values(db.types[..i], strips), classes, effect), perm, invert)
      {
        var t := db.types[i];
        ValuesStep(db.types, i, strips);
        if Strips(effect, invert) || t.isAttribute {
          ghost var before := table.nodes;
          AddRule(Some(src), Some(t.value), cls, perm, effect, invert);
          ChangesTwice(old(table.nodes), before, table.nodes,
            Box({src}, Values(db.types[..i], strips), classes, effect), Box({src}, {t.value}, classes, effect),
            Box({src}, Values(db.types[..i + 1], strips), classes, effect), perm, invert);
        }
      }
      assert db.types[..|db.types|] == db.types;
    }

    /** The arm for a wildcard class. */
    method AddRuleForClasses(src: nat, tgt: nat, perm: Option<Bit>, effect: Effect, invert: bool)
      requires table.Valid() && !IsXperm(effect)
      modifies table
      ensures table.Valid()
      ensures Changes(old(table.nodes), table.nodes, Hits(db, Some(src), Some(tgt), None, effect, invert), perm, invert)
      decreases 1, 0
    {
      hide Changes, Shaped, Values, ClassValues;
      ghost var strips := Strips(effect, invert);
      NoValues(strips);
      ChangesNothing(table.nodes, Box({src}, {tgt}, ClassValues(db.classes[..0]), effect), perm, invert);
      for i := 0 to |db.classes|
        invariant table.Valid()
        invariant Changes(old(table.nodes), table.nodes,
                    Box({src}, {tgt}, ClassValues(db.classes[..i]), effect), perm, invert)
      {
        var t := db.classes[i];
        ClassValuesStep(db.classes, i);
        ghost var before := table.nodes;
        AddRule(Some(src), Some(tgt), Some(t.value), perm, effect, invert);
        ChangesTwice(old(table.nodes), before, table.nodes,
            Box({src}, {tgt}, ClassValues(db.classes[..i]), effect), Box({src}, {tgt}, {t.value}, effect),
          Box({src}, {tgt}, ClassValues(db.classes[..i + 1]), effect), perm, invert);
      }
      assert db.classes[..|db.classes|] == db.classes;
    }

    /** `add_rule` on names: nothing happens when one of them is unknown. */
    method AddNamedRule(r: Rule) returns (ok: bool)
      requires table.Valid() && !IsXperm(r.effect)
      modifies table
      ensures table.Valid() && ok == Resolves(db, r)
      ensures Acts(db, [r], old(table.nodes), table.nodes)
    {
      hide Acts, Shaped, Changes, Hits;
      ok := LooksUp(r);
      if ok {
        AddRule(TypeValue(db, r.src), TypeValue(db, r.tgt), ClassValue(db, r), PermBit(db, r), r.effect, r.invert);
        ActsAsChanges(db, r, old(table.nodes), table.nodes);
      } else {
        ActsUnresolved(db, r, table.nodes);
      }
    }

    /** The checks at the head of `add_rule`, in their order. */
    method LooksUp(r: Rule) returns (ok: bool)
      ensures ok == Resolves(db, r)
    {
      if r.src != "" && FindType(db.types, r.src).None? {
        return false;
      }
      if r.tgt != "" && FindType(db.types, r.tgt).None? {
        return false;
      }
      if r.cls != "" && FindClass(db.classes, r.cls).None? {
        return false;
      }
      if r.perm != "" {
        if r.cls == "" {
          return false;
        }
        if FindPerm(FindClass(db.classes, r.cls).value, r.perm).None? {
          return false;
        }
      }
      return true;
    }

    /** `allow`, `deny`, `auditallow` and `dontaudit`. */
    method Run(st: Statement)
      requires table.Valid() && !IsXperm(st.effect)
      modifies table
      ensures table.Valid()
      ensures Acts(db, Expand(st), old(table.nodes), table.nodes)
    {
      hide Acts, Shaped, Expand;
      var rules := Expand(st);
      ActsNothing(db, table.nodes);
      for i := 0 to |rules|
        invariant table.Valid()
        invariant Acts(db, rules[..i], old(table.nodes), table.nodes)
      {
        ghost var before := table.nodes;
        ExpandIsProduct(st, rules[i]);
        var _ := AddNamedRule(rules[i]);
        ActsAppend(db, rules[..i], [rules[i]], old(table.nodes), before, table.nodes);
        assert rules[..i + 1] == rules[..i] + [rules[i]];
      }
      assert rules[..|rules|] == rules;
    }

    method RunAll(sts: seq<Statement>)
      requires table.Valid() && forall i :: 0 <= i < |sts| ==> !IsXperm(sts[i].effect)
      modifies table
      ensures table.Valid()
      ensures Acts(db, AllRules(sts), old(table.nodes), table.nodes)
    {
      hide Acts, Shaped, Expand;
      ActsNothing(db, table.nodes);
      for i := 0 to |sts|
        invariant table.Valid()
        invariant Acts(db, AllRules(sts[..i]), old(table.nodes), table.nodes)
      {
        ghost var before := table.nodes;
        Run(sts[i]);
        ActsAppend(db, AllRules(sts[..i]), Expand(sts[i]), old(table.nodes), before, table.nodes);
        assert sts[..i + 1][..i] == sts[..i];
      }
      assert sts[..|sts|] == sts;
    }
  }

  lemma {:induction false} BitAfterAppend(db: Symbols, a: seq<Rule>, b: seq<Rule>, k: Key, bit: Bit, before: bool)
    ensures BitAfter(db, a + b, k, bit, before) == BitAfter(db, b, k, bit, BitAfter(db, a, k, bit, before))
    decreases |b|
  {
    hide Touches;
    if b == [] {
      assert a + b == a;
    } else {
      assert (a + b)[..|a + b| - 1] == a + b[..|b| - 1];
      BitAfterAppend(db, a, b[..|b| - 1], k, bit, before);
    }
  }

  lemma ActsAppend(db: Symbols, r: seq<Rule>, s: seq<Rule>, a: seq<Node>, b: seq<Node>, c: seq<Node>)
    requires Acts(db, r, a, b) && Acts(db, s, b, c)
    ensures Acts(db, r + s, a, c)
  {
    hide At, Exts, BitAfter;
    forall k: Key, bit: Bit, x: bool
      ensures BitAfter(db, r + s, k, bit, x) == BitAfter(db, s, k, bit, BitAfter(db, r, k, bit, x))
    {
      BitAfterAppend(db, r, s, k, bit, x);
    }
  }

  lemma NoValues(strips: bool)
    ensures Values([], strips) == {} && ClassValues([]) == {}
  {
  }

  lemma ValuesStep(types: seq<TypeDatum>, i: nat, strips: bool)
    requires i < |types|
    ensures Values(types[..i + 1], strips) ==
            if Chosen(types[i], strips) then Values(types[..i], strips) + {types[i].value}
            else Values(types[..i], strips)
  {
    assert types[..i + 1] == types[..i] + [types[i]];
    assert Chosen(types[i], strips) ==> types[i] in types[..i + 1] && types[i].value in Values(types[..i + 1], strips);
  }

  lemma ClassValuesStep(classes: seq<ClassDatum>, i: nat)
    requires i < |classes|
    ensures ClassValues(classes[..i + 1]) == ClassValues(classes[..i]) + {classes[i].value}
  {
    assert classes[..i + 1] == classes[..i] + [classes[i]];
    assert classes[i] in classes[..i + 1];
  }

  // ---------------------------------------------------------------------------------------
  // What types are granted
  // ---------------------------------------------------------------------------------------

  type Meaning = (Key, Bit) -> bool

  ghost function After(db: Symbols, st: Statement, m: Meaning): Meaning {
    (k: Key, b: Bit) => BitAfter(db, Expand(st), k, b, m(k, b))
  }

  ghost function MeaningOf(nodes: seq<Node>): Meaning { (k: Key, b: Bit) => b in At(nodes, k) }

  /** The table after a statement grants what the statement's meaning grants. */
  lemma TableGrants(
    db: Symbols, st: Statement, before: seq<Node>, after: seq<Node>, src: nat, tgt: nat, cls: nat, b: Bit)
    requires Acts(db, Expand(st), before, after)
    ensures Granted(db, MeaningOf(after), src, tgt, cls, b)
            <==> Granted(db, After(db, st, MeaningOf(before)), src, tgt, cls, b)
  {
    hide At, BitAfter, Expand, Closure;
    var m, n := MeaningOf(after), After(db, st, MeaningOf(before));
    assert forall x: nat, y: nat :: m(Key(x, y, cls, Allowed), b) == n(Key(x, y, cls, Allowed), b);
  }

  /** A rule for a type is also a rule for whatever holds it as an attribute. */
  function Closure(db: Symbols, t: nat): set<nat> { {t} + if t in db.attributes then db.attributes[t] else {} }

  /** The pair of types has a rule, of their own or of their attributes. */
  ghost predicate Granted(db: Symbols, m: Meaning, src: nat, tgt: nat, cls: nat, b: Bit) {
    exists x, y :: x in Closure(db, src) && y in Closure(db, tgt) && m(Key(x, y, cls, Allowed), b)
  }

  predicate Registered(db: Symbols, t: nat) { Closure(db, t) <= Values(db.types, true) }

  predicate HasAttribute(db: Symbols, t: nat) { exists x :: x in Closure(db, t) && x in Values(db.types, false) }

  /** The class and its permission are known. */
  predicate Names(db: Symbols, cls: string, perm: string, c: nat, b: Bit) {
    && cls != "" && perm != ""
    && FindClass(db.classes, cls).Some? && FindClass(db.classes, cls).value.value == c
    && FindPerm(FindClass(db.classes, cls).value, perm) == Some(b)
  }

  predicate NamesType(db: Symbols, name: string, t: nat) {
    name != "" && FindType(db.types, name).Some? && FindType(db.types, name).value.value == t
  }

  /** A statement whose lists hold at most one name stands for one rule. */
  function Only(names: seq<string>): string { if |names| == 1 then names[0] else "" }

  lemma SingleReaches(db: Symbols, st: Statement, k: Key, b: Bit)
    requires |st.src| <= 1 && |st.tgt| <= 1 && |st.cls| <= 1 && |st.perm| <= 1
    ensures Reaches(db, st, k, b) <==>
            Touches(db, Rule(Only(st.src), Only(st.tgt), Only(st.cls), Only(st.perm), st.effect, st.invert), k, b)
  {
    hide Touches;
    var r := Rule(Only(st.src), Only(st.tgt), Only(st.cls), Only(st.perm), st.effect, st.invert);
    assert InProduct(st, r);
  }

  /** `deny * * c p` leaves no pair of types granted p. */
  lemma DenyForAll(db: Symbols, m: Meaning, cls: string, perm: string, c: nat, b: Bit, src: nat, tgt: nat)
    requires Names(db, cls, perm, c, b) && Registered(db, src) && Registered(db, tgt)
    ensures !Granted(db, After(db, Deny([], [], [cls], [perm]), m), src, tgt, c, b)
  {
    hide BitAfter, Reaches, Expand, Values, FindClass, FindPerm;
    var st := Deny([], [], [cls], [perm]);
    forall x, y | x in Closure(db, src) && y in Closure(db, tgt)
      ensures !After(db, st, m)(Key(x, y, c, Allowed), b)
    {
      var k := Key(x, y, c, Allowed);
      StatementIsPointwise(db, st, k, b, m(k, b));
      SingleReaches(db, st, k, b);
    }
  }

  /**
   * `allow * t c p` grants p, besides what was granted, to the types that have an attribute,
   * and to no others.
   */
  lemma AllowForAll(db: Symbols, m: Meaning, name: string, t: nat, cls: string, perm: string, c: nat, b: Bit,
                    src: nat, tgt: nat)
    requires Names(db, cls, perm, c, b) && NamesType(db, name, t)
    ensures Granted(db, After(db, Allow([], [name], [cls], [perm]), m), src, tgt, c, b)
            <==> Granted(db, m, src, tgt, c, b) || (HasAttribute(db, src) && t in Closure(db, tgt))
  {
    hide BitAfter, Reaches, Expand, Values, FindClass, FindPerm, FindType, Closure;
    var st := Allow([], [name], [cls], [perm]);
    forall x: nat, y: nat
      ensures After(db, st, m)(Key(x, y, c, Allowed), b)
              <==> m(Key(x, y, c, Allowed), b) || (x in Values(db.types, false) && y == t)
    {
      var k := Key(x, y, c, Allowed);
      StatementIsPointwise(db, st, k, b, m(k, b));
      SingleReaches(db, st, k, b);
    }
    var after := After(db, st, m);
    if HasAttribute(db, src) && t in Closure(db, tgt) {
      var x :| x in Closure(db, src) && x in Values(db.types, false);
      assert after(Key(x, t, c, Allowed), b);
    }
    if Granted(db, m, src, tgt, c, b) {
      var x, y :| x in Closure(db, src) && y in Closure(db, tgt) && m(Key(x, y, c, Allowed), b);
      assert after(Key(x, y, c, Allowed), b);
    }
  }

  /** `deny s t c p` takes away the rule of the pair itself; what comes through attributes stays. */
  lemma DenyOnePair(db: Symbols, m: Meaning, s: string, src: nat, name: string, tgt: nat,
                    cls: string, perm: string, c: nat, b: Bit)
    requires Names(db, cls, perm, c, b) && NamesType(db, s, src) && NamesType(db, name, tgt)
    ensures Granted(db, After(db, Deny([s], [name], [cls], [perm]), m), src, tgt, c, b)
            <==> exists x, y :: x in Closure(db, src) && y in Closure(db, tgt) && (x, y) != (src, tgt)
                             && m(Key(x, y, c, Allowed), b)
  {
    hide BitAfter, Reaches, Expand, Values, FindClass, FindPerm, FindType, Closure;
    var st := Deny([s], [name], [cls], [perm]);
    var after := After(db, st, m);
    forall x: nat, y: nat
      ensures after(Key(x, y, c, Allowed), b) <==> m(Key(x, y, c, Allowed), b) && (x, y) != (src, tgt)
    {
      var k := Key(x, y, c, Allowed);
      StatementIsPointwise(db, st, k, b, m(k, b));
      SingleReaches(db, st, k, b);
    }
    if x, y :| x in Closure(db, src) && y in Closure(db, tgt) && (x, y) != (src, tgt) && m(Key(x, y, c, Allowed), b) {
      assert after(Key(x, y, c, Allowed), b);
    }
  }
}
