/** Entry names: UTF-8 byte strings without NUL, in the order of a sorted map. */
module Names {
  import opened Common

  type Name = Bytes

  // ---------------------------------------------------------------------------------------
  // UTF-8 (RFC 3629)
  // ---------------------------------------------------------------------------------------

  predicate Continuation(b: byte) { 0x80 <= b <= 0xbf }

  /** The length of the encoded character at the front, 0 if there is none. */
  function CharLen(b: Bytes): (n: nat)
    ensures n <= |b| && n <= 4
  {
    if b == [] then 0
    else if b[0] <= 0x7f then 1
    else if 0xc2 <= b[0] <= 0xdf then
      if |b| >= 2 && Continuation(b[1]) then 2 else 0
    else if 0xe0 <= b[0] <= 0xef then
      if |b| >= 3 && Continuation(b[1]) && Continuation(b[2])
         && (b[0] == 0xe0 ==> b[1] >= 0xa0) && (b[0] == 0xed ==> b[1] <= 0x9f) then 3 else 0
    else if 0xf0 <= b[0] <= 0xf4 then
      if |b| >= 4 && Continuation(b[1]) && Continuation(b[2]) && Continuation(b[3])
         && (b[0] == 0xf0 ==> b[1] >= 0x90) && (b[0] == 0xf4 ==> b[1] <= 0x8f) then 4 else 0
    else 0
  }

  predicate ValidUtf8(b: Bytes)
    decreases |b|
  {
    b == [] || (CharLen(b) > 0 && ValidUtf8(b[CharLen(b)..]))
  }

  lemma CharLenAppend(a: Bytes, b: Bytes)
    requires CharLen(a) > 0
    ensures CharLen(a + b) == CharLen(a)
  {
    assert forall i :: 0 <= i < |a| ==> (a + b)[i] == a[i];
  }

  lemma {:induction false} Utf8Append(a: Bytes, b: Bytes)
    requires ValidUtf8(a) && ValidUtf8(b)
    ensures ValidUtf8(a + b)
    decreases |a|
  {
    hide CharLen;
    if a == [] {
      assert a + b == b;
    } else {
      var n := CharLen(a);
      CharLenAppend(a, b);
      Utf8Append(a[n..], b);
      assert (a + b)[n..] == a[n..] + b;
    }
  }

  lemma Utf8One(c: byte)
    requires c <= 0x7f
    ensures ValidUtf8([c])
  {
    assert [c][1..] == [];
  }

  predicate NulFree(n: Bytes) { 0 !in n }

  // ---------------------------------------------------------------------------------------
  // Order
  // ---------------------------------------------------------------------------------------

  predicate Less(a: Name, b: Name) {
    b != [] && (a == [] || a[0] < b[0] || (a[0] == b[0] && Less(a[1..], b[1..])))
  }

  lemma {:induction false} LessTotal(a: Name, b: Name)
    ensures a == b || Less(a, b) || Less(b, a)
  {
    if a != [] && b != [] && a[0] == b[0] {
      LessTotal(a[1..], b[1..]);
      assert a == [a[0]] + a[1..] && b == [b[0]] + b[1..];
    }
  }

  lemma {:induction false} LessAsymmetric(a: Name, b: Name)
    requires Less(a, b)
    ensures a != b && !Less(b, a)
  {
    if a != [] && a[0] == b[0] {
      LessAsymmetric(a[1..], b[1..]);
    }
  }

  lemma {:induction false} LessTransitive(a: Name, b: Name, c: Name)
    requires Less(a, b) && Less(b, c)
    ensures Less(a, c)
  {
    if a != [] && a[0] == b[0] == c[0] {
      LessTransitive(a[1..], b[1..], c[1..]);
    }
  }

  /** `keys` is how a sorted map with the keys `s` is iterated. */
  ghost predicate Lists(keys: seq<Name>, s: set<Name>) {
    && (forall i, j :: 0 <= i < j < |keys| ==> Less(keys[i], keys[j]))
    && (forall n :: n in keys <==> n in s)
  }

  lemma ListsDistinct(keys: seq<Name>, s: set<Name>, i: nat, j: nat)
    requires Lists(keys, s) && i < j < |keys|
    ensures keys[i] != keys[j]
  {
    LessAsymmetric(keys[i], keys[j]);
  }

  /** No name occurs twice. */
  ghost predicate NoDups(keys: seq<Name>) {
    keys == [] || (keys[0] !in keys[1..] && NoDups(keys[1..]))
  }

  /** `keys` has each element of `s` once. */
  ghost predicate Covers(keys: seq<Name>, s: set<Name>) {
    NoDups(keys) && forall n :: n in keys <==> n in s
  }

  lemma {:induction false} AscendingNoDups(keys: seq<Name>)
    requires forall i, j :: 0 <= i < j < |keys| ==> Less(keys[i], keys[j])
    ensures NoDups(keys)
  {
    if keys != [] {
      AscendingNoDups(keys[1..]);
      forall n | n in keys[1..]
        ensures n != keys[0]
      {
        LessAsymmetric(keys[0], n);
      }
    }
  }

  lemma ListsCovers(keys: seq<Name>, s: set<Name>)
    requires Lists(keys, s)
    ensures Covers(keys, s)
  {
    AscendingNoDups(keys);
  }

  lemma {:induction false} CoversLength(keys: seq<Name>, s: set<Name>)
    requires Covers(keys, s)
    ensures |keys| == |s|
  {
    if keys == [] {
      assert s == {};
    } else {
      var rest := s - {keys[0]};
      forall n
        ensures n in keys[1..] <==> n in rest
      {
        assert n in keys <==> n == keys[0] || n in keys[1..];
      }
      CoversLength(keys[1..], rest);
    }
  }

  ghost predicate IsSmallest(m: Name, s: set<Name>) { m in s && forall n :: n in s && n != m ==> Less(m, n) }

  lemma {:induction false} SmallestExists(s: set<Name>) returns (m: Name)
    requires s != {}
    ensures IsSmallest(m, s)
    decreases |s|
  {
    var x :| x in s;
    if s == {x} {
      m := x;
    } else {
      var y := SmallestExists(s - {x});
      LessTotal(x, y);
      m := if Less(x, y) then x else y;
      forall n | n in s && n != m ensures Less(m, n) {
        if m == x && n != y {
          LessTransitive(x, y, n);
        }
      }
    }
  }

  lemma SmallestUnique(a: Name, b: Name, s: set<Name>)
    requires IsSmallest(a, s) && IsSmallest(b, s)
    ensures a == b
  {
    if a != b {
      LessAsymmetric(a, b);
    }
  }

  /** The names of a set in their order. */
  ghost function Sorted(s: set<Name>): (keys: seq<Name>)
    ensures Lists(keys, s)
    decreases |s|
  {
    if s == {} then []
    else
      var m := SomeSmallest(s);
      var rest := Sorted(s - {m});
      assert forall i :: 0 <= i < |rest| ==> rest[i] in s - {m};
      [m] + rest
  }

  ghost function SomeSmallest(s: set<Name>): (m: Name)
    requires s != {}
    ensures IsSmallest(m, s)
  {
    assert exists m :: IsSmallest(m, s) by { var m := SmallestExists(s); }
    var m :| IsSmallest(m, s);
    m
  }

  /** There is only one such order. */
  lemma {:induction false} ListsUnique(a: seq<Name>, s: set<Name>)
    requires Lists(a, s)
    ensures a == Sorted(s)
    decreases |a|
  {
    var b := Sorted(s);
    if a == [] {
      assert s == {};
    } else {
      assert a[0] in s;
      var m := SomeSmallest(s);
      forall n | n in s && n != a[0] ensures Less(a[0], n) {
        var i :| 0 <= i < |a| && a[i] == n;
      }
      SmallestUnique(a[0], m, s);
      TailLists(a, s);
      ListsUnique(a[1..], s - {m});
    }
  }

  lemma TailLists(a: seq<Name>, s: set<Name>)
    requires Lists(a, s) && a != []
    ensures Lists(a[1..], s - {a[0]})
  {
    forall n ensures n in a[1..] <==> n in s - {a[0]} {
      assert n in a <==> n == a[0] || n in a[1..];
      if n in a[1..] {
        var i :| 0 <= i < |a[1..]| && a[1..][i] == n;
        ListsDistinct(a, s, 0, i + 1);
      }
    }
  }

  method Smallest(s: set<Name>) returns (m: Name)
    requires s != {}
    ensures IsSmallest(m, s)
  {
    m :| m in s;
    var todo := s - {m};
    while todo != {}
      invariant todo <= s - {m} && m in s
      invariant forall n :: n in s && n !in todo && n != m ==> Less(m, n)
      decreases |todo|
    {
      var n :| n in todo;
      todo := todo - {n};
      LessTotal(m, n);
      if Less(n, m) {
        forall x | x in s && x !in todo && x != n
          ensures Less(n, x)
        {
          if x != m {
            LessTransitive(n, m, x);
          }
        }
        m := n;
      }
    }
  }

  /** The keys of a sorted map, in order. */
  method IterKeys(s: set<Name>) returns (keys: seq<Name>)
    ensures keys == Sorted(s)
  {
    keys := [];
    var todo := s;
    while todo != {}
      invariant todo <= s
      invariant Lists(keys, s - todo)
      invariant forall i, n :: 0 <= i < |keys| && n in todo ==> Less(keys[i], n)
      decreases |todo|
    {
      var m := Smallest(todo);
      todo := todo - {m};
      keys := keys + [m];
    }
    ListsUnique(keys, s);
  }
}
