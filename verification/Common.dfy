/** Definitions shared by the components. */
module Common {

  datatype Option<+T> = None | Some(value: T)

  newtype byte = x: int | 0 <= x < 256

  type Bytes = seq<byte>

  function Get<K, V>(m: map<K, V>, k: K): Option<V> {
    if k in m then Some(m[k]) else None
  }

  lemma SameMaps<K, V>(a: map<K, V>, b: map<K, V>)
    requires forall k :: k in a.Keys + b.Keys ==> Get(a, k) == Get(b, k)
    ensures a == b
  {
    forall k | k in a
      ensures k in b && a[k] == b[k]
    {
      assert k in a.Keys + b.Keys;
    }
    forall k | k in b
      ensures k in a
    {
      assert k in a.Keys + b.Keys;
    }
  }

  /** `data` has `part` at offset `off`. */
  ghost predicate HasAt(data: Bytes, off: nat, part: Bytes) {
    off + |part| <= |data| && data[off..off + |part|] == part
  }

  lemma HasAtSplit(data: Bytes, off: nat, a: Bytes, b: Bytes)
    requires HasAt(data, off, a + b)
    ensures HasAt(data, off, a) && HasAt(data, off + |a|, b)
  {
    var all := data[off..off + |a + b|];
    assert data[off..off + |a|] == all[..|a|] == a;
    assert data[off + |a|..off + |a| + |b|] == all[|a|..] == b;
  }

  lemma SplitAt(data: Bytes, off: nat, a: Bytes, b: Bytes)
    requires off <= |data| && data[off..] == a + b
    ensures HasAt(data, off, a) && off + |a| <= |data| && data[off + |a|..] == b
  {
    assert data[off..off + |a|] == data[off..][..|a|];
    assert data[off + |a|..] == data[off..][|a|..];
  }

  lemma Assoc(a: Bytes, b: Bytes, c: Bytes)
    ensures a + (b + c) == a + b + c
  {
  }

  lemma SliceOfSlice(data: Bytes, a: nat, b: nat, c: nat, d: nat)
    requires a <= b <= |data| && c <= d <= b - a
    ensures data[a..b][c..d] == data[a + c..a + d]
  {
    assert forall i :: 0 <= i < d - c ==> data[a..b][c..d][i] == data[a..b][c + i] == data[a + c..a + d][i];
  }

  lemma HasAtNested(data: Bytes, off: nat, part: Bytes, inner: nat, sub: Bytes)
    requires HasAt(data, off, part) && HasAt(part, inner, sub)
    ensures HasAt(data, off + inner, sub)
  {
    SliceOfSlice(data, off, off + |part|, inner, inner + |sub|);
  }
}
