/** Page-aligned blocks in a row: where they start, and how they are written. */
module BootLayout {
  import opened Common
  import opened LittleEndian
  import opened BootHeader

  /** Where block `i` starts: each block is followed by padding up to the next page. */
  function Offset(sizes: seq<nat>, space: nat, page: nat, i: nat): (off: nat)
    requires page > 0 && i <= |sizes|
  {
    if i == 0 then space else AlignTo(Offset(sizes, space, page, i - 1) + sizes[i - 1], page)
  }

  lemma {:induction false} OffsetGrows(sizes: seq<nat>, space: nat, page: nat, i: nat, j: nat)
    requires page > 0 && i <= j <= |sizes|
    ensures Offset(sizes, space, page, i) <= Offset(sizes, space, page, j)
    decreases j - i
  {
    hide AlignTo, Aligned;
    if i < j {
      OffsetGrows(sizes, space, page, i, j - 1);
    }
  }

  lemma OffsetAligned(sizes: seq<nat>, space: nat, page: nat, i: nat)
    requires page > 0 && Aligned(space, page) && i <= |sizes|
    ensures Aligned(Offset(sizes, space, page, i), page)
  {
    hide AlignTo, Aligned;
  }

  lemma OffsetZero(sizes: seq<nat>, space: nat, page: nat)
    requires page > 0
    ensures Offset(sizes, space, page, 0) == space
  {
  }

  lemma OffsetNext(sizes: seq<nat>, space: nat, page: nat, i: nat)
    requires page > 0 && i < |sizes|
    ensures Offset(sizes, space, page, i) + sizes[i] <= Offset(sizes, space, page, i + 1)
  {
    hide AlignTo, Aligned;
  }

  /** Every block starts on a page, and ends before any later block starts. */
  lemma BlocksInOrder(sizes: seq<nat>, space: nat, page: nat, i: nat, j: nat)
    requires page > 0 && Aligned(space, page) && i < j <= |sizes|
    ensures Aligned(Offset(sizes, space, page, i), page) && Aligned(Offset(sizes, space, page, j), page)
    ensures space <= Offset(sizes, space, page, i)
    ensures Offset(sizes, space, page, i) + sizes[i] <= Offset(sizes, space, page, j)
  {
    hide Offset, Aligned;
    OffsetZero(sizes, space, page);
    OffsetAligned(sizes, space, page, i);
    OffsetAligned(sizes, space, page, j);
    OffsetNext(sizes, space, page, i);
    OffsetGrows(sizes, space, page, 0, i);
    OffsetGrows(sizes, space, page, i + 1, j);
  }

  function Padding(v: nat, page: nat): nat
    requires page > 0
  {
    AlignTo(v, page) - v
  }

  function Padded(out: Bytes, page: nat): (r: Bytes)
    requires page > 0
    ensures Aligned(|r|, page) && out <= r
    ensures Aligned(|out|, page) ==> r == out
  {
    out + Zeros(Padding(|out|, page))
  }

  /** The blocks written one after the other behind `head`. */
  function Laid(head: Bytes, blocks: seq<Bytes>, page: nat): Bytes
    requires page > 0
  {
    if blocks == [] then head
    else
      var n := |blocks| - 1;
      Padded(Laid(head, blocks[..n], page) + blocks[n], page)
  }

  function Lengths(blocks: seq<Bytes>): (r: seq<nat>)
    ensures |r| == |blocks|
    ensures forall i :: 0 <= i < |blocks| ==> r[i] == |blocks[i]|
  {
    seq(|blocks|, i requires 0 <= i < |blocks| => |blocks[i]|)
  }

  lemma {:induction false} LaidLength(head: Bytes, blocks: seq<Bytes>, page: nat, i: nat)
    requires page > 0 && i <= |blocks|
    ensures |Laid(head, blocks[..i], page)| == Offset(Lengths(blocks), |head|, page, i)
  {
    hide AlignTo, Aligned;
    if i != 0 {
      LaidLength(head, blocks, page, i - 1);
      assert blocks[..i][..i - 1] == blocks[..i - 1];
    }
  }

  lemma LaidStep(head: Bytes, blocks: seq<Bytes>, page: nat, i: nat)
    requires page > 0 && i < |blocks|
    ensures Laid(head, blocks[..i + 1], page) == Padded(Laid(head, blocks[..i], page) + blocks[i], page)
  {
    hide Padded;
    assert blocks[..i + 1][..i] == blocks[..i];
  }

  lemma {:induction false} LaidAligned(head: Bytes, blocks: seq<Bytes>, page: nat)
    requires page > 0 && Aligned(|head|, page)
    ensures Aligned(|Laid(head, blocks, page)|, page)
  {
    hide Aligned, AlignTo;
  }

  lemma {:induction false} LaidPrefix(head: Bytes, blocks: seq<Bytes>, page: nat, i: nat)
    requires page > 0 && i <= |blocks|
    ensures Laid(head, blocks[..i], page) <= Laid(head, blocks, page)
    decreases |blocks| - i
  {
    if i == |blocks| {
      assert blocks[..i] == blocks;
    } else {
      hide Padded, Laid;
      LaidPrefix(head, blocks, page, i + 1);
      LaidStep(head, blocks, page, i);
    }
  }

  lemma LaidHead(head: Bytes, blocks: seq<Bytes>, page: nat)
    requires page > 0
    ensures head <= Laid(head, blocks, page)
  {
    LaidPrefix(head, blocks, page, 0);
    assert blocks[..0] == [];
  }

  /** A block is found where the layout says. */
  lemma LaidBlock(head: Bytes, blocks: seq<Bytes>, page: nat, i: nat)
    requires page > 0 && i < |blocks|
    ensures HasAt(Laid(head, blocks, page), Offset(Lengths(blocks), |head|, page, i), blocks[i])
  {
    hide Laid, Padded, Offset;
    var all, front := Laid(head, blocks, page), Laid(head, blocks[..i], page);
    LaidLength(head, blocks, page, i);
    LaidStep(head, blocks, page, i);
    LaidPrefix(head, blocks, page, i + 1);
    assert front + blocks[i] <= all;
    assert all[|front|..|front| + |blocks[i]|] == (front + blocks[i])[|front|..];
  }
}
