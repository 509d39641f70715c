/** Cutting a stream of writes into blocks of fixed size. */
module Chunker {
  import opened Common

  /** The complete blocks of `data`, and what is left over. */
  function FullBlocks(data: Bytes, size: nat): (blocks: seq<Bytes>)
    requires size > 0
    decreases |data|
  {
    if |data| < size then [] else [data[..size]] + FullBlocks(data[size..], size)
  }

  function Leftover(data: Bytes, size: nat): (rest: Bytes)
    requires size > 0
    ensures |rest| < size
    decreases |data|
  {
    if |data| < size then data else Leftover(data[size..], size)
  }

  /** More data can be cut where the earlier data left off. */
  lemma {:induction false} CutAppend(data: Bytes, more: Bytes, size: nat)
    requires size > 0
    ensures FullBlocks(data + more, size) == FullBlocks(data, size) + FullBlocks(Leftover(data, size) + more, size)
    ensures Leftover(data + more, size) == Leftover(Leftover(data, size) + more, size)
    decreases |data|
  {
    if |data| >= size {
      CutAppend(data[size..], more, size);
      assert (data + more)[..size] == data[..size];
      assert (data + more)[size..] == data[size..] + more;
    }
  }

  class Chunker {
    const chunkSize: nat
    var chunk: array<byte>
    var pos: nat

    ghost predicate Valid()
      reads this
    {
      0 < chunkSize == chunk.Length && pos < chunkSize
    }

    /** Data taken in but not yet handed out. */
    function Pending(): Bytes
      reads this, chunk
      requires Valid()
    {
      chunk[..pos]
    }

    constructor (chunkSize: nat)
      requires chunkSize > 0
      ensures Valid() && Pending() == [] && this.chunkSize == chunkSize && fresh(chunk)
    {
      this.chunkSize := chunkSize;
      chunk := new byte[chunkSize];
      pos := 0;
    }

    /** Takes data up to the end of one block. Nothing is lost or reordered: the data pending
        before and the data given are the block handed out, the data pending now and the rest. */
    method AddData(buf: Bytes) returns (rest: Bytes, block: Option<Bytes>)
      requires Valid()
      modifies this`pos, chunk
      ensures Valid() && chunk == old(chunk)
      ensures match block
              case Some(b) => |b| == chunkSize && Pending() == [] && b + rest == old(Pending()) + buf
              case None => rest == [] && Pending() == old(Pending()) + buf
      ensures buf != [] ==> |rest| < |buf|
    {
      block := None;
      rest := buf;
      if pos > 0 {
        var len := if chunkSize - pos < |buf| then chunkSize - pos else |buf|;
        CopyIn(buf[..len]);
        pos := pos + len;
        if pos == chunkSize {
          block := Some(chunk[..chunkSize]);
          pos := 0;
        }
        rest := buf[len..];
        assert buf == buf[..len] + buf[len..];
      } else if |buf| >= chunkSize {
        block := Some(buf[..chunkSize]);
        rest := buf[chunkSize..];
      } else {
        CopyIn(buf);
        pos := pos + |buf|;
        return [], None;
      }
    }

    method CopyIn(data: Bytes)
      requires chunk.Length == chunkSize && pos + |data| <= chunkSize
      modifies chunk
      ensures chunk[..pos + |data|] == old(chunk[..pos]) + data
    {
      for i := 0 to |data|
        invariant chunk[..pos + i] == old(chunk[..pos]) + data[..i]
      {
        chunk[pos + i] := data[i];
        assert chunk[..pos + i + 1] == chunk[..pos + i] + [data[i]];
        assert data[..i + 1] == data[..i] + [data[i]];
      }
      assert data[..|data|] == data;
    }

    method GetAvailable() returns (data: Bytes)
      requires Valid()
      modifies this`pos
      ensures Valid() && data == old(Pending()) && Pending() == []
    {
      data := chunk[..pos];
      pos := 0;
    }
  }
}
