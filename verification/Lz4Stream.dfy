/** The LZ4 legacy stream ("Legacy frame" of the LZ4 Frame Format description, and LG's variant
    with a trailer): a magic number, then each block preceded by its compressed size.

    The block codec is a parameter: a pair of functions that undo each other on blocks of at most
    8 MiB, with a compressed size between 1 and LZ4's compression bound. */
module Lz4Stream {
  import opened Common
  import opened LittleEndian
  import opened Chunker
  import opened Format

  const BLOCK_SIZE: nat := 0x80_0000
  const MAGIC: u32 := 0x184c_2102
  /** LZ4_COMPRESSBOUND(BLOCK_SIZE), the size of the decoder's input buffer. */
  const IN_BUF_SIZE: nat := BLOCK_SIZE + BLOCK_SIZE / 255 + 16

  datatype Codec = Codec(compress: Bytes -> Bytes, decompress: Bytes -> Option<Bytes>)

  ghost predicate ValidCodec(codec: Codec) {
    forall b: Bytes :: 0 < |b| <= BLOCK_SIZE ==>
      0 < |codec.compress(b)| <= IN_BUF_SIZE && codec.decompress(codec.compress(b)) == Some(b)
  }

  datatype Result = Ok(data: Bytes) | Err

  function Prepend(data: Bytes, r: Result): Result {
    match r
    case Ok(more) => Ok(data + more)
    case Err => Err
  }

  // ---------------------------------------------------------------------------------------
  // The format
  // ---------------------------------------------------------------------------------------

  function EncodeBlock(codec: Codec, block: Bytes): Bytes {
    var c := codec.compress(block);
    ToLe(Wrap(|c|)) + c
  }

  function EncodeBlocks(codec: Codec, blocks: seq<Bytes>): Bytes {
    if blocks == [] then [] else EncodeBlock(codec, blocks[0]) + EncodeBlocks(codec, blocks[1..])
  }

  function Headers(n: nat): Bytes {
    if n == 0 then [] else ToLe(MAGIC) + Headers(n - 1)
  }

  /** The blocks of a finished stream: the last one may be short. */
  function Blocks(input: Bytes): seq<Bytes> {
    var rest := Leftover(input, BLOCK_SIZE);
    FullBlocks(input, BLOCK_SIZE) + if rest == [] then [] else [rest]
  }

  /** A finished stream with `headers` magic numbers (one, normally). */
  function Stream(codec: Codec, headers: nat, input: Bytes, isLg: bool): Bytes {
    Headers(headers) + EncodeBlocks(codec, Blocks(input)) + if isLg then ToLe(Wrap(|input|)) else []
  }

  /** What reading a stream to its end gives. Reading stops, without an error, at the end of
      the input, at a size that cannot be a block's, and at an empty block. */
  function Decode(codec: Codec, data: Bytes): Result
    decreases |data|
  {
    if |data| < 4 then Ok([])
    else
      var word := FromLe(data[..4]);
      if word != MAGIC then DecodeBlock(codec, word, data[4..])
      else if |data| < 8 then Err
      else DecodeBlock(codec, FromLe(data[4..8]), data[8..])
  }

  function DecodeBlock(codec: Codec, size: nat, data: Bytes): Result
    decreases |data|, 1
  {
    if size > IN_BUF_SIZE || size == 0 || data == [] then Ok([])
    else if |data| < size then Err
    else match codec.decompress(data[..size])
         case None => Err
         case Some(block) =>
           if block == [] then Ok([])
           else Prepend(block, Decode(codec, data[size..]))
  }

  // ---------------------------------------------------------------------------------------
  // The encoder
  // ---------------------------------------------------------------------------------------

  lemma {:induction false} EncodeBlocksAppend(codec: Codec, blocks: seq<Bytes>, block: Bytes)
    ensures EncodeBlocks(codec, blocks + [block]) == EncodeBlocks(codec, blocks) + EncodeBlock(codec, block)
  {
    if blocks == [] {
      assert [] + [block] == [block] && [block][1..] == [];
    } else {
      EncodeBlocksAppend(codec, blocks[1..], block);
      assert (blocks + [block])[1..] == blocks[1..] + [block];
      Assoc(EncodeBlock(codec, blocks[0]), EncodeBlocks(codec, blocks[1..]), EncodeBlock(codec, block));
    }
  }

  lemma {:induction false} HeadersAppend(n: nat)
    ensures Headers(n) + ToLe(MAGIC) == Headers(n + 1)
  {
    if n > 0 {
      HeadersAppend(n - 1);
      Assoc(ToLe(MAGIC), Headers(n - 1), ToLe(MAGIC));
    }
  }

  /** How a stream ends: the leftover as a short block, then LG's trailer. */
  lemma FinishedStream(codec: Codec, headers: nat, input: Bytes, isLg: bool)
    requires |input| < WORD_LIMIT
    ensures
      var full := Headers(headers) + EncodeBlocks(codec, FullBlocks(input, BLOCK_SIZE));
      var rest := Leftover(input, BLOCK_SIZE);
      var blocks := if rest == [] then full else full + EncodeBlock(codec, rest);
      Stream(codec, headers, input, isLg) == if isLg then blocks + ToLe(|input|) else blocks
  {
    var fullBlocks := FullBlocks(input, BLOCK_SIZE);
    var rest := Leftover(input, BLOCK_SIZE);
    assert Wrap(|input|) == |input|;
    if rest != [] {
      EncodeBlocksAppend(codec, fullBlocks, rest);
      assert Headers(headers) + (EncodeBlocks(codec, fullBlocks) + EncodeBlock(codec, rest)) ==
             Headers(headers) + EncodeBlocks(codec, fullBlocks) + EncodeBlock(codec, rest);
    } else {
      assert fullBlocks + [] == fullBlocks;
    }
  }

  /** One turn of the write loop: what the chunker takes from `buf`, it cuts where `done` left off. */
  lemma TakeOne(codec: Codec, head: Bytes, done: Bytes, buf: Bytes, rest: Bytes, block: Option<Bytes>, size: nat)
      returns (done': Bytes)
    requires size > 0 && |rest| <= |buf|
    requires match block
             case Some(b) => |b| == size && b + rest == Leftover(done, size) + buf
             case None => rest == [] && |Leftover(done, size) + buf| < size
    ensures done' + rest == done + buf
    ensures Leftover(done', size) == if block.Some? then [] else Leftover(done, size) + buf
    ensures head + EncodeBlocks(codec, FullBlocks(done', size)) ==
              if block.Some? then head + EncodeBlocks(codec, FullBlocks(done, size)) + EncodeBlock(codec, block.value)
              else head + EncodeBlocks(codec, FullBlocks(done, size))
  {
    var now := buf[..|buf| - |rest|];
    done' := done + now;
    CutAppend(done, now, size);
    var full := FullBlocks(done, size);
    if block.Some? {
      HandedOut(Leftover(done, size), buf, rest, block.value, size);
      assert FullBlocks(done', size) == full + [block.value];
      EncodeBlocksAppend(codec, full, block.value);
    } else {
      assert now == buf;
      assert FullBlocks(done', size) == full + [] == full;
    }
  }

  lemma HandedOut(pending: Bytes, buf: Bytes, rest: Bytes, b: Bytes, size: nat)
    requires 0 < size == |b| && |rest| <= |buf| && |pending| < size && b + rest == pending + buf
    ensures
      var now := buf[..|buf| - |rest|];
      buf == now + rest && FullBlocks(pending + now, size) == [b] && Leftover(pending + now, size) == []
  {
    var now := buf[..|buf| - |rest|];
    assert pending + now == (pending + buf)[..size] == (b + rest)[..size] == b;
    assert rest == (b + rest)[size..] == (pending + buf)[size..] == buf[|buf| - |rest|..];
    assert b[..size] == b && b[size..] == [];
  }

  class Encoder {
    const codec: Codec
    const isLg: bool
    var out: Bytes
    var chunker: Chunker
    var total: int
    /** Everything written so far, and how often the magic number was written. */
    ghost var input: Bytes
    ghost var headers: nat

    ghost predicate Valid()
      reads this, chunker, chunker.chunk
    {
      && chunker.Valid() && chunker.chunkSize == BLOCK_SIZE
      && total == |input|
      && chunker.Pending() == Leftover(input, BLOCK_SIZE)
      && out == Headers(headers) + EncodeBlocks(codec, FullBlocks(input, BLOCK_SIZE))
    }

    constructor (codec: Codec, isLg: bool)
      ensures Valid() && input == [] && headers == 0
      ensures this.codec == codec && this.isLg == isLg
      ensures fresh(chunker) && fresh(chunker.chunk)
    {
      this.codec, this.isLg := codec, isLg;
      out, total, input, headers := [], 0, [], 0;
      chunker := new Chunker(BLOCK_SIZE);
    }

    /** The magic number goes out with every write made while nothing has been written. */
    method WriteAll(data: Bytes)
      requires Valid() && total + |data| < WORD_LIMIT
      modifies this`out, this`total, this`input, this`headers, chunker`pos, chunker.chunk
      ensures Valid() && chunker.chunk == old(chunker.chunk)
      ensures input == old(input) + data
      ensures headers == old(headers) + if old(input) == [] then 1 else 0
    {
      if total == 0 {
        assert EncodeBlocks(codec, FullBlocks(input, BLOCK_SIZE)) == [];
        HeadersAppend(headers);
        out := out + ToLe(MAGIC);
        headers := headers + 1;
      }
      total := total + |data|;
      var buf := data;
      ghost var done := input;
      while buf != []
        invariant done + buf == input + data
        invariant input == old(input) && total == |input| + |data|
        invariant headers == old(headers) + if old(input) == [] then 1 else 0
        invariant chunker.Valid() && chunker.chunk == old(chunker.chunk)
        invariant chunker.Pending() == Leftover(done, BLOCK_SIZE)
        invariant out == Headers(headers) + EncodeBlocks(codec, FullBlocks(done, BLOCK_SIZE))
        decreases |buf|
      {
        var rest, block := chunker.AddData(buf);
        done := TakeOne(codec, Headers(headers), done, buf, rest, block, BLOCK_SIZE);
        if block.Some? {
          out := out + EncodeBlock(codec, block.value);
        }
        buf := rest;
      }
      assert done == done + buf;
      input := input + data;
    }

    method Finish() returns (stream: Bytes)
      requires Valid() && total < WORD_LIMIT
      modifies this`out, chunker`pos
      ensures stream == Stream(codec, headers, input, isLg)
    {
      FinishedStream(codec, headers, input, isLg);
      var rest := chunker.GetAvailable();
      if rest != [] {
        out := out + EncodeBlock(codec, rest);
      }
      if isLg {
        out := out + ToLe(total);
      }
      stream := out;
    }
  }

  // ---------------------------------------------------------------------------------------
  // The decoder
  // ---------------------------------------------------------------------------------------

  class Decoder {
    const codec: Codec
    /** What the underlying reader still has. */
    var source: Bytes
    var outBuf: Bytes
    var outPos: nat

    ghost predicate Valid()
      reads this
    {
      outPos <= |outBuf|
    }

    /** What reading on to the end gives. */
    function Remaining(): Result
      reads this
      requires Valid()
    {
      if outPos < |outBuf| then Prepend(outBuf[outPos..], Decode(codec, source)) else Decode(codec, source)
    }

    constructor (codec: Codec, source: Bytes)
      ensures Valid() && this.codec == codec && Remaining() == Decode(codec, source)
      ensures this.source == source && outBuf == []
    {
      this.codec, this.source := codec, source;
      outBuf, outPos := [], 0;
    }

    /** `read_pod`: four bytes, or nothing if the input ends first. */
    method ReadWord() returns (word: Option<u32>)
      modifies this`source
      ensures if |old(source)| < 4 then word == None && source == []
              else word == Some(FromLe(old(source)[..4])) && source == old(source)[4..]
    {
      if |source| < 4 {
        source := [];
        word := None;
      } else {
        word := Some(FromLe(source[..4]));
        source := source[4..];
      }
    }

    /** Reads a compressed block: the underlying reader delivers `first` bytes at first, as few
        as it likes, and the rest is then read in full. `Some([])` stands for end of input. */
    method ReadCompressed(size: nat, first: nat) returns (block: Option<Bytes>)
      requires 0 < size && source != [] ==> 0 < first <= size && first <= |source|
      modifies this`source
      ensures size == 0 || old(source) == [] ==> block == Some([])
      ensures 0 < size && old(source) != [] ==>
                if |old(source)| < size then block == None
                else block == Some(old(source)[..size]) && source == old(source)[size..]
    {
      if size == 0 || source == [] {
        return Some([]);
      }
      var head := source[..first];
      source := source[first..];
      if |source| < size - first {
        return None;
      }
      block := Some(head + source[..size - first]);
      source := source[size - first..];
      assert block.value == old(source)[..size] && source == old(source)[size..];
    }

    /** The size of the next block, after the magic number if there is one. */
    method ReadSize() returns (size: Option<u32>, r: Result)
      modifies this`source
      ensures size.Some? ==>
                |source| < |old(source)| && Decode(codec, old(source)) == DecodeBlock(codec, size.value, source)
      ensures size.None? ==> r in {Ok([]), Err} && Decode(codec, old(source)) == r
    {
      size := ReadWord();
      r := Ok([]);
      if size == Some(MAGIC) {
        size := ReadWord();
        r := Err;
        assert |old(source)| >= 8 ==>
               old(source)[4..][..4] == old(source)[4..8] && old(source)[4..][4..] == old(source)[8..];
      }
    }

    /** Fetches the next block. `Some` is the result of the whole call: end of input or an error. */
    method Refill(first: nat -> nat) returns (r: Option<Result>)
      requires Valid() && forall n: nat :: n > 0 ==> 0 < first(n) <= n
      modifies this
      ensures r.Some? ==> Valid() && r.value in {Ok([]), Err} && Decode(codec, old(source)) == r.value
      ensures r.None? ==> outPos == 0 && |source| < |old(source)| &&
                          Decode(codec, old(source)) ==
                          if outBuf == [] then Ok([]) else Prepend(outBuf, Decode(codec, source))
    {
      var size, status := ReadSize();
      if size.None? {
        return Some(status);
      }
      if size.value > IN_BUF_SIZE {
        return Some(Ok([]));
      }
      var available := if |source| < size.value then |source| else size.value;
      ghost var before := source;
      var compressed := ReadCompressed(size.value, first(available));
      if compressed.None? {
        return Some(Err);
      }
      if compressed.value == [] {
        return Some(Ok([]));
      }
      var block := codec.decompress(compressed.value);
      if block.None? {
        return Some(Err);
      }
      outBuf, outPos := block.value, 0;
      r := None;
    }

    /** One call of `read` with a buffer of `len` bytes. */
    method Read(len: nat, first: nat -> nat) returns (r: Result)
      requires Valid()
      requires forall n: nat :: n > 0 ==> 0 < first(n) <= n
      modifies this
      ensures Valid()
      ensures r == Err ==> old(Remaining()) == Err
      ensures r == Ok([]) ==> old(Remaining()) == Ok([]) || (len == 0 && Remaining() == old(Remaining()))
      ensures r.Ok? && r.data != [] ==> |r.data| <= len && old(Remaining()) == Prepend(r.data, Remaining())
      ensures r.Ok? && r.data != [] ==>
                |source| < |old(source)| || (source == old(source) && |outBuf| - outPos < |old(outBuf)| - old(outPos))
    {
      hide Decode;
      if outPos == |outBuf| {
        var status := Refill(first);
        if status.Some? {
          return status.value;
        }
      }
      var n := if len < |outBuf| - outPos then len else |outBuf| - outPos;
      r := Ok(outBuf[outPos..outPos + n]);
      CopySplit(outBuf, outPos, n, Decode(codec, source));
      outPos := outPos + n;
    }
  }

  lemma CopySplit(buf: Bytes, pos: nat, n: nat, r: Result)
    requires pos + n <= |buf|
    ensures Prepend(buf[pos..], r) == Prepend(buf[pos..pos + n], Prepend(buf[pos + n..], r))
    ensures pos + n == |buf| ==> Prepend(buf[pos..], r) == Prepend(buf[pos..pos + n], r)
  {
    assert buf[pos..][..n] == buf[pos..pos + n] && buf[pos..][n..] == buf[pos + n..];
    PrependSplit(buf[pos..], n, r);
  }

  lemma PrependSplit(data: Bytes, n: nat, r: Result)
    requires n <= |data|
    ensures Prepend(data, r) == Prepend(data[..n], Prepend(data[n..], r))
    ensures n == |data| ==> Prepend(data, r) == Prepend(data[..n], r)
  {
    assert data == data[..n] + data[n..];
    if r.Ok? {
      assert data[..n] + data[n..] + r.data == data[..n] + (data[n..] + r.data);
    }
  }

  /** Reads to the end with buffers of any sizes, over a reader that delivers as little as it likes. */
  method ReadToEnd(codec: Codec, stream: Bytes, lens: nat -> nat, first: (nat, nat) -> nat) returns (r: Result)
    requires forall i: nat :: lens(i) > 0
    requires forall i: nat, n: nat :: n > 0 ==> 0 < first(i, n) <= n
    ensures r == Decode(codec, stream)
  {
    var d := new Decoder(codec, stream);
    var data, calls := [], 0;
    assert Prepend([], d.Remaining()) == d.Remaining();
    while true
      invariant fresh(d) && d.Valid() && d.codec == codec
      invariant Decode(codec, stream) == Prepend(data, d.Remaining())
      decreases |d.source|, |d.outBuf| - d.outPos
    {
      var call := calls;
      var chunk := d.Read(lens(call), n => first(call, n));
      calls := calls + 1;
      if chunk.Err? {
        return Err;
      }
      if chunk.data == [] {
        return Ok(data);
      }
      PrependTwice(data, chunk.data, d.Remaining());
      data := data + chunk.data;
    }
  }

  lemma PrependTwice(a: Bytes, b: Bytes, r: Result)
    ensures Prepend(a, Prepend(b, r)) == Prepend(a + b, r)
  {
    if r.Ok? {
      assert a + (b + r.data) == a + b + r.data;
    }
  }

  // ---------------------------------------------------------------------------------------
  // Decoding gives back what was encoded
  // ---------------------------------------------------------------------------------------

  function Flatten(parts: seq<Bytes>): Bytes {
    if parts == [] then [] else parts[0] + Flatten(parts[1..])
  }

  lemma {:induction false} FlattenAppend(parts: seq<Bytes>, part: Bytes)
    ensures Flatten(parts + [part]) == Flatten(parts) + part
  {
    if parts == [] {
      assert [] + [part] == [part] && [part][1..] == [];
    } else {
      FlattenAppend(parts[1..], part);
      assert (parts + [part])[1..] == parts[1..] + [part];
      Assoc(parts[0], Flatten(parts[1..]), part);
    }
  }

  ghost predicate AreBlocks(blocks: seq<Bytes>) {
    forall i :: 0 <= i < |blocks| ==> 0 < |blocks[i]| <= BLOCK_SIZE
  }

  lemma FlattenCons(part: Bytes, parts: seq<Bytes>)
    ensures Flatten([part] + parts) == part + Flatten(parts)
  {
    assert ([part] + parts)[1..] == parts;
  }

  lemma {:induction false} CutIsComplete(data: Bytes, size: nat)
    requires size > 0
    ensures Flatten(FullBlocks(data, size)) + Leftover(data, size) == data
    decreases |data|
  {
    if |data| >= size {
      var head, rest := data[..size], data[size..];
      var blocks, left := FullBlocks(rest, size), Leftover(rest, size);
      calc {
        Flatten(FullBlocks(data, size)) + Leftover(data, size);
        Flatten([head] + blocks) + left;
        { FlattenCons(head, blocks); }
        head + Flatten(blocks) + left;
        { Assoc(head, Flatten(blocks), left); }
        head + (Flatten(blocks) + left);
        { CutIsComplete(rest, size); }
        head + rest;
        data;
      }
    }
  }

  lemma {:induction false} FullBlockSizes(data: Bytes, size: nat)
    requires size > 0
    ensures forall i :: 0 <= i < |FullBlocks(data, size)| ==> |FullBlocks(data, size)[i]| == size
    decreases |data|
  {
    if |data| >= size {
      FullBlockSizes(data[size..], size);
    }
  }

  lemma BlocksAreComplete(input: Bytes)
    ensures AreBlocks(Blocks(input)) && Flatten(Blocks(input)) == input
    ensures input != [] ==> Blocks(input) != []
  {
    CutIsComplete(input, BLOCK_SIZE);
    FullBlockSizes(input, BLOCK_SIZE);
    var full, rest := FullBlocks(input, BLOCK_SIZE), Leftover(input, BLOCK_SIZE);
    if rest == [] {
      assert full + [] == full;
    } else {
      FlattenAppend(full, rest);
    }
  }

  /** The first word of a stream decides how to go on. */
  lemma DecodeWord(codec: Codec, word: u32, rest: Bytes)
    ensures Decode(codec, ToLe(word) + rest) ==
              if word != MAGIC then DecodeBlock(codec, word, rest)
              else if |rest| < 4 then Err
              else DecodeBlock(codec, FromLe(rest[..4]), rest[4..])
  {
    FromToLe(word);
    var data := ToLe(word) + rest;
    assert data[..4] == ToLe(word) && data[4..] == rest;
    if |rest| >= 4 {
      assert data[4..8] == rest[..4] && data[8..] == rest[4..];
    }
  }

  lemma DecodeCompressed(codec: Codec, block: Bytes, tail: Bytes)
    requires ValidCodec(codec) && 0 < |block| <= BLOCK_SIZE
    ensures
      var c := codec.compress(block);
      |c| <= IN_BUF_SIZE && DecodeBlock(codec, |c|, c + tail) == Prepend(block, Decode(codec, tail))
  {
    var c := codec.compress(block);
    assert 0 < |c| <= IN_BUF_SIZE && codec.decompress(c) == Some(block);
    assert (c + tail)[..|c|] == c && (c + tail)[|c|..] == tail;
  }

  /** A magic number before a word that is not one makes no difference. */
  lemma SkipHeader(codec: Codec, word: u32, rest: Bytes)
    requires word != MAGIC
    ensures Decode(codec, ToLe(MAGIC) + (ToLe(word) + rest)) == DecodeBlock(codec, word, rest)
  {
    var data := ToLe(word) + rest;
    assert data[..4] == ToLe(word) && data[4..] == rest;
    DecodeWord(codec, MAGIC, data);
    FromToLe(word);
  }

  lemma DecodeOneBlock(codec: Codec, block: Bytes, tail: Bytes)
    requires ValidCodec(codec) && 0 < |block| <= BLOCK_SIZE
    ensures Decode(codec, EncodeBlock(codec, block) + tail) == Prepend(block, Decode(codec, tail))
    ensures Decode(codec, ToLe(MAGIC) + (EncodeBlock(codec, block) + tail)) == Prepend(block, Decode(codec, tail))
  {
    var c := codec.compress(block);
    DecodeCompressed(codec, block, tail);
    DecodeSized(codec, c, tail);
  }

  lemma DecodeSized(codec: Codec, c: Bytes, tail: Bytes)
    requires |c| <= IN_BUF_SIZE
    ensures Decode(codec, ToLe(Wrap(|c|)) + c + tail) == DecodeBlock(codec, |c|, c + tail)
    ensures Decode(codec, ToLe(MAGIC) + (ToLe(Wrap(|c|)) + c + tail)) == DecodeBlock(codec, |c|, c + tail)
  {
    assert Wrap(|c|) == |c|;
    Assoc(ToLe(|c|), c, tail);
    DecodeWord(codec, |c|, c + tail);
    SkipHeader(codec, |c|, c + tail);
  }

  lemma {:induction false} DecodeBlocks(codec: Codec, blocks: seq<Bytes>, tail: Bytes)
    requires ValidCodec(codec) && AreBlocks(blocks)
    ensures Decode(codec, EncodeBlocks(codec, blocks) + tail) == Prepend(Flatten(blocks), Decode(codec, tail))
    ensures blocks != [] ==>
              Decode(codec, ToLe(MAGIC) + (EncodeBlocks(codec, blocks) + tail)) ==
              Prepend(Flatten(blocks), Decode(codec, tail))
  {
    if blocks == [] {
      assert [] + tail == tail;
      PrependTwice([], [], Decode(codec, tail));
    } else {
      var more := EncodeBlocks(codec, blocks[1..]);
      DecodeBlocks(codec, blocks[1..], tail);
      DecodeOneBlock(codec, blocks[0], more + tail);
      Assoc(EncodeBlock(codec, blocks[0]), more, tail);
      PrependTwice(blocks[0], Flatten(blocks[1..]), Decode(codec, tail));
    }
  }

  /** An archive, followed by anything: its data comes out, then what the rest decodes to. So
      two archives without trailer, one after the other, decode to the concatenation. Behind an
      archive without data, which is a header alone, this needs a word that is no header. */
  lemma DecodeConcatenated(codec: Codec, input: Bytes, more: Bytes)
    requires ValidCodec(codec)
    ensures Decode(codec, Stream(codec, 1, input, false) + more) ==
              if input != [] then Prepend(input, Decode(codec, more))
              else if |more| < 4 then Err
              else if FromLe(more[..4]) == MAGIC then Ok([])
              else Decode(codec, more)
  {
    var blocks := EncodeBlocks(codec, Blocks(input));
    assert Headers(1) == ToLe(MAGIC) + Headers(0) == ToLe(MAGIC);
    assert ToLe(MAGIC) + blocks + [] == ToLe(MAGIC) + blocks;
    Assoc(ToLe(MAGIC), blocks, more);
    if input == [] {
      assert blocks + more == more;
      DecodeWord(codec, MAGIC, more);
    } else {
      BlocksAreComplete(input);
      DecodeBlocks(codec, Blocks(input), more);
    }
  }

  /** Two magic numbers in a row read as a size too large for a block: reading stops there. */
  lemma TwoHeadersStop(codec: Codec, data: Bytes)
    ensures Decode(codec, ToLe(MAGIC) + (ToLe(MAGIC) + data)) == Ok([])
  {
    DecodeWord(codec, MAGIC, ToLe(MAGIC) + data);
    FromToLe(MAGIC);
    assert (ToLe(MAGIC) + data)[..4] == ToLe(MAGIC);
  }

  lemma TrailerDecodes(codec: Codec, total: u32)
    ensures Decode(codec, ToLe(total)) == if total == MAGIC then Err else Ok([])
  {
    DecodeWord(codec, total, []);
    assert ToLe(total) + [] == ToLe(total);
  }

  /** A stream decodes to its input exactly when it has one header and its trailer, if it has
      one, is not mistaken for a header. A stream of nothing does so unless it is a header alone. */
  lemma StreamDecodes(codec: Codec, headers: nat, input: Bytes, isLg: bool)
    requires ValidCodec(codec) && |input| < WORD_LIMIT && (input != [] ==> headers > 0)
    ensures Decode(codec, Stream(codec, headers, input, isLg)) == Ok(input) <==>
              if input == [] then headers != 1 || isLg else headers == 1 && !(isLg && |input| == MAGIC)
  {
    if input == [] && headers <= 1 {
      NothingDecodes(codec, headers, isLg);
    } else if headers > 1 {
      ManyHeadersStop(codec, headers, input, isLg);
    } else {
      var trailer := if isLg then ToLe(Wrap(|input|)) else [];
      assert Wrap(|input|) == |input|;
      DecodeConcatenated(codec, input, trailer);
      TrailerLast(codec, input, isLg);
      if isLg {
        TrailerDecodes(codec, |input|);
      }
      assert input + [] == input;
    }
  }

  lemma NothingDecodes(codec: Codec, headers: nat, isLg: bool)
    requires headers <= 1
    ensures Decode(codec, Stream(codec, headers, [], isLg)) == if headers == 1 && !isLg then Err else Ok([])
  {
    assert Blocks([]) == [];
    assert Headers(1) == ToLe(MAGIC) + Headers(0) == ToLe(MAGIC);
    if headers == 0 {
      TrailerDecodes(codec, 0);
      assert [] + [] + ToLe(0) == ToLe(0);
    } else {
      assert ToLe(MAGIC) + [] == ToLe(MAGIC);
      DecodeWord(codec, MAGIC, if isLg then ToLe(0) else []);
      FromToLe(0);
    }
  }

  lemma TrailerLast(codec: Codec, input: Bytes, isLg: bool)
    ensures Stream(codec, 1, input, isLg) == Stream(codec, 1, input, false) + if isLg then ToLe(Wrap(|input|)) else []
  {
    var front := Headers(1) + EncodeBlocks(codec, Blocks(input));
    assert front + [] == front;
  }

  lemma ManyHeadersStop(codec: Codec, headers: nat, input: Bytes, isLg: bool)
    requires headers > 1
    ensures Decode(codec, Stream(codec, headers, input, isLg)) == Ok([])
  {
    var blocks := EncodeBlocks(codec, Blocks(input));
    var trailer := if isLg then ToLe(Wrap(|input|)) else [];
    var h := Headers(headers - 2);
    assert Headers(headers) == ToLe(MAGIC) + Headers(headers - 1);
    assert Headers(headers - 1) == ToLe(MAGIC) + h;
    Assoc(Headers(headers), blocks, trailer);
    Assoc(ToLe(MAGIC), ToLe(MAGIC) + h, blocks + trailer);
    Assoc(ToLe(MAGIC), h, blocks + trailer);
    TwoHeadersStop(codec, h + (blocks + trailer));
  }

  /** Encodes a list of writes. The stream depends on their concatenation alone, apart from the
      extra headers that empty writes at the start cause. */
  method Encode(codec: Codec, writes: seq<Bytes>, isLg: bool) returns (stream: Bytes)
    requires |Flatten(writes)| < WORD_LIMIT
    ensures stream == Stream(codec, HeaderCount(writes), Flatten(writes), isLg)
  {
    hide Stream;
    var e := new Encoder(codec, isLg);
    for i := 0 to |writes|
      invariant fresh(e) && fresh(e.chunker) && fresh(e.chunker.chunk) && e.Valid()
      invariant e.codec == codec && e.isLg == isLg
      invariant e.input == Flatten(writes[..i]) && e.headers == HeaderCount(writes[..i])
    {
      assert writes[..i + 1] == writes[..i] + [writes[i]];
      FlattenAppend(writes[..i], writes[i]);
      FlattenPrefix(writes, i + 1);
      HeaderCountAppend(writes[..i], writes[i]);
      e.WriteAll(writes[i]);
    }
    assert writes[..|writes|] == writes;
    stream := e.Finish();
  }

  /** Every write before any data, and the first with data, puts out the magic number. */
  function HeaderCount(writes: seq<Bytes>): nat {
    if writes == [] then 0 else 1 + if writes[0] == [] then HeaderCount(writes[1..]) else 0
  }

  lemma {:induction false} HeaderCountAppend(writes: seq<Bytes>, w: Bytes)
    ensures HeaderCount(writes + [w]) == HeaderCount(writes) + if Flatten(writes) == [] then 1 else 0
  {
    if writes == [] {
      assert [w][1..] == [];
    } else {
      assert (writes + [w])[1..] == writes[1..] + [w];
      HeaderCountAppend(writes[1..], w);
    }
  }

  lemma {:induction false} FlattenPrefix(parts: seq<Bytes>, n: nat)
    requires n <= |parts|
    ensures |Flatten(parts[..n])| <= |Flatten(parts)|
  {
    if n > 0 {
      FlattenPrefix(parts[1..], n - 1);
      assert parts[..n][1..] == parts[1..][..n - 1];
    }
  }

  lemma {:induction false} OneHeader(writes: seq<Bytes>)
    requires Flatten(writes) != []
    ensures HeaderCount(writes) > 0 && (HeaderCount(writes) == 1 <==> writes[0] != [])
  {
    if writes[0] == [] {
      OneHeader(writes[1..]);
    }
  }

  lemma {:induction false} EmptyWritesHeaders(writes: seq<Bytes>)
    requires Flatten(writes) == []
    ensures HeaderCount(writes) == |writes|
  {
    if writes != [] {
      EmptyWritesHeaders(writes[1..]);
    }
  }

  /** The round trip: however the input was cut into writes, and however it is read, decoding
      the encoded stream gives the input back, unless an empty write came first or LG's trailer
      looks like the magic number. No data at all comes back too, unless one empty write left a
      header without a trailer. */
  method RoundTrip(codec: Codec, writes: seq<Bytes>, isLg: bool, lens: nat -> nat, first: (nat, nat) -> nat)
    returns (r: Result)
    requires ValidCodec(codec) && |Flatten(writes)| < WORD_LIMIT
    requires forall i: nat :: lens(i) > 0
    requires forall i: nat, n: nat :: n > 0 ==> 0 < first(i, n) <= n
    ensures r == Ok(Flatten(writes)) <==>
              if Flatten(writes) == [] then |writes| != 1 || isLg
              else writes[0] != [] && !(isLg && |Flatten(writes)| == MAGIC)
  {
    var stream := Encode(codec, writes, isLg);
    if Flatten(writes) == [] {
      EmptyWritesHeaders(writes);
    } else {
      OneHeader(writes);
    }
    StreamDecodes(codec, HeaderCount(writes), Flatten(writes), isLg);
    r := ReadToEnd(codec, stream, lens, first);
  }

  // ---------------------------------------------------------------------------------------
  // Telling the two variants apart
  // ---------------------------------------------------------------------------------------

  /** The 32-bit sum of two 32-bit numbers. */
  function WrapSum(n: nat): int { if n < WORD_LIMIT then n else n - WORD_LIMIT }

  /** Following the block sizes from `off`: a size that leads past the end means LG's trailer.
      `None` stands for an offset that wraps around 2^32 and leads backwards. */
  function LabelFrom(buf: Bytes, off: nat): Option<FileFormat>
    decreases |buf| - off
  {
    if off + 4 > |buf| then Some(LZ4_LEGACY)
    else
      var next := off + 4 + FromLe(buf[off..off + 4]);
      if WrapSum(next) > |buf| then Some(FileFormat.LZ4_LG)
      else if next >= WORD_LIMIT then None
      else LabelFrom(buf, next)
  }

  method CheckFmtLg(buf: Bytes) returns (fmt: Option<FileFormat>)
    requires |buf| < WORD_LIMIT
    ensures fmt == if CheckFmt(buf) == LZ4_LEGACY then LabelFrom(buf, 4) else Some(CheckFmt(buf))
  {
    var f := CheckFmt(buf);
    if f == LZ4_LEGACY {
      var off := 4;
      while off + 4 <= |buf|
        invariant LabelFrom(buf, off) == LabelFrom(buf, 4)
        decreases |buf| - off
      {
        var size := FromLe(buf[off..off + 4]);
        off := off + 4;
        if WrapSum(off + size) > |buf| {
          return Some(FileFormat.LZ4_LG);
        }
        if off + size >= WORD_LIMIT {
          return None;
        }
        off := off + size;
      }
    }
    fmt := Some(f);
  }

  lemma LabelStep(data: Bytes, off: nat, size: u32)
    requires off + 4 + size <= |data| < WORD_LIMIT && FromLe(data[off..off + 4]) == size
    ensures LabelFrom(data, off) == LabelFrom(data, off + 4 + size)
  {
  }

  lemma EncodedBlock(codec: Codec, block: Bytes)
    requires ValidCodec(codec) && 0 < |block| <= BLOCK_SIZE
    ensures
      var c := codec.compress(block);
      |c| < WORD_LIMIT && EncodeBlock(codec, block) == ToLe(|c|) + c
  {
    var c := codec.compress(block);
    assert 0 < |c| <= IN_BUF_SIZE;
    assert Wrap(|c|) == |c|;
  }

  /** Following the size of one block leads behind it. */
  lemma LabelAfterBlock(data: Bytes, off: nat, c: Bytes)
    requires |data| < WORD_LIMIT && |c| < WORD_LIMIT && HasAt(data, off, ToLe(|c|) + c)
    ensures LabelFrom(data, off) == LabelFrom(data, off + |ToLe(|c|) + c|)
  {
    HasAtSplit(data, off, ToLe(|c|), c);
    FromToLe(|c|);
    LabelStep(data, off, |c|);
  }

  lemma LabelAfterEncoded(codec: Codec, data: Bytes, off: nat, block: Bytes)
    requires ValidCodec(codec) && 0 < |block| <= BLOCK_SIZE
    requires |data| < WORD_LIMIT && HasAt(data, off, EncodeBlock(codec, block))
    ensures LabelFrom(data, off) == LabelFrom(data, off + |EncodeBlock(codec, block)|)
  {
    EncodedBlock(codec, block);
    LabelAfterBlock(data, off, codec.compress(block));
  }

  /** Following the sizes of whole blocks leads behind them. */
  lemma {:induction false} LabelAfterBlocks(codec: Codec, data: Bytes, off: nat, blocks: seq<Bytes>)
    requires ValidCodec(codec) && AreBlocks(blocks) && |data| < WORD_LIMIT
    requires HasAt(data, off, EncodeBlocks(codec, blocks))
    ensures LabelFrom(data, off) == LabelFrom(data, off + |EncodeBlocks(codec, blocks)|)
    decreases |blocks|
  {
    hide LabelFrom, EncodeBlock, ValidCodec, HasAt;
    if blocks != [] {
      var first, more := EncodeBlock(codec, blocks[0]), EncodeBlocks(codec, blocks[1..]);
      HasAtSplit(data, off, first, more);
      LabelAfterEncoded(codec, data, off, blocks[0]);
      LabelAfterBlocks(codec, data, off + |first|, blocks[1..]);
    }
  }

  lemma MagicBytes()
    ensures ToLe(MAGIC) == [0x02, 0x21, 0x4c, 0x18]
  {
    var b: Bytes := [0x02, 0x21, 0x4c, 0x18];
    assert b[1..] == [0x21, 0x4c, 0x18] && b[1..][1..] == [0x4c, 0x18] && b[1..][1..][1..] == [0x18];
    assert FromLe(b) == MAGIC;
    ToFromLe(b);
  }

  lemma StreamParts(codec: Codec, input: Bytes, isLg: bool)
    requires |input| < WORD_LIMIT
    ensures
      var stream := Stream(codec, 1, input, isLg);
      && |stream| >= 4
      && stream[..4] == [0x02, 0x21, 0x4c, 0x18]
      && stream[4..] == EncodeBlocks(codec, Blocks(input)) + if isLg then ToLe(|input|) else []
  {
    var blocks := EncodeBlocks(codec, Blocks(input));
    var trailer := if isLg then ToLe(Wrap(|input|)) else [];
    assert Wrap(|input|) == |input|;
    assert Headers(1) == ToLe(MAGIC) + Headers(0) == ToLe(MAGIC);
    Assoc(ToLe(MAGIC), blocks, trailer);
    MagicBytes();
  }

  /** An archive gets its own label, the legacy one LZ4_LEGACY and LG's LZ4_LG, exactly when an LG archive
      is not empty and the walk over its sizes stays below 2^32. */
  lemma LabelsAreRight(codec: Codec, input: Bytes, isLg: bool)
    requires ValidCodec(codec) && |input| < WORD_LIMIT && |Stream(codec, 1, input, isLg)| < WORD_LIMIT
    ensures var stream := Stream(codec, 1, input, isLg);
            && CheckFmt(stream) == LZ4_LEGACY
            && (LabelFrom(stream, 4) == Some(if isLg then FileFormat.LZ4_LG else LZ4_LEGACY) <==>
                !isLg || (input != [] && |stream| + |input| < WORD_LIMIT))
  {
    StreamParts(codec, input, isLg);
    BlocksAreComplete(input);
    LegacyByMagic(Stream(codec, 1, input, isLg));
    LabelParts(codec, Stream(codec, 1, input, isLg), Blocks(input), if isLg then ToLe(|input|) else [], |input|);
  }

  /** The label where the walk reaches the trailer. */
  function TrailerLabel(size: nat, trailer: Bytes, total: u32): Option<FileFormat> {
    if trailer == [] then Some(LZ4_LEGACY)
    else if size + total >= WORD_LIMIT then None
    else Some(if total == 0 then LZ4_LEGACY else FileFormat.LZ4_LG)
  }

  lemma LabelParts(codec: Codec, stream: Bytes, blocks: seq<Bytes>, trailer: Bytes, total: u32)
    requires ValidCodec(codec) && AreBlocks(blocks)
    requires 4 <= |stream| < WORD_LIMIT
    requires stream[4..] == EncodeBlocks(codec, blocks) + trailer
    requires trailer == [] || trailer == ToLe(total)
    ensures LabelFrom(stream, 4) == TrailerLabel(|stream|, trailer, total)
  {
    hide LabelFrom, EncodeBlocks, ValidCodec, AreBlocks, ToLe;
    var enc := EncodeBlocks(codec, blocks);
    var off := 4 + |enc|;
    SplitAt(stream, 4, enc, trailer);
    LabelAfterBlocks(codec, stream, 4, blocks);
    LabelOfTrailer(stream, off, trailer, total);
  }

  lemma LabelOfTrailer(data: Bytes, off: nat, trailer: Bytes, total: u32)
    requires |data| < WORD_LIMIT && off <= |data| && data[off..] == trailer
    requires trailer == [] || trailer == ToLe(total)
    ensures LabelFrom(data, off) == TrailerLabel(|data|, trailer, total)
  {
    if trailer != [] {
      assert data[off..off + 4] == trailer;
      FromToLe(total);
    }
  }
}
