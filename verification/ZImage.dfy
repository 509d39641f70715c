/** 32-bit ARM zImages: finding the compressed kernel, and relocating what stands around it. */
module ZImage {
  import opened Common
  import opened LittleEndian
  import opened Format
  import opened BootHeader

  datatype ZImage = ZImage(
    head: Bytes, piggy: Bytes, tail: Bytes, fmt: FileFormat,
    offInflatedSize: u32, offLc0: u32, offLc1: u32, offTable: u32)

  /** A word, or zero when it does not lie in the buffer. */
  function ReadU32(buf: Bytes, off: nat): u32 { if off + 4 <= |buf| then Word(buf, off) else 0 }

  /** Nothing is written past the buffer. */
  function WriteU32(buf: Bytes, off: nat, n: u32): (r: Bytes)
    ensures |r| == |buf|
  {
    if off + 4 <= |buf| then Put(buf, off, ToLe(n)) else buf
  }

  function Add(a: u32, b: u32): u32 { Wrap(a + b) }

  function Sub(a: u32, b: u32): u32 { Wrap(a - b) }

  // ---------------------------------------------------------------------------------------
  // Sizes and shifts
  // ---------------------------------------------------------------------------------------

  function AlignUp4(n: nat): (r: nat)
    ensures r % 4 == 0 && n <= r < n + 4
  {
    (n + 3) / 4 * 4
  }

  function LoadAddress(z: ZImage): u32 { ReadU32(z.head, 0x28) }

  /** The address behind a payload, and the address of the offset table that follows it. */
  function PiggyEnd(z: ZImage, payload: nat): nat { |z.head| + payload + LoadAddress(z) }

  function GotStart(z: ZImage, payload: nat): nat { AlignUp4(PiggyEnd(z, payload)) }

  function PadSize(z: ZImage, payload: nat): nat { GotStart(z, payload) - PiggyEnd(z, payload) }

  /** No address of the old or the new image exceeds 32 bits. */
  predicate NoWrap(z: ZImage, payload: nat) {
    PiggyEnd(z, |z.piggy|) + 3 < WORD_LIMIT && PiggyEnd(z, payload) + 3 < WORD_LIMIT
  }

  /** How far the table moves; negative when the payload shrinks. */
  function Shift(z: ZImage, payload: nat): int { GotStart(z, payload) - GotStart(z, |z.piggy|) }

  function ShiftWord(z: ZImage, payload: nat): u32 { Wrap(Shift(z, payload)) }

  /** The payload is new. */
  predicate Resized(z: ZImage, payload: nat) { payload != 0 && payload != |z.piggy| }

  // ---------------------------------------------------------------------------------------
  // The tail
  // ---------------------------------------------------------------------------------------

  /** The rule for a word of the tail: the end of the payload moves with it, later addresses with the table. */
  function Relocate(z: ZImage, payload: nat, v: u32): u32
    requires NoWrap(z, payload)
  {
    if v == PiggyEnd(z, |z.piggy|) then PiggyEnd(z, payload)
    else if v >= Sub(GotStart(z, |z.piggy|), 4) then Add(v, ShiftWord(z, payload))
    else v
  }

  /** Every word, from the start; up to three bytes at the end stay. */
  function MapWords(b: Bytes, f: u32 -> u32): (r: Bytes)
    ensures |r| == |b|
  {
    if |b| < 4 then b else ToLe(f(FromLe(b[..4]))) + MapWords(b[4..], f)
  }

  function NewTail(z: ZImage, payload: nat): Bytes
    requires NoWrap(z, payload)
  {
    if z.tail == [] || !Resized(z, payload) then z.tail
    else
      var pad := PadSize(z, |z.piggy|);
      var rest := if pad < |z.tail| then z.tail[pad..] else [];
      Zeros(PadSize(z, payload)) +
      (if z.offLc0 == 0 then rest else MapWords(rest, Rule(z, payload)))
  }

  function Rule(z: ZImage, payload: nat): u32 -> u32 {
    (v: u32) => if NoWrap(z, payload) then Relocate(z, payload, v) else v
  }

  lemma ReadAfter(front: Bytes, b: Bytes)
    requires |b| >= 4
    ensures ReadU32(front + b, |front|) == FromLe(b[..4])
  {
    hide FromLe;
    assert (front + b)[|front|..|front| + 4] == b[..4];
  }

  lemma WriteAfter(front: Bytes, b: Bytes, n: u32)
    requires |b| >= 4
    ensures WriteU32(front + b, |front|, n) == front + ToLe(n) + b[4..]
  {
    hide ToLe;
    assert (front + b)[..|front|] == front;
    assert (front + b)[|front| + 4..] == b[4..];
  }

  lemma MapFirst(b: Bytes, f: u32 -> u32)
    requires |b| >= 4
    ensures MapWords(b, f) == ToLe(f(FromLe(b[..4]))) + MapWords(b[4..], f)
  {
    hide ToLe, FromLe;
  }

  /** The loop over the words of the tail. */
  method PatchWords(buf: Bytes, from: nat, f: u32 -> u32) returns (out: Bytes)
    requires from <= |buf|
    ensures out == buf[..from] + MapWords(buf[from..], f)
  {
    hide WriteU32, ReadU32, MapWords, ToLe, FromLe;
    out := buf;
    var i := from;
    ghost var front, rest := buf[..from], buf[from..];
    while i + 4 <= |out|
      invariant |out| == |buf| && i <= |buf| && out == front + rest && |front| == i
      invariant front + MapWords(rest, f) == buf[..from] + MapWords(buf[from..], f)
    {
      ReadAfter(front, rest);
      MapFirst(rest, f);
      var val := ReadU32(out, i);
      var word := ToLe(f(val));
      Assoc(front, word, MapWords(rest[4..], f));
      WriteAfter(front, rest, f(val));
      out := WriteU32(out, i, f(val));
      front, rest := front + word, rest[4..];
      i := i + 4;
    }
    ShortEnd(rest, f);
  }

  lemma ShortEnd(b: Bytes, f: u32 -> u32)
    requires |b| < 4
    ensures MapWords(b, f) == b
  {
  }

  /** `(n + 3) & !3` */
  function AlignWord(n: u32): u32
    requires n + 3 < WORD_LIMIT
  {
    AlignUp4(n)
  }

  /** The addresses as the code adds them up. */
  lemma AddressSums(z: ZImage, payload: nat)
    requires NoWrap(z, payload)
    ensures Add(Add(Wrap(|z.head|), Wrap(payload)), LoadAddress(z)) == PiggyEnd(z, payload)
    ensures Add(Add(Wrap(|z.head|), Wrap(|z.piggy|)), LoadAddress(z)) == PiggyEnd(z, |z.piggy|)
    ensures Sub(GotStart(z, payload), GotStart(z, |z.piggy|)) == ShiftWord(z, payload)
  {
    hide LoadAddress;
  }

  /** The ends of the old and the new payload, and how far the offset table moves. */
  method Addresses(z: ZImage, payload: nat) returns (origEnd: u32, newEnd: u32, delta: u32)
    requires NoWrap(z, payload)
    ensures origEnd == PiggyEnd(z, |z.piggy|) && newEnd == PiggyEnd(z, payload) && delta == ShiftWord(z, payload)
  {
    hide LoadAddress, Add, Sub, ShiftWord, AlignUp4;
    AddressSums(z, payload);
    var start := LoadAddress(z);
    origEnd := Add(Add(Wrap(|z.head|), Wrap(|z.piggy|)), start);
    newEnd := Add(Add(Wrap(|z.head|), Wrap(payload)), start);
    delta := Sub(AlignWord(newEnd), AlignWord(origEnd));
  }

  /** `new_tail` */
  method BuildTail(z: ZImage, payload: nat) returns (result: Bytes)
    requires NoWrap(z, payload)
    ensures result == NewTail(z, payload)
  {
    hide LoadAddress, MapWords, Add, Sub, ShiftWord, AlignUp4;
    if z.tail == [] || payload == 0 || payload == |z.piggy| {
      return z.tail;
    }
    var origEnd, newEnd, delta := Addresses(z, payload);
    var origGot: u32 := AlignWord(origEnd);
    var origPad := origGot - origEnd;
    var newGot: u32 := AlignWord(newEnd);
    var newPad := newGot - newEnd;
    result := Zeros(newPad);
    if origPad < |z.tail| {
      result := result + z.tail[origPad..];
    }
    ghost var rest := if origPad < |z.tail| then z.tail[origPad..] else [];
    assert result == Zeros(newPad) + rest;
    assert result[..newPad] == Zeros(newPad) && result[newPad..] == rest;
    if z.offLc0 != 0 {
      var rule := (v: u32) =>
        if v == origEnd then newEnd else if v >= Sub(origGot, 4) then Add(v, delta) else v;
      result := PatchWords(result, newPad, rule);
      SameRule(rest, rule, Rule(z, payload));
    }
  }

  lemma {:induction false} SameRule(b: Bytes, f: u32 -> u32, g: u32 -> u32)
    requires forall v :: f(v) == g(v)
    ensures MapWords(b, f) == MapWords(b, g)
    decreases |b|
  {
    hide ToLe, FromLe;
    if |b| >= 4 {
      SameRule(b[4..], f, g);
    }
  }

  /** The image grows by exactly the shift of the offset table, unless the tail is shorter than the old
      padding or is left as it was while the padding changes. */
  lemma TailLength(z: ZImage, payload: nat)
    requires NoWrap(z, payload)
    ensures (|z.head| + payload + |NewTail(z, payload)|) - (|z.head| + |z.piggy| + |z.tail|) == Shift(z, payload) <==>
              if z.tail == [] || !Resized(z, payload) then PadSize(z, payload) == PadSize(z, |z.piggy|)
              else PadSize(z, |z.piggy|) <= |z.tail|
    ensures Resized(z, payload) ==> (|z.head| + payload + PadSize(z, payload) + LoadAddress(z)) % 4 == 0
  {
    hide LoadAddress, Relocate, MapWords;
  }

  /** Word `k` of the tail behind the padding. */
  function TailWord(tail: Bytes, pad: nat, k: nat): u32
    requires pad + 4 * k + 4 <= |tail|
  {
    Word(tail, pad + 4 * k)
  }

  lemma {:induction false} MapWordsAt(b: Bytes, f: u32 -> u32, k: nat)
    requires 4 * k + 4 <= |b|
    ensures Word(MapWords(b, f), 4 * k) == f(Word(b, 4 * k))
    decreases |b|
  {
    hide ToLe, FromLe;
    var first := FromLe(b[..4]);
    if k == 0 {
      FromToLe(f(first));
      assert MapWords(b, f)[0..4] == ToLe(f(first)) && b[0..4] == b[..4];
    } else {
      MapWordsAt(b[4..], f, k - 1);
      var r := MapWords(b, f);
      assert r[4 * k..4 * k + 4] == MapWords(b[4..], f)[4 * (k - 1)..4 * (k - 1) + 4];
      assert b[4 * k..4 * k + 4] == b[4..][4 * (k - 1)..4 * (k - 1) + 4];
    }
  }

  lemma SliceBehind(front: Bytes, b: Bytes, i: nat, j: nat)
    requires i <= j <= |b|
    ensures (front + b)[|front| + i..|front| + j] == b[i..j]
  {
  }

  /** Every word behind the padding is relocated on its own, by the one rule. */
  lemma TailWordsRelocated(z: ZImage, payload: nat, k: nat)
    requires NoWrap(z, payload) && Resized(z, payload) && z.offLc0 != 0
    requires PadSize(z, |z.piggy|) + 4 * k + 4 <= |z.tail|
    ensures |NewTail(z, payload)| >= PadSize(z, payload) + 4 * k + 4
    ensures TailWord(NewTail(z, payload), PadSize(z, payload), k)
            == Relocate(z, payload, TailWord(z.tail, PadSize(z, |z.piggy|), k))
  {
    hide ToLe, FromLe, LoadAddress, Relocate, MapWords;
    var pad, newPad := PadSize(z, |z.piggy|), PadSize(z, payload);
    var rest := z.tail[pad..];
    var f := Rule(z, payload);
    MapWordsAt(rest, f, k);
    var r := NewTail(z, payload);
    assert r == Zeros(newPad) + MapWords(rest, f);
    SliceBehind(Zeros(newPad), MapWords(rest, f), 4 * k, 4 * k + 4);
    SliceBehind(z.tail[..pad], rest, 4 * k, 4 * k + 4);
    assert z.tail == z.tail[..pad] + rest;
  }

  lemma WrapCases(n: int)
    requires 0 - WORD_LIMIT <= n < 2 * WORD_LIMIT
    ensures Wrap(n) == if n < 0 then n + WORD_LIMIT else if n < WORD_LIMIT then n else n - WORD_LIMIT
  {
  }

  /** The rule without the modular arithmetic. */
  lemma RelocateCases(z: ZImage, payload: nat, v: u32)
    requires NoWrap(z, payload) && |z.head| >= 4
    ensures var moved := v + Shift(z, payload);
            Relocate(z, payload, v) ==
              if v == PiggyEnd(z, |z.piggy|) then PiggyEnd(z, payload)
              else if v < GotStart(z, |z.piggy|) - 4 then v
              else if moved < WORD_LIMIT then moved else moved - WORD_LIMIT
  {
    hide LoadAddress, Wrap;
    var d := Shift(z, payload);
    WrapCases(GotStart(z, |z.piggy|) - 4);
    WrapCases(d);
    WrapCases(v + Wrap(d));
  }

  /** An address in or behind the table names the same place of the tail before and after, exactly
      when it stays in 32 bits and is not taken for the payload's end with a new padding behind it. */
  lemma AddressFollows(z: ZImage, payload: nat, v: u32)
    requires NoWrap(z, payload) && |z.head| >= 4 && v >= GotStart(z, |z.piggy|)
    ensures Relocate(z, payload, v) - GotStart(z, payload) == v - GotStart(z, |z.piggy|) <==>
            v + Shift(z, payload) < WORD_LIMIT && (v != PiggyEnd(z, |z.piggy|) || PadSize(z, payload) == 0)
  {
    hide LoadAddress, Relocate, AlignUp4;
    RelocateCases(z, payload, v);
  }

  /** The table's own start, when the old payload ends on a word and the new one does not: it is sent
      to the new payload's end, before the padding. */
  lemma TableStartIsMisplaced(z: ZImage, payload: nat)
    requires NoWrap(z, payload) && |z.head| >= 4
    requires PadSize(z, |z.piggy|) == 0 && PadSize(z, payload) != 0
    ensures Relocate(z, payload, GotStart(z, |z.piggy|)) == PiggyEnd(z, payload) < GotStart(z, payload)
  {
    hide LoadAddress, Relocate, AlignUp4;
    RelocateCases(z, payload, GotStart(z, |z.piggy|));
  }

  /** The image with another payload of the given size. */
  ghost function WithPayload(z: ZImage, payload: nat): ZImage { z.(piggy := Zeros(payload)) }

  /** Going back to the old size undoes the relocation of exactly these words. */
  predicate Undoable(z: ZImage, payload: nat, v: u32) {
    if v == PiggyEnd(z, |z.piggy|) then true
    else if v >= GotStart(z, |z.piggy|) - 4 then
      v + Shift(z, payload) < WORD_LIMIT && v + Shift(z, payload) != PiggyEnd(z, payload)
    else v < GotStart(z, payload) - 4
  }

  lemma RelocateUndone(z: ZImage, payload: nat, v: u32)
    requires NoWrap(z, payload) && |z.head| >= 4
    ensures NoWrap(WithPayload(z, payload), |z.piggy|)
    ensures Relocate(WithPayload(z, payload), |z.piggy|, Relocate(z, payload, v)) == v <==> Undoable(z, payload, v)
  {
    hide LoadAddress, Relocate, AlignUp4;
    var back := WithPayload(z, payload);
    SameHead(z, back);
    RelocateCases(z, payload, v);
    RelocateCases(back, |z.piggy|, Relocate(z, payload, v));
  }

  /** One word that cannot: when the paddings differ, it comes to lie where the new payload ends. */
  lemma AmbiguousWord(z: ZImage, payload: nat)
    requires NoWrap(z, payload) && |z.head| >= 4 && PadSize(z, |z.piggy|) != PadSize(z, payload)
    ensures !Undoable(z, payload, GotStart(z, |z.piggy|) - PadSize(z, payload))
  {
    hide LoadAddress, AlignUp4;
  }

  lemma SameHead(a: ZImage, b: ZImage)
    requires a.head == b.head
    ensures LoadAddress(a) == LoadAddress(b)
  {
  }

  // ---------------------------------------------------------------------------------------
  // The head
  // ---------------------------------------------------------------------------------------

  /** A word of the head that a resize patches; entries of the LC0 table have a rule of their own. */
  datatype Patch = Patch(off: nat, lc0: bool)

  function Lc0Patches(off: nat, n: nat): seq<Patch> {
    if n == 0 then [] else Lc0Patches(off, n - 1) + [Patch(off + n * 4, true)]
  }

  function One(off: u32): seq<Patch> { if off != 0 then [Patch(off, false)] else [] }

  function Two(off: u32): seq<Patch> { if off != 0 then [Patch(off, false), Patch(off + 4, false)] else [] }

  function Seven(off: u32): seq<Patch> { if off != 0 then Lc0Patches(off, 7) else [] }

  /** The end of the image, and the tables that were found. */
  function PatchList(z: ZImage): seq<Patch> {
    One(0x2c) + One(z.offInflatedSize) + Seven(z.offLc0) + Two(z.offLc1) + One(z.offTable)
  }

  /** A plain entry moves with the offset table; an LC0 entry only if it points behind the head. */
  function HeadRule(z: ZImage, payload: nat, lc0: bool, v: u32): u32
    requires NoWrap(z, payload)
  {
    if !lc0 then Add(v, ShiftWord(z, payload))
    else if v == Sub(PiggyEnd(z, |z.piggy|), 4) then Sub(PiggyEnd(z, payload), 4)
    else if v >= Add(Wrap(|z.head|), LoadAddress(z)) then Add(v, ShiftWord(z, payload))
    else v
  }

  function Apply(z: ZImage, payload: nat, buf: Bytes, p: Patch): (r: Bytes)
    requires NoWrap(z, payload)
    ensures |r| == |buf|
  {
    WriteU32(buf, p.off, HeadRule(z, payload, p.lc0, ReadU32(buf, p.off)))
  }

  function ApplyAll(z: ZImage, payload: nat, buf: Bytes, ps: seq<Patch>): (r: Bytes)
    requires NoWrap(z, payload)
    ensures |r| == |buf|
  {
    if ps == [] then buf
    else Apply(z, payload, ApplyAll(z, payload, buf, ps[..|ps| - 1]), ps[|ps| - 1])
  }

  lemma ApplyMore(z: ZImage, payload: nat, buf: Bytes, ps: seq<Patch>, p: Patch)
    requires NoWrap(z, payload)
    ensures ApplyAll(z, payload, buf, ps + [p]) == Apply(z, payload, ApplyAll(z, payload, buf, ps), p)
  {
    hide Apply;
    assert (ps + [p])[..|ps|] == ps;
  }

  predicate Away(off: nat, p: Patch) { off + 4 <= p.off || p.off + 4 <= off }

  /** A word away from all patches stays. */
  lemma {:induction false} ApplyKeeps(z: ZImage, payload: nat, buf: Bytes, ps: seq<Patch>, off: nat)
    requires NoWrap(z, payload) && forall i :: 0 <= i < |ps| ==> Away(off, ps[i])
    ensures ReadU32(ApplyAll(z, payload, buf, ps), off) == ReadU32(buf, off)
  {
    hide HeadRule, ToLe, Word, Put;
    if ps != [] {
      var init, p := ps[..|ps| - 1], ps[|ps| - 1];
      ApplyKeeps(z, payload, buf, init, off);
      var before := ApplyAll(z, payload, buf, init);
      WriteKeeps(before, p.off, HeadRule(z, payload, p.lc0, ReadU32(before, p.off)), off);
    }
  }

  lemma WriteKeeps(buf: Bytes, off: nat, n: u32, at: nat)
    requires at + 4 <= off || off + 4 <= at
    ensures ReadU32(WriteU32(buf, off, n), at) == ReadU32(buf, at)
  {
    hide ToLe, FromLe;
    if off + 4 <= |buf| && at + 4 <= |buf| {
      PutKeeps(buf, off, ToLe(n), at, at + 4);
    }
  }

  ghost predicate Apart(ps: seq<Patch>) { forall i, j :: 0 <= i < j < |ps| ==> Away(ps[i].off, ps[j]) }

  /** When the words do not overlap, each is patched once, by its rule. */
  lemma {:induction false} ApplyReads(z: ZImage, payload: nat, buf: Bytes, ps: seq<Patch>, i: nat)
    requires NoWrap(z, payload) && Apart(ps) && i < |ps| && ps[i].off + 4 <= |buf|
    ensures ReadU32(ApplyAll(z, payload, buf, ps), ps[i].off)
            == HeadRule(z, payload, ps[i].lc0, ReadU32(buf, ps[i].off))
  {
    hide HeadRule, ToLe, Word, Put;
    var init, p := ps[..|ps| - 1], ps[|ps| - 1];
    var before := ApplyAll(z, payload, buf, init);
    if i == |init| {
      forall j | 0 <= j < |init| ensures Away(p.off, init[j]) {
        assert Away(ps[j].off, ps[i]);
      }
      ApplyKeeps(z, payload, buf, init, p.off);
      PutReads(before, p.off, HeadRule(z, payload, p.lc0, ReadU32(before, p.off)));
    } else {
      forall j, k | 0 <= j < k < |init| ensures Away(init[j].off, init[k]) {
        assert Away(ps[j].off, ps[k]);
      }
      ApplyReads(z, payload, buf, init, i);
      assert Away(ps[i].off, p);
      WriteKeeps(before, p.off, HeadRule(z, payload, p.lc0, ReadU32(before, p.off)), ps[i].off);
    }
  }

  function NewHead(z: ZImage, payload: nat): (r: Bytes)
    requires NoWrap(z, payload)
    ensures |r| == |z.head|
  {
    if z.head == [] || !Resized(z, payload) then z.head else ApplyAll(z, payload, z.head, PatchList(z))
  }

  /** `new_head` without its last step, the literals in the code that locate the offset table. */
  method BuildHead(z: ZImage, payload: nat) returns (head: Bytes)
    requires NoWrap(z, payload)
    ensures head == NewHead(z, payload)
  {
    hide NoWrap, PiggyEnd, ShiftWord, ApplyAll, One, Two, Seven;
    head := z.head;
    if z.head == [] || payload == 0 || payload == |z.piggy| {
      return;
    }
    var origEnd, newEnd, delta := Addresses(z, payload);
    ghost var done: seq<Patch> := [];
    ApplyNone(z, payload);
    head, done := AddAt(z, payload, head, done, 0x2c, delta);
    assert done == One(0x2c);
    head, done := AddAt(z, payload, head, done, z.offInflatedSize, delta);
    head, done := PatchLc0(z, payload, head, done, origEnd, newEnd, delta);
    head, done := PatchLc1(z, payload, head, done, delta);
    head, done := AddAt(z, payload, head, done, z.offTable, delta);
  }

  lemma ApplyNone(z: ZImage, payload: nat)
    requires NoWrap(z, payload)
    ensures ApplyAll(z, payload, z.head, []) == z.head
  {
  }

  /** Move the word at `off`, if there is one. */
  method AddAt(z: ZImage, payload: nat, head: Bytes, ghost done: seq<Patch>, off: u32, delta: u32)
    returns (out: Bytes, ghost now: seq<Patch>)
    requires NoWrap(z, payload) && delta == ShiftWord(z, payload) && head == ApplyAll(z, payload, z.head, done)
    ensures now == done + One(off) && out == ApplyAll(z, payload, z.head, now)
  {
    hide ApplyAll, Add, ShiftWord, ReadU32, WriteU32;
    out, now := head, done;
    if off != 0 {
      out := WriteU32(head, off, Add(ReadU32(head, off), delta));
      now := done + [Patch(off, false)];
      ApplyMore(z, payload, z.head, done, Patch(off, false));
    } else {
      assert done + [] == done;
    }
  }

  method PatchLc1(z: ZImage, payload: nat, head: Bytes, ghost done: seq<Patch>, delta: u32)
    returns (out: Bytes, ghost now: seq<Patch>)
    requires NoWrap(z, payload) && delta == ShiftWord(z, payload) && head == ApplyAll(z, payload, z.head, done)
    ensures now == done + Two(z.offLc1) && out == ApplyAll(z, payload, z.head, now)
  {
    hide ApplyAll, Add, ShiftWord, ReadU32, WriteU32;
    out, now := head, done;
    var off: nat := z.offLc1;
    if off != 0 {
      var val0, val1 := ReadU32(head, off), ReadU32(head, off + 4);
      ApplyMore(z, payload, z.head, done, Patch(off, false));
      ApplyMore(z, payload, z.head, done + [Patch(off, false)], Patch(off + 4, false));
      WriteKeeps(head, off, Add(val0, delta), off + 4);
      out := WriteU32(out, off, Add(val0, delta));
      out := WriteU32(out, off + 4, Add(val1, delta));
      now := done + [Patch(off, false)] + [Patch(off + 4, false)];
    } else {
      assert done + [] == done;
    }
  }

  method PatchLc0(z: ZImage, payload: nat, head: Bytes, ghost done: seq<Patch>, origEnd: u32, newEnd: u32, delta: u32)
    returns (out: Bytes, ghost now: seq<Patch>)
    requires NoWrap(z, payload) && delta == ShiftWord(z, payload) && head == ApplyAll(z, payload, z.head, done)
    requires origEnd == PiggyEnd(z, |z.piggy|) && newEnd == PiggyEnd(z, payload)
    ensures now == done + Seven(z.offLc0) && out == ApplyAll(z, payload, z.head, now)
  {
    hide ApplyAll, Add, Sub, ShiftWord, ReadU32, WriteU32, LoadAddress, PiggyEnd;
    out, now := head, done;
    if z.offLc0 == 0 {
      assert done + [] == done;
      return;
    }
    for i := 1 to 8
      invariant now == done + Lc0Patches(z.offLc0, i - 1) && out == ApplyAll(z, payload, z.head, now)
    {
      var off := z.offLc0 + i * 4;
      var val := ReadU32(out, off);
      ApplyMore(z, payload, z.head, now, Patch(off, true));
      if val == Sub(origEnd, 4) {
        out := WriteU32(out, off, Sub(newEnd, 4));
      } else if val >= Add(Wrap(|z.head|), LoadAddress(z)) {
        out := WriteU32(out, off, Add(val, delta));
      } else {
        WriteSame(out, off);
      }
      now := now + [Patch(off, true)];
    }
  }

  lemma WriteSame(buf: Bytes, off: nat)
    ensures WriteU32(buf, off, ReadU32(buf, off)) == buf
  {
    if off + 4 <= |buf| {
      ToFromLe(buf[off..off + 4]);
    }
  }
}
