/** Locating the three pieces of a zImage and the tables in its head. */
module ZImageParse {
  import opened Common
  import opened LittleEndian
  import opened Format
  import opened ZImage

  const MAGIC: u32 := 0x016f2818
  const TAG_KERNEL_SIZE: u32 := 0x5a534c4b

  /** The first place behind the header where a known format starts. */
  ghost predicate IsPiggyStart(zimg: Bytes, at: nat) {
    && 0x28 <= at < |zimg| && CheckFmt(zimg[at..]) != UNKNOWN
    && forall j :: 0x28 <= j < at ==> CheckFmt(zimg[j..]) == UNKNOWN
  }

  method FindPiggy(zimg: Bytes) returns (at: Option<nat>)
    ensures at.Some? ==> IsPiggyStart(zimg, at.value)
    ensures at.None? ==> forall j :: 0x28 <= j < |zimg| ==> CheckFmt(zimg[j..]) == UNKNOWN
  {
    hide CheckFmt;
    if |zimg| < 0x28 {
      return None;
    }
    for curr := 0x28 to |zimg|
      invariant forall j :: 0x28 <= j < curr ==> CheckFmt(zimg[j..]) == UNKNOWN
    {
      if CheckFmt(zimg[curr..]) != UNKNOWN {
        return Some(curr);
      }
    }
    return None;
  }

  // ---------------------------------------------------------------------------------------
  // The tables of the head
  // ---------------------------------------------------------------------------------------

  /** A table of position-independent pointers: the first is its own address, the next two lie behind the head. */
  predicate IsLc0(head: Bytes, start: u32, off: nat) {
    && off + 32 <= |head|
    && ReadU32(head, off) == Wrap(off + start)
    && ReadU32(head, off + 4) >= Wrap(|head|) && ReadU32(head, off + 8) >= ReadU32(head, off + 4)
  }

  /** The first of the aligned places where one is. */
  ghost predicate IsFirstLc0(head: Bytes, start: u32, off: nat) {
    && IsLc0(head, start, off) && off >= 0x20 && off % 4 == 0
    && forall j :: 0x20 <= j < off && j % 4 == 0 ==> !IsLc0(head, start, j)
  }

  /** The bounds of the offset table, as offsets in the image; zero when the table does not tell. */
  function GotBounds(head: Bytes, start: u32, off: nat): (u32, u32) {
    var lc1, lc4, lc5, lc6 :=
      ReadU32(head, off + 4), ReadU32(head, off + 16), ReadU32(head, off + 20), ReadU32(head, off + 24);
    if lc5 <= lc6 <= lc1 && lc5 > start then (lc5 - start, lc6 - start)
    else if lc4 <= lc5 <= lc1 && lc4 > start then (lc4 - start, lc5 - start)
    else (0, 0)
  }

  method FindLc0(head: Bytes, start: u32) returns (off: u32, gotStart: nat, gotEnd: nat)
    requires |head| < WORD_LIMIT
    ensures if off == 0 then forall j :: 0x20 <= j && j % 4 == 0 ==> !IsLc0(head, start, j)
            else IsFirstLc0(head, start, off)
    ensures (gotStart, gotEnd) == if off == 0 then (0, 0) else GotBounds(head, start, off)
  {
    hide GotBounds, ReadU32, Wrap;
    off, gotStart, gotEnd := 0, 0, 0;
    var i := 0x20;
    while i + 32 <= |head|
      invariant i >= 0x20 && i % 4 == 0
      invariant forall j :: 0x20 <= j < i && j % 4 == 0 ==> !IsLc0(head, start, j)
      decreases |head| - i
    {
      if IsLc0(head, start, i) {
        var bounds := GotBounds(head, start, i);
        return i, bounds.0, bounds.1;
      }
      i := i + 4;
    }
  }

  predicate IsInflatedSize(head: Bytes, piggyEnd: nat, off: nat) {
    off + 4 <= |head| && Wrap(Wrap(off + ReadU32(head, off)) + 4) == Wrap(piggyEnd)
  }

  /** The first of the aligned places where one is. */
  ghost predicate IsFirstInflatedSize(head: Bytes, piggyEnd: nat, off: nat) {
    && IsInflatedSize(head, piggyEnd, off) && off >= 0x20 && off % 4 == 0
    && forall j :: 0x20 <= j < off && j % 4 == 0 ==> !IsInflatedSize(head, piggyEnd, j)
  }

  method FindInflatedSize(head: Bytes, piggyEnd: nat) returns (off: u32)
    requires |head| < WORD_LIMIT
    ensures if off == 0 then forall j :: 0x20 <= j && j % 4 == 0 ==> !IsInflatedSize(head, piggyEnd, j)
            else IsFirstInflatedSize(head, piggyEnd, off)
  {
    hide ReadU32, Wrap;
    off := 0;
    var i := 0x20;
    while i + 4 <= |head|
      invariant i >= 0x20 && i % 4 == 0
      invariant forall j :: 0x20 <= j < i && j % 4 == 0 ==> !IsInflatedSize(head, piggyEnd, j)
      decreases |head| - i
    {
      if IsInflatedSize(head, piggyEnd, i) {
        return i;
      }
      i := i + 4;
    }
  }

  predicate IsLc1(head: Bytes, start: u32, end: u32, off: nat) {
    off + 8 <= |head| && Wrap(Wrap(ReadU32(head, off + 4) + Wrap(off)) + start) == end
  }

  /** The first of the aligned places where one is. */
  ghost predicate IsFirstLc1(head: Bytes, start: u32, end: u32, off: nat) {
    && IsLc1(head, start, end, off) && off >= 0x20 && off % 4 == 0
    && forall j :: 0x20 <= j < off && j % 4 == 0 ==> !IsLc1(head, start, end, j)
  }

  method FindLc1(head: Bytes, start: u32, end: u32) returns (off: u32)
    requires |head| < WORD_LIMIT
    ensures if off == 0 then forall j :: 0x20 <= j && j % 4 == 0 ==> !IsLc1(head, start, end, j)
            else IsFirstLc1(head, start, end, off)
  {
    hide ReadU32, Wrap;
    off := 0;
    var i := 0x20;
    while i + 8 <= |head|
      invariant i >= 0x20 && i % 4 == 0
      invariant forall j :: 0x20 <= j < i && j % 4 == 0 ==> !IsLc1(head, start, end, j)
      decreases |head| - i
    {
      if IsLc1(head, start, end, i) {
        return i;
      }
      i := i + 4;
    }
  }

  // ---------------------------------------------------------------------------------------
  // The end of the payload
  // ---------------------------------------------------------------------------------------

  /** Behind the head, within the image, and next to the offset table if that is known. */
  predicate ValidPiggyEnd(size: nat, headSize: nat, end: nat, gotStart: nat) {
    headSize + 4 < end <= size && (gotStart != 0 ==> AlignUp4(end) == gotStart)
  }

  /** The end that an entry of the tagged table names: it holds the address of the word before the end. */
  function TableEnd(head: Bytes, start: u32, off: nat): u32 { Add(Sub(ReadU32(head, off), start), 4) }

  /** The first entry of the tagged table, from `off` on, that names a valid end. */
  function TableEntry(size: nat, head: Bytes, start: u32, gotStart: nat, off: nat): (entry: Option<nat>)
    ensures entry.Some? ==> off + 8 <= entry.value && entry.value + 4 <= |head|
    ensures entry.Some? ==> ValidPiggyEnd(size, |head|, TableEnd(head, start, entry.value), gotStart)
    decreases |head| - off
  {
    if off + 8 > |head| || ReadU32(head, off) == 0 then None
    else
      var words: nat := ReadU32(head, off);
      if ReadU32(head, off + 4) == TAG_KERNEL_SIZE && words >= 3 && off + words * 4 <= |head|
         && ValidPiggyEnd(size, |head|, TableEnd(head, start, off + 8), gotStart)
      then Some(off + 8)
      else TableEntry(size, head, start, gotStart, off + words * 4)
  }

  method FindInTable(size: nat, head: Bytes, start: u32, gotStart: nat, tableOffset: nat) returns (entry: Option<nat>)
    ensures entry == TableEntry(size, head, start, gotStart, tableOffset)
  {
    hide TableEnd, ValidPiggyEnd, ReadU32;
    var off := tableOffset;
    while off + 8 <= |head|
      invariant TableEntry(size, head, start, gotStart, off) == TableEntry(size, head, start, gotStart, tableOffset)
      decreases |head| - off
    {
      var words: nat := ReadU32(head, off);
      if words == 0 {
        break;
      }
      if ReadU32(head, off + 4) == TAG_KERNEL_SIZE && words >= 3 && off + words * 4 <= |head| {
        if ValidPiggyEnd(size, |head|, TableEnd(head, start, off + 8), gotStart) {
          return Some(off + 8);
        }
      }
      off := off + words * 4;
    }
    return None;
  }

  /** The end that a word of the image names. */
  function NamedEnd(zimg: Bytes, start: u32, off: nat): nat { Sub(ReadU32(zimg, off), start) }

  /** The first end above `low` and below `total` that a word between `off` and `last` names. */
  function FirstNamed(zimg: Bytes, start: u32, off: nat, last: nat, low: nat, total: nat): (end: Option<nat>)
    ensures end.Some? ==> low < end.value < total
    decreases if off <= last then last - off + 1 else 0
  {
    if off > last then None
    else if low < NamedEnd(zimg, start, off) < total then Some(NamedEnd(zimg, start, off))
    else FirstNamed(zimg, start, off + 4, last, low, total)
  }

  method ScanGot(zimg: Bytes, start: u32, first: nat, last: nat, low: nat, total: nat) returns (end: Option<nat>)
    ensures end == FirstNamed(zimg, start, first, last, low, total)
  {
    hide NamedEnd;
    var off := first;
    while off <= last
      invariant FirstNamed(zimg, start, off, last, low, total) == FirstNamed(zimg, start, first, last, low, total)
      decreases last - off
    {
      var val := NamedEnd(zimg, start, off);
      if low < val < total {
        return Some(val);
      }
      off := off + 4;
    }
    return None;
  }

  /** The same for the last sixteen words, from the end. */
  function LastNamed(zimg: Bytes, start: u32, i: nat, low: nat, total: nat): (end: Option<nat>)
    requires total > 64
    ensures end.Some? ==> low < end.value < total
    decreases 17 - i
  {
    if i > 16 then None
    else if low < NamedEnd(zimg, start, total - i * 4) < total then Some(NamedEnd(zimg, start, total - i * 4))
    else LastNamed(zimg, start, i + 1, low, total)
  }

  method ScanTail(zimg: Bytes, start: u32, low: nat, total: nat) returns (end: Option<nat>)
    requires total > 64
    ensures end == LastNamed(zimg, start, 1, low, total)
  {
    hide NamedEnd;
    for i := 1 to 17
      invariant LastNamed(zimg, start, i, low, total) == LastNamed(zimg, start, 1, low, total)
    {
      var val := NamedEnd(zimg, start, total - i * 4);
      if low < val < total {
        return Some(val);
      }
    }
    return None;
  }

  function Or(n: nat, limit: nat, otherwise: nat): nat { if n > limit then n - limit else otherwise }

  /** The two searches for when no table names the end: in the offset table, then in the last words. */
  function FallbackEnd(zimg: Bytes, headSize: nat, start: u32, gotStart: nat, gotEnd: nat, total: nat): (end: nat)
    requires total <= |zimg|
    ensures end <= |zimg|
  {
    var last := if gotEnd <= Or(total, 4, 0) then gotEnd else Or(total, 4, 0);
    var inGot :=
      if headSize <= gotStart <= gotEnd <= total
      then FirstNamed(zimg, start, gotStart, last, Or(total, 0x200, headSize), total) else None;
    var inTail := if total > 64 then LastNamed(zimg, start, 1, Or(total, 0xff, headSize), total) else None;
    if inGot.Some? then inGot.value else if inTail.Some? then inTail.value else |zimg|
  }

  method Fallback(zimg: Bytes, headSize: nat, start: u32, gotStart: nat, gotEnd: nat, total: nat) returns (end: nat)
    requires total <= |zimg|
    ensures end == FallbackEnd(zimg, headSize, start, gotStart, gotEnd, total)
  {
    hide FirstNamed, LastNamed;
    if headSize <= gotStart <= gotEnd <= total {
      var last := if gotEnd <= Or(total, 4, 0) then gotEnd else Or(total, 4, 0);
      var found := ScanGot(zimg, start, gotStart, last, Or(total, 0x200, headSize), total);
      if found.Some? {
        return found.value;
      }
    }
    if total > 64 {
      var found := ScanTail(zimg, start, Or(total, 0xff, headSize), total);
      if found.Some? {
        return found.value;
      }
    }
    return |zimg|;
  }

  /** The size of the image as its header states it, if that is possible. */
  function TotalSize(zimg: Bytes): (n: nat)
    ensures n <= |zimg|
  {
    var start, end := ReadU32(zimg, 0x28), ReadU32(zimg, 0x2c);
    if end > start && end - start <= |zimg| then end - start else |zimg|
  }

  /** The table entry that names the end of the payload, if the head has such a table. */
  function EntryOf(zimg: Bytes, head: Bytes, start: u32, gotStart: nat): (entry: Option<nat>)
    ensures entry.Some? ==> 8 < entry.value && entry.value + 4 <= |head|
  {
    var tableMagic, tableOffset: nat := ReadU32(zimg, 0x34), ReadU32(zimg, 0x38);
    if tableMagic in {0x45454545, 0x45455358, 0x20425444} && 0 < tableOffset < |head|
    then TableEntry(|zimg|, head, start, gotStart, tableOffset) else None
  }

  /** The end of the payload: named by the table, or found by the searches; the image's end when there is none. */
  function EndOf(zimg: Bytes, head: Bytes, start: u32, gotStart: nat, gotEnd: nat): (end: nat)
    ensures end <= |zimg|
  {
    var entry := EntryOf(zimg, head, start, gotStart);
    if entry.Some? && EntryEnd(zimg, head, start, gotStart, entry.value) != |zimg|
    then EntryEnd(zimg, head, start, gotStart, entry.value)
    else FallbackEnd(zimg, |head|, start, gotStart, gotEnd, TotalSize(zimg))
  }

  function EntryEnd(zimg: Bytes, head: Bytes, start: u32, gotStart: nat, entry: nat): (end: nat)
    requires EntryOf(zimg, head, start, gotStart) == Some(entry)
    ensures end <= |zimg| && end == TableEnd(head, start, entry)
  {
    TableEnd(head, start, entry)
  }

  // ---------------------------------------------------------------------------------------
  // Parsing
  // ---------------------------------------------------------------------------------------

  /** Three pieces that make up the image, a payload of a known format, and tables that are what they should be. */
  ghost predicate IsSplit(zimg: Bytes, z: ZImage) {
    && z.head != [] && z.piggy != [] && z.tail != []
    && z.head + z.piggy + z.tail == zimg
    && IsPiggyStart(zimg, |z.head|) && z.fmt == CheckFmt(zimg[|z.head|..])
    && (z.fmt != GZIP ==> |z.piggy| >= 4)
  }

  /** The offset in the head, or zero: the first pointer table. */
  ghost predicate Lc0Found(zimg: Bytes, z: ZImage) {
    var start := ReadU32(zimg, 0x28);
    if z.offLc0 == 0 then forall j :: 0x20 <= j && j % 4 == 0 ==> !IsLc0(z.head, start, j)
    else IsFirstLc0(z.head, start, z.offLc0)
  }

  ghost predicate Lc1Found(zimg: Bytes, z: ZImage) {
    var start, end := ReadU32(zimg, 0x28), ReadU32(zimg, 0x2c);
    if z.offLc1 == 0 then forall j :: 0x20 <= j && j % 4 == 0 ==> !IsLc1(z.head, start, end, j)
    else IsFirstLc1(z.head, start, end, z.offLc1)
  }

  ghost predicate InflatedSizeFound(z: ZImage) {
    var piggyEnd := |z.head| + |z.piggy|;
    if z.offInflatedSize == 0 then forall j :: 0x20 <= j && j % 4 == 0 ==> !IsInflatedSize(z.head, piggyEnd, j)
    else IsFirstInflatedSize(z.head, piggyEnd, z.offInflatedSize)
  }

  /** The bounds of the offset table that the first pointer table gives. */
  function BoundsOf(z: ZImage, start: u32): (nat, nat) {
    if z.offLc0 == 0 then (0, 0) else GotBounds(z.head, start, z.offLc0)
  }

  /** The payload ends where the search for its end says. */
  ghost predicate EndFound(zimg: Bytes, z: ZImage) {
    var start := ReadU32(zimg, 0x28);
    var (gotStart, gotEnd) := BoundsOf(z, start);
    && |z.head| + |z.piggy| == EndOf(zimg, z.head, start, gotStart, gotEnd)
    && z.offTable == match EntryOf(zimg, z.head, start, gotStart) case Some(n) => n case None => 0
  }

  ghost predicate IsParsed(zimg: Bytes, z: ZImage) {
    && ReadU32(zimg, 0x24) == MAGIC && IsSplit(zimg, z)
    && Lc0Found(zimg, z) && Lc1Found(zimg, z) && InflatedSizeFound(z) && EndFound(zimg, z)
  }

  /** `parse_impl` */
  method ParseZImage(zimg: Bytes) returns (r: Option<ZImage>)
    requires |zimg| < WORD_LIMIT
    ensures r.Some? ==> IsParsed(zimg, r.value)
    ensures r.None? ==> forall z :: !IsParsed(zimg, z)
  {
    hide IsPiggyStart, CheckFmt, IsLc0, IsLc1, IsInflatedSize, TableEnd, GotBounds, ValidPiggyEnd, ReadU32;
    hide IsFirstLc0, IsFirstLc1, IsFirstInflatedSize, EndOf, EntryOf;
    if |zimg| < 0x28 || ReadU32(zimg, 0x24) != MAGIC {
      ShortImage(zimg);
      return None;
    }
    var start, end := ReadU32(zimg, 0x28), ReadU32(zimg, 0x2c);
    var at := FindPiggy(zimg);
    if at.None? {
      NoStart(zimg);
      return None;
    }
    StartIsKnown(zimg, at.value);
    var head := zimg[..at.value];
    var fmt := CheckFmt(zimg[at.value..]);
    var offLc0, gotStart, gotEnd := FindLc0(head, start);
    var piggyEnd, offTable := FindEnd(zimg, head, start, gotStart, gotEnd);
    forall z | IsParsed(zimg, z) ensures z.head == head && z.fmt == fmt && |z.head| + |z.piggy| == piggyEnd {
      SameStart(zimg, |z.head|, at.value);
      assert z.head == zimg[..|z.head|];
      SameLc0(head, start, z.offLc0, offLc0);
    }
    if piggyEnd == |zimg| || piggyEnd <= |head| {
      return None;
    }
    var offInflatedSize := FindInflatedSize(head, piggyEnd);
    var offLc1 := FindLc1(head, start, end);
    var piggy, tail := zimg[|head|..piggyEnd], zimg[piggyEnd..];
    if fmt != GZIP && |piggy| < 4 {
      return None;
    }
    r := Some(ZImage(head, piggy, tail, fmt, offInflatedSize, offLc0, offLc1, offTable));
    assert head + piggy + tail == zimg;
  }

  lemma ShortImage(zimg: Bytes)
    ensures |zimg| < 0x28 ==> ReadU32(zimg, 0x24) == 0
  {
  }

  lemma NoStart(zimg: Bytes)
    requires forall j :: 0x28 <= j < |zimg| ==> CheckFmt(zimg[j..]) == UNKNOWN
    ensures forall at :: !IsPiggyStart(zimg, at)
  {
    hide CheckFmt;
  }

  lemma StartIsKnown(zimg: Bytes, at: nat)
    requires IsPiggyStart(zimg, at)
    ensures 0x28 <= at < |zimg|
  {
    hide CheckFmt;
  }

  lemma SameStart(zimg: Bytes, a: nat, b: nat)
    requires IsPiggyStart(zimg, a) && IsPiggyStart(zimg, b)
    ensures a == b
  {
    hide CheckFmt;
  }

  lemma SameLc0(head: Bytes, start: u32, a: u32, b: u32)
    requires if a == 0 then forall j :: 0x20 <= j && j % 4 == 0 ==> !IsLc0(head, start, j)
             else IsFirstLc0(head, start, a)
    requires if b == 0 then forall j :: 0x20 <= j && j % 4 == 0 ==> !IsLc0(head, start, j)
             else IsFirstLc0(head, start, b)
    ensures a == b
  {
    hide IsLc0;
  }

  /** The three ways to find the end of the payload, in their order. */
  method FindEnd(zimg: Bytes, head: Bytes, start: u32, gotStart: nat, gotEnd: nat)
    returns (piggyEnd: nat, offTable: u32)
    requires |head| < WORD_LIMIT
    ensures piggyEnd == EndOf(zimg, head, start, gotStart, gotEnd)
    ensures offTable == match EntryOf(zimg, head, start, gotStart) case Some(n) => n case None => 0
  {
    hide TableEnd, ReadU32, FallbackEnd, TotalSize, TableEntry;
    piggyEnd, offTable := |zimg|, 0;
    var tableMagic, tableOffset: nat := ReadU32(zimg, 0x34), ReadU32(zimg, 0x38);
    if tableMagic in {0x45454545, 0x45455358, 0x20425444} && 0 < tableOffset < |head| {
      var entry := FindInTable(|zimg|, head, start, gotStart, tableOffset);
      if entry.Some? {
        piggyEnd, offTable := TableEnd(head, start, entry.value), entry.value;
      }
    }
    if piggyEnd == |zimg| {
      piggyEnd := Fallback(zimg, |head|, start, gotStart, gotEnd, TotalSize(zimg));
    }
  }

  /** The image around a new payload: as much longer or shorter as the offset table moved, with the
      exceptions of `TailLength`. */
  method Rebuild(zimg: Bytes, z: ZImage, payload: Bytes) returns (out: Bytes)
    requires IsSplit(zimg, z) && NoWrap(z, |payload|)
    ensures out == NewHead(z, |payload|) + payload + NewTail(z, |payload|)
    ensures |out| - |zimg| == Shift(z, |payload|) <==>
              if z.tail == [] || !Resized(z, |payload|) then PadSize(z, |payload|) == PadSize(z, |z.piggy|)
              else PadSize(z, |z.piggy|) <= |z.tail|
    ensures HasAt(out, |z.head|, payload) && (|payload| == |z.piggy| ==> out == z.head + payload + z.tail)
  {
    hide CheckFmt, NewTail, NewHead, NoWrap, PadSize, Shift, IsPiggyStart;
    var head := BuildHead(z, |payload|);
    var tail := BuildTail(z, |payload|);
    TailLength(z, |payload|);
    if |payload| == |z.piggy| {
      SameSize(z);
    }
    out := head + payload + tail;
    assert out[|z.head|..|z.head| + |payload|] == payload;
  }

  /** A payload of the old size leaves what is around it as it was. */
  lemma SameSize(z: ZImage)
    requires NoWrap(z, |z.piggy|)
    ensures NewHead(z, |z.piggy|) == z.head && NewTail(z, |z.piggy|) == z.tail
  {
  }
}
