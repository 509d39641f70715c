/** The "newc" cpio format (Linux "initramfs buffer format"), as read and written by magiskboot. */
module CpioFormat {
  import opened Common
  import opened LittleEndian
  import opened Names

  datatype Entry = Entry(mode: u32, uid: u32, gid: u32, rdevmajor: u32, rdevminor: u32, data: Bytes)

  type Archive = map<Name, Entry>

  const HEADER_SIZE: nat := 110
  const FIRST_INODE: int := 300000

  function Magic(): Bytes { [0x30, 0x37, 0x30, 0x37, 0x30, 0x31] }
  function Dot(): Name { [0x2e] }
  function DotDot(): Name { [0x2e, 0x2e] }
  /** The magic number "070701" is at `pos`. */
  predicate MagicAt(data: Bytes, pos: nat) {
    && pos + 6 <= |data|
    && data[pos] == 0x30 && data[pos + 1] == 0x37 && data[pos + 2] == 0x30
    && data[pos + 3] == 0x37 && data[pos + 4] == 0x30 && data[pos + 5] == 0x31
  }

  predicate IsTrailerName(n: Name) {
    && |n| == 10
    && n[0] == 0x54 && n[1] == 0x52 && n[2] == 0x41 && n[3] == 0x49 && n[4] == 0x4c
    && n[5] == 0x45 && n[6] == 0x52 && n[7] == 0x21 && n[8] == 0x21 && n[9] == 0x21
  }

  /** "TRAILER!!!" */
  function TrailerName(): (n: Name)
    ensures IsTrailerName(n)
  {
    [0x54, 0x52, 0x41, 0x49, 0x4c, 0x45, 0x52, 0x21, 0x21, 0x21]
  }

  /** The next multiple of four. */
  function Align4(x: nat): (r: nat)
    ensures x <= r < x + 4 && r % 4 == 0
  {
    (x + 3) / 4 * 4
  }

  predicate Aligned(x: nat) { x % 4 == 0 }

  function Padding(x: nat): Bytes { Zeros(Align4(x) - x) }

  // ---------------------------------------------------------------------------------------
  // Hexadecimal fields
  // ---------------------------------------------------------------------------------------

  function HexDigit(d: nat): (c: byte)
    requires d < 16
  {
    if d < 10 then (0x30 + d) as byte else (0x61 + d - 10) as byte
  }

  /** `to_digit(16)`: both cases are read. */
  function FromHexDigit(c: byte): (d: Option<nat>)
    ensures d.Some? ==> d.value < 16
  {
    if 0x30 <= c <= 0x39 then Some(c as int - 0x30)
    else if 0x61 <= c <= 0x66 then Some(c as int - 0x61 + 10)
    else if 0x41 <= c <= 0x46 then Some(c as int - 0x41 + 10)
    else None
  }

  /** The k lowest hexadecimal digits of n, highest first. */
  function Hex(n: nat, k: nat): (b: Bytes)
    ensures |b| == k
  {
    if k == 0 then [] else Hex(n / 16, k - 1) + [HexDigit(n % 16)]
  }

  /** The number written in the k bytes at `off`. */
  function FromHex(data: Bytes, off: nat, k: nat): (n: Option<nat>)
    requires off + k <= |data|
  {
    if k == 0 then Some(0)
    else
      var high, low := FromHex(data, off, k - 1), FromHexDigit(data[off + k - 1]);
      if high.Some? && low.Some? then Some(high.value * 16 + low.value) else None
  }

  function Power16(k: nat): (p: nat)
    ensures p > 0
  {
    if k == 0 then 1 else 16 * Power16(k - 1)
  }

  lemma {:induction false} FromHexHex(data: Bytes, off: nat, n: nat, k: nat)
    requires n < Power16(k) && HasAt(data, off, Hex(n, k))
    ensures FromHex(data, off, k) == Some(n)
    decreases k
  {
    if k > 0 {
      HasAtSplit(data, off, Hex(n / 16, k - 1), [HexDigit(n % 16)]);
      FromHexHex(data, off, n / 16, k - 1);
    }
  }

  lemma {:induction false} FromHexBound(data: Bytes, off: nat, k: nat)
    requires off + k <= |data|
    ensures FromHex(data, off, k).Some? ==> FromHex(data, off, k).value < Power16(k)
  {
    if k > 0 {
      FromHexBound(data, off, k - 1);
    }
  }

  lemma EightDigits()
    ensures Power16(8) == WORD_LIMIT
  {
    assert Power16(2) == 256;
    assert Power16(4) == 0x1_0000;
    assert Power16(6) == 0x100_0000;
  }

  /** `{:08x}` of a 32-bit number, and its reader. */
  function Hex8(n: u32): (b: Bytes) ensures |b| == 8 { Hex(n, 8) }

  function X8u(data: Bytes, off: nat): (n: Option<u32>)
    requires off + 8 <= |data|
  {
    FromHexBound(data, off, 8);
    EightDigits();
    var n := FromHex(data, off, 8);
    if n.Some? then Some(n.value) else None
  }

  lemma X8uHex8(data: Bytes, off: nat, n: u32)
    requires HasAt(data, off, Hex8(n))
    ensures X8u(data, off) == Some(n)
  {
    EightDigits();
    FromHexHex(data, off, n, 8);
  }

  // ---------------------------------------------------------------------------------------
  // Writing
  // ---------------------------------------------------------------------------------------

  function HexFields(fields: seq<u32>): (b: Bytes)
    ensures |b| == 8 * |fields|
  {
    if fields == [] then [] else Hex8(fields[0]) + HexFields(fields[1..])
  }

  function Header(fields: seq<u32>): (b: Bytes)
    ensures |b| == 6 + 8 * |fields|
  {
    Magic() + HexFields(fields)
  }

  function EntryFields(e: Entry, inode: u32, nameSize: u32): seq<u32>
    requires |e.data| < WORD_LIMIT
  {
    [inode, e.mode, e.uid, e.gid, 1, 0, |e.data|, 0, 0, e.rdevmajor, e.rdevminor, nameSize, 0]
  }

  /** What fits the format's 32-bit fields. */
  ghost predicate Fits(name: Name, e: Entry) { |name| + 1 < WORD_LIMIT && |e.data| < WORD_LIMIT }

  /** The name with its terminator, padded so that the data starts on a multiple of four. */
  function NamePart(name: Name): Bytes { name + [0] + Padding(HEADER_SIZE + |name| + 1) }

  function DataPart(data: Bytes): Bytes { data + Padding(|data|) }

  function Record(name: Name, e: Entry, inode: u32): Bytes
    requires Fits(name, e)
  {
    Header(EntryFields(e, inode, |name| + 1)) + NamePart(name) + DataPart(e.data)
  }

  function TrailerFields(inode: u32): seq<u32> { [inode, 0x1ed, 0, 0, 1, 0, 0, 0, 0, 0, 0, 11, 0] }

  function Trailer(inode: u32): Bytes { TrailerOf(TrailerName(), inode) }

  function TrailerOf(name: Name, inode: u32): Bytes { Header(TrailerFields(inode)) + NamePart(name) }

  ghost predicate AllFit(entries: Archive, keys: seq<Name>) {
    keys == [] || (keys[0] in entries && Fits(keys[0], entries[keys[0]]) && AllFit(entries, keys[1..]))
  }

  /** The records of `keys`, numbered from `inode`, and the trailer. */
  function DumpFrom(entries: Archive, keys: seq<Name>, inode: nat): Bytes
    requires AllFit(entries, keys) && inode + |keys| < WORD_LIMIT
    decreases |keys|
  {
    if keys == [] then Trailer(inode)
    else Record(keys[0], entries[keys[0]], inode) + DumpFrom(entries, keys[1..], inode + 1)
  }

  /** Everything fits the format's fields. */
  ghost predicate Dumpable(entries: Archive) {
    (forall n :: n in entries ==> Fits(n, entries[n])) && FIRST_INODE + |entries| < WORD_LIMIT
  }

  lemma {:induction false} KeysFit(entries: Archive, keys: seq<Name>)
    requires forall n :: n in keys ==> n in entries && Fits(n, entries[n])
    ensures AllFit(entries, keys)
  {
    if keys != [] {
      KeysFit(entries, keys[1..]);
    }
  }

  /** `dump`: the entries in the order of their names. */
  method Dump(entries: Archive) returns (file: Bytes)
    requires Dumpable(entries)
    ensures var keys := Sorted(entries.Keys);
            AllFit(entries, keys) && FIRST_INODE + |keys| < WORD_LIMIT && file == DumpFrom(entries, keys, FIRST_INODE)
  {
    hide DumpFrom, Sorted, Fits;
    var keys := IterKeys(entries.Keys);
    ListsCovers(keys, entries.Keys);
    CoversLength(keys, entries.Keys);
    KeysFit(entries, keys);
    file := DumpInOrder(entries, keys);
  }

  method DumpInOrder(entries: Archive, keys: seq<Name>) returns (file: Bytes)
    requires AllFit(entries, keys) && FIRST_INODE + |keys| < WORD_LIMIT
    ensures file == DumpFrom(entries, keys, FIRST_INODE)
  {
    hide Record, Trailer, Fits;
    file := [];
    var pos, inode := 0, FIRST_INODE;
    for i := 0 to |keys|
      invariant inode == FIRST_INODE + i && AllFit(entries, keys[i..])
      invariant pos == |file| && Aligned(pos)
      invariant file + DumpFrom(entries, keys[i..], inode) == DumpFrom(entries, keys, FIRST_INODE)
    {
      assert keys[i..][1..] == keys[i + 1..];
      Assoc(file, Record(keys[i], entries[keys[i]], inode), DumpFrom(entries, keys[i + 1..], inode + 1));
      file, pos := WriteEntry(file, pos, keys[i], entries[keys[i]], inode);
      inode := inode + 1;
    }
    assert keys[|keys|..] == [];
    file := WriteTrailer(file, pos, inode);
  }

  method WriteEntry(before: Bytes, start: nat, name: Name, e: Entry, inode: u32) returns (file: Bytes, pos: nat)
    requires start == |before| && Aligned(start) && Fits(name, e)
    ensures file == before + Record(name, e, inode)
    ensures pos == |file| && Aligned(pos)
  {
    RecordBytes(before, name, e, inode);
    AlignedParts(start, name, e);
    var header := Header(EntryFields(e, inode, |name| + 1));
    file := before + header;
    pos := start + |header|;
    file := file + name;
    pos := pos + |name|;
    file := file + [0];
    pos := pos + 1;
    file := file + Zeros(Align4(pos) - pos);
    pos := Align4(pos);
    file := file + e.data;
    pos := pos + |e.data|;
    file := file + Zeros(Align4(pos) - pos);
    pos := Align4(pos);
  }

  method WriteTrailer(before: Bytes, start: nat, inode: u32) returns (file: Bytes)
    requires start == |before| && Aligned(start)
    ensures file == before + Trailer(inode)
  {
    var header := Header(TrailerFields(inode));
    PartsBytes(before, header, TrailerName(), []);
    file := before + header;
    var pos := start + |header|;
    file := file + TrailerName() + [0];
    pos := pos + |TrailerName()| + 1;
    file := file + Zeros(Align4(pos) - pos);
  }

  /** Padding depends on the position modulo four only. */
  lemma AlignShift(base: nat, x: nat)
    requires Aligned(base)
    ensures Align4(base + x) == base + Align4(x)
  {
  }

  lemma RecordBytes(before: Bytes, name: Name, e: Entry, inode: u32)
    requires Fits(name, e) && Aligned(|before|)
    ensures
      var header := Header(EntryFields(e, inode, |name| + 1));
      var named := before + header + name + [0];
      var start := Align4(|named|);
      var stored := named + Zeros(start - |named|) + e.data;
      stored + Zeros(Align4(|stored|) - |stored|) == before + Record(name, e, inode)
  {
    PartsBytes(before, Header(EntryFields(e, inode, |name| + 1)), name, e.data);
  }

  lemma PartsBytes(before: Bytes, header: Bytes, name: Name, data: Bytes)
    requires Aligned(|before|) && |header| == HEADER_SIZE
    ensures
      var named := before + header + name + [0];
      var start := Align4(|named|);
      var stored := named + Zeros(start - |named|) + data;
      && named + Zeros(start - |named|) == before + (header + NamePart(name))
      && stored + Zeros(Align4(|stored|) - |stored|) == before + (header + NamePart(name) + DataPart(data))
  {
    var named := before + header + name + [0];
    AlignShift(|before|, HEADER_SIZE + |name| + 1);
    var stored := named + Zeros(Align4(|named|) - |named|) + data;
    AlignShift(Align4(|named|), |data|);
    assert named + Zeros(Align4(|named|) - |named|) == before + (header + NamePart(name));
    assert stored == before + (header + NamePart(name)) + data;
  }

  lemma AlignedParts(pos: nat, name: Name, e: Entry)
    requires Aligned(pos)
    ensures Aligned(pos + HEADER_SIZE + |NamePart(name)|)
    ensures Aligned(pos + HEADER_SIZE + |NamePart(name)| + |DataPart(e.data)|)
  {
  }

  // ---------------------------------------------------------------------------------------
  // Reading
  // ---------------------------------------------------------------------------------------

  /** What reading gives: an archive, an error, or a read outside the data. */
  datatype Loaded = Archived(entries: Archive) | Failed | OutOfBounds

  datatype Parsed = Found(name: Name, entry: Entry, next: nat) | Skipped(next: nat) | Finished | Bad | Outside

  function FieldAt(data: Bytes, pos: nat, k: nat): (n: Option<u32>)
    requires k < 13 && pos + HEADER_SIZE <= |data|
  {
    X8u(data, pos + 6 + 8 * k)
  }

  /** A C string that is UTF-8: one NUL, at the end. */
  predicate IsCName(raw: Bytes) {
    raw != [] && raw[|raw| - 1] == 0 && NulFree(raw[..|raw| - 1]) && ValidUtf8(raw[..|raw| - 1])
  }

  /** The first place, from `pos` on, where a record can start. */
  function FindMagic(data: Bytes, pos: nat): (r: Option<nat>)
    ensures r.Some? ==> pos <= r.value < |data|
    decreases |data| - pos
  {
    if pos + 6 > |data| then None
    else if MagicAt(data, pos) then Some(pos)
    else FindMagic(data, pos + 1)
  }

  /** One turn of the reading loop; `field` reads the header. */
  function ParseWith(data: Bytes, pos: nat, field: nat -> Option<u32>): (p: Parsed)
    ensures p.Found? || p.Skipped? ==> p.next > pos
  {
    if pos + HEADER_SIZE > |data| then Outside
    else if !MagicAt(data, pos) then Bad
    else if field(11).None? then Bad
    else ParseName(data, pos, field, pos + HEADER_SIZE + field(11).value)
  }

  function ParseName(data: Bytes, pos: nat, field: nat -> Option<u32>, nameEnd: nat): (p: Parsed)
    requires pos + HEADER_SIZE <= nameEnd
    ensures p.Found? || p.Skipped? ==> p.next > pos
  {
    if nameEnd > |data| then Outside
    else ParseRaw(data, data[pos + HEADER_SIZE..nameEnd], field, Align4(nameEnd))
  }

  function ParseRaw(data: Bytes, raw: Bytes, field: nat -> Option<u32>, start: nat): (p: Parsed)
    ensures p.Found? || p.Skipped? ==> p.next >= start
  {
    if !IsCName(raw) then Bad else ParseNamed(data, raw[..|raw| - 1], field, start)
  }

  function ParseNamed(data: Bytes, name: Name, field: nat -> Option<u32>, start: nat): (p: Parsed)
    ensures p.Found? || p.Skipped? ==> p.next >= start
  {
    if name == Dot() || name == DotDot() then Skipped(start)
    else if IsTrailerName(name) then
      if start > |data| then Outside
      else
        var next := FindMagic(data, start);
        if next.Some? then Skipped(next.value) else Finished
    else ParseEntry(data, name, field, start)
  }

  function ParseEntry(data: Bytes, name: Name, field: nat -> Option<u32>, start: nat): (p: Parsed)
    ensures p.Found? || p.Skipped? ==> p.next >= start
  {
    if field(6).None? || field(1).None? || field(2).None? || field(3).None? || field(9).None? || field(10).None?
    then Bad
    else if start + field(6).value > |data| then Outside
    else
      Found(name,
            Entry(field(1).value, field(2).value, field(3).value, field(9).value, field(10).value,
                  data[start..start + field(6).value]),
            Align4(start + field(6).value))
  }

  function Fields(data: Bytes, pos: nat): nat -> Option<u32> {
    (k: nat) => if k < 13 && pos + HEADER_SIZE <= |data| then FieldAt(data, pos, k) else None
  }

  function ParseAt(data: Bytes, pos: nat): (p: Parsed)
    requires pos < |data|
    ensures p.Found? || p.Skipped? ==> p.next > pos
  {
    ParseWith(data, pos, Fields(data, pos))
  }

  /** What is read from `pos` on, into `entries`. */
  function LoadFrom(data: Bytes, pos: nat, entries: Archive): Loaded
    decreases |data| - pos
  {
    if pos >= |data| then Archived(entries)
    else match ParseAt(data, pos)
         case Found(name, entry, next) => LoadFrom(data, next, entries[name := entry])
         case Skipped(next) => LoadFrom(data, next, entries)
         case Finished => Archived(entries)
         case Bad => Failed
         case Outside => OutOfBounds
  }

  method Load(data: Bytes) returns (r: Loaded)
    ensures r == LoadFrom(data, 0, map[])
  {
    hide ParseAt;
    var entries: Archive := map[];
    var pos := 0;
    while pos < |data|
      invariant LoadFrom(data, pos, entries) == LoadFrom(data, 0, map[])
      decreases |data| - pos
    {
      match ParseAt(data, pos)
      case Found(name, entry, next) =>
        entries := entries[name := entry];
        pos := next;
      case Skipped(next) =>
        pos := next;
      case Finished =>
        break;
      case Bad =>
        return Failed;
      case Outside =>
        return OutOfBounds;
    }
    r := Archived(entries);
  }

  // ---------------------------------------------------------------------------------------
  // Reading what was written
  // ---------------------------------------------------------------------------------------

  /** Names that survive being written: a NUL ends a name, and three names mean something else. */
  ghost predicate Storable(name: Name) {
    NulFree(name) && ValidUtf8(name) && name != Dot() && name != DotDot() && !IsTrailerName(name)
  }

  lemma {:induction false} HexFieldAt(fields: seq<u32>, k: nat)
    requires k < |fields|
    ensures HasAt(HexFields(fields), 8 * k, Hex8(fields[k]))
  {
    if k > 0 {
      HexFieldAt(fields[1..], k - 1);
      var rest := HexFields(fields[1..]);
      assert HexFields(fields)[8..] == rest;
      assert HexFields(fields)[8 * k..8 * k + 8] == rest[8 * (k - 1)..8 * (k - 1) + 8];
    }
  }

  lemma ReadField(data: Bytes, pos: nat, fields: seq<u32>, k: nat)
    requires |fields| == 13 && k < 13 && HasAt(data, pos, Header(fields))
    ensures pos + HEADER_SIZE <= |data| && FieldAt(data, pos, k) == Some(fields[k])
  {
    HasAtSplit(data, pos, Magic(), HexFields(fields));
    HexFieldAt(fields, k);
    HasAtNested(data, pos + 6, HexFields(fields), 8 * k, Hex8(fields[k]));
    X8uHex8(data, pos + 6 + 8 * k, fields[k]);
  }

  lemma CNameOf(name: Name)
    requires NulFree(name) && ValidUtf8(name)
    ensures IsCName(name + [0]) && (name + [0])[..|name + [0]| - 1] == name
  {
    assert (name + [0])[..|name|] == name;
  }

  lemma ReadName(data: Bytes, pos: nat, name: Name)
    requires Aligned(pos) && HasAt(data, pos + HEADER_SIZE, NamePart(name))
    ensures HasAt(data, pos + HEADER_SIZE, name + [0])
    ensures Align4(pos + HEADER_SIZE + |name + [0]|) == pos + HEADER_SIZE + |NamePart(name)|
  {
    HasAtSplit(data, pos + HEADER_SIZE, name + [0], Padding(HEADER_SIZE + |name| + 1));
    AlignShift(pos, HEADER_SIZE + |name| + 1);
  }

  /** The header's fields, read back. */
  ghost predicate Reads(field: nat -> Option<u32>, fields: seq<u32>) {
    |fields| == 13 && forall k :: 0 <= k < 13 ==> field(k) == Some(fields[k])
  }

  lemma MagicIsAt(data: Bytes, pos: nat)
    requires HasAt(data, pos, Magic())
    ensures MagicAt(data, pos)
  {
    assert data[pos] == data[pos..pos + 6][0];
  }

  lemma HeaderReads(data: Bytes, pos: nat, fields: seq<u32>)
    requires |fields| == 13 && HasAt(data, pos, Header(fields))
    ensures MagicAt(data, pos) && Reads(Fields(data, pos), fields)
  {
    HasAtSplit(data, pos, Magic(), HexFields(fields));
    MagicIsAt(data, pos);
    forall k | 0 <= k < 13
      ensures Fields(data, pos)(k) == Some(fields[k])
    {
      ReadField(data, pos, fields, k);
    }
  }

  lemma ParseRawOf(data: Bytes, field: nat -> Option<u32>, name: Name, start: nat)
    requires NulFree(name) && ValidUtf8(name)
    ensures ParseRaw(data, name + [0], field, start) == ParseNamed(data, name, field, start)
  {
    CNameOf(name);
  }

  lemma ParseNameRaw(data: Bytes, pos: nat, field: nat -> Option<u32>, raw: Bytes)
    requires MagicAt(data, pos) && field(11) == Some(|raw|) && HasAt(data, pos + HEADER_SIZE, raw)
    ensures ParseWith(data, pos, field) == ParseRaw(data, raw, field, Align4(pos + HEADER_SIZE + |raw|))
  {
  }

  /** Header and name are read back. */
  lemma ParseHead(data: Bytes, pos: nat, field: nat -> Option<u32>, name: Name)
    requires MagicAt(data, pos) && field(11) == Some(|name| + 1)
    requires Aligned(pos) && HasAt(data, pos + HEADER_SIZE, NamePart(name))
    requires NulFree(name) && ValidUtf8(name)
    ensures ParseWith(data, pos, field) == ParseNamed(data, name, field, pos + HEADER_SIZE + |NamePart(name)|)
  {
    hide ParseNamed, ParseRaw, MagicAt, ValidUtf8;
    ReadName(data, pos, name);
    ParseNameRaw(data, pos, field, name + [0]);
    ParseRawOf(data, field, name, pos + HEADER_SIZE + |NamePart(name)|);
  }

  lemma ParseBody(data: Bytes, field: nat -> Option<u32>, fields: seq<u32>, name: Name, e: Entry, start: nat)
    requires Reads(field, fields) && |e.data| == fields[6]
    requires fields[1] == e.mode && fields[2] == e.uid && fields[3] == e.gid
    requires fields[9] == e.rdevmajor && fields[10] == e.rdevminor
    requires Aligned(start) && HasAt(data, start, DataPart(e.data))
    ensures ParseEntry(data, name, field, start) == Found(name, e, start + |DataPart(e.data)|)
  {
    HasAtSplit(data, start, e.data, Padding(|e.data|));
    AlignShift(start, |e.data|);
  }

  /** The fields of an entry's header, as far as they are read. */
  ghost predicate Describes(fields: seq<u32>, name: Name, e: Entry) {
    && |fields| == 13
    && fields[1] == e.mode && fields[2] == e.uid && fields[3] == e.gid && fields[6] == |e.data|
    && fields[9] == e.rdevmajor && fields[10] == e.rdevminor && fields[11] == |name| + 1
  }

  lemma ParseRecordWith(data: Bytes, pos: nat, name: Name, e: Entry, field: nat -> Option<u32>, fields: seq<u32>)
    requires Storable(name) && Aligned(pos) && MagicAt(data, pos)
    requires Reads(field, fields) && Describes(fields, name, e)
    requires HasAt(data, pos + HEADER_SIZE, NamePart(name))
    requires HasAt(data, pos + HEADER_SIZE + |NamePart(name)|, DataPart(e.data))
    ensures ParseWith(data, pos, field) == Found(name, e, pos + HEADER_SIZE + |NamePart(name)| + |DataPart(e.data)|)
  {
    ParseHead(data, pos, field, name);
    var start := pos + HEADER_SIZE + |NamePart(name)|;
    AlignedParts(pos, name, e);
    ParseBody(data, field, fields, name, e, start);
  }

  /** The pieces of a record, where they are. */
  lemma RecordParts(data: Bytes, pos: nat, name: Name, e: Entry, inode: u32)
    requires Fits(name, e) && HasAt(data, pos, Record(name, e, inode))
    ensures
      var fields := EntryFields(e, inode, |name| + 1);
      && HasAt(data, pos, Header(fields))
      && HasAt(data, pos + HEADER_SIZE, NamePart(name))
      && HasAt(data, pos + HEADER_SIZE + |NamePart(name)|, DataPart(e.data))
      && |Record(name, e, inode)| == HEADER_SIZE + |NamePart(name)| + |DataPart(e.data)|
  {
    var header := Header(EntryFields(e, inode, |name| + 1));
    HasAtSplit(data, pos, header + NamePart(name), DataPart(e.data));
    HasAtSplit(data, pos, header, NamePart(name));
  }

  /** Reading at a written record gives the entry back and leads behind the record. */
  lemma ParseRecord(data: Bytes, pos: nat, name: Name, e: Entry, inode: u32)
    requires Fits(name, e) && Storable(name) && Aligned(pos) && HasAt(data, pos, Record(name, e, inode))
    ensures Aligned(pos + |Record(name, e, inode)|) && pos < |data| && MagicAt(data, pos)
    ensures ParseAt(data, pos) == Found(name, e, pos + |Record(name, e, inode)|)
  {
    hide ParseWith, Header, NamePart, DataPart;
    var fields := EntryFields(e, inode, |name| + 1);
    RecordParts(data, pos, name, e, inode);
    HeaderReads(data, pos, fields);
    ParseRecordWith(data, pos, name, e, Fields(data, pos), fields);
    AlignedParts(pos, name, e);
  }

  lemma TrailerIsName(name: Name)
    requires IsTrailerName(name)
    ensures NulFree(name) && ValidUtf8(name) && name != Dot() && name != DotDot()
  {
    forall i | 0 <= i < |name|
      ensures 0 < name[i] < 128
    {
    }
    AsciiIsUtf8(name);
  }

  lemma ParseTrailerWith(data: Bytes, pos: nat, field: nat -> Option<u32>, name: Name)
    requires IsTrailerName(name)
    requires Aligned(pos) && MagicAt(data, pos) && field(11) == Some(11)
    requires HasAt(data, pos + HEADER_SIZE, NamePart(name))
    ensures
      var next := FindMagic(data, pos + HEADER_SIZE + |NamePart(name)|);
      ParseWith(data, pos, field) == if next.Some? then Skipped(next.value) else Finished
  {
    TrailerIsName(name);
    ParseHead(data, pos, field, name);
  }

  /** Reading at a written trailer looks for another archive behind it. */
  lemma ParseTrailer(data: Bytes, pos: nat, inode: u32, name: Name)
    requires IsTrailerName(name) && Aligned(pos) && HasAt(data, pos, TrailerOf(name, inode))
    ensures Aligned(pos + |TrailerOf(name, inode)|) && pos < |data| && MagicAt(data, pos)
    ensures
      var next := FindMagic(data, pos + |TrailerOf(name, inode)|);
      ParseAt(data, pos) == if next.Some? then Skipped(next.value) else Finished
  {
    hide ParseWith, Header, NamePart, FindMagic;
    var fields := TrailerFields(inode);
    HasAtSplit(data, pos, Header(fields), NamePart(name));
    HeaderReads(data, pos, fields);
    ParseTrailerWith(data, pos, Fields(data, pos), name);
    AlignedParts(pos, name, Entry(0, 0, 0, 0, 0, []));
  }

  lemma {:induction false} AsciiIsUtf8(s: Bytes)
    requires forall i :: 0 <= i < |s| ==> s[i] < 128
    ensures ValidUtf8(s)
  {
    if s != [] {
      AsciiIsUtf8(s[1..]);
    }
  }

  ghost function Restrict(entries: Archive, keys: seq<Name>): Archive {
    map n | n in entries && n in keys :: entries[n]
  }

  lemma RestrictCons(into: Archive, entries: Archive, keys: seq<Name>)
    requires keys != [] && keys[0] in entries && keys[0] !in keys[1..]
    ensures into[keys[0] := entries[keys[0]]] + Restrict(entries, keys[1..]) == into + Restrict(entries, keys)
  {
    assert keys == [keys[0]] + keys[1..];
  }

  lemma RestrictAll(entries: Archive, keys: seq<Name>)
    requires Covers(keys, entries.Keys)
    ensures Restrict(entries, keys) == entries
  {
  }

  // ---------------------------------------------------------------------------------------
  // Whole archives
  // ---------------------------------------------------------------------------------------

  /** Everything fits the format. */
  ghost predicate FittingArchive(entries: Archive, keys: seq<Name>) {
    Covers(keys, entries.Keys) && AllFit(entries, keys) && FIRST_INODE + |keys| < WORD_LIMIT
  }

  /** Every name is read back. */
  ghost predicate AllStorable(entries: Archive) { forall n :: n in entries ==> Storable(n) }

  /** What is read behind a trailer: whatever follows the next magic number. */
  function LoadBehind(data: Bytes, pos: nat, entries: Archive): Loaded {
    match FindMagic(data, pos)
    case Some(next) => LoadFrom(data, next, entries)
    case None => Archived(entries)
  }

  lemma LoadRecord(data: Bytes, pos: nat, name: Name, e: Entry, inode: u32, rest: Bytes, into: Archive)
    requires Fits(name, e) && Storable(name) && Aligned(pos) && HasAt(data, pos, Record(name, e, inode) + rest)
    ensures
      var next := pos + |Record(name, e, inode)|;
      && Aligned(next) && HasAt(data, next, rest) && MagicAt(data, pos)
      && LoadFrom(data, pos, into) == LoadFrom(data, next, into[name := e])
  {
    hide ParseAt, Record, Storable, MagicAt;
    HasAtSplit(data, pos, Record(name, e, inode), rest);
    ParseRecord(data, pos, name, e, inode);
  }

  lemma LoadTrailer(data: Bytes, pos: nat, inode: u32, into: Archive)
    requires Aligned(pos) && HasAt(data, pos, Trailer(inode))
    ensures Aligned(pos + |Trailer(inode)|) && MagicAt(data, pos)
    ensures LoadFrom(data, pos, into) == LoadBehind(data, pos + |Trailer(inode)|, into)
  {
    hide ParseAt, TrailerOf, FindMagic, MagicAt;
    ParseTrailer(data, pos, inode, TrailerName());
  }

  /** Reading a dump puts its entries in and goes on behind its trailer. */
  lemma {:induction false} LoadDump(data: Bytes, pos: nat, entries: Archive, keys: seq<Name>, inode: nat, into: Archive)
    requires AllFit(entries, keys) && NoDups(keys) && inode + |keys| < WORD_LIMIT
    requires forall n :: n in keys ==> Storable(n)
    requires Aligned(pos) && HasAt(data, pos, DumpFrom(entries, keys, inode))
    ensures Aligned(pos + |DumpFrom(entries, keys, inode)|) && MagicAt(data, pos)
    ensures LoadFrom(data, pos, into) ==
            LoadBehind(data, pos + |DumpFrom(entries, keys, inode)|, into + Restrict(entries, keys))
    decreases |keys|
  {
    hide LoadFrom, LoadBehind, Record, Trailer, Storable, Fits, MagicAt, Restrict;
    if keys == [] {
      LoadTrailer(data, pos, inode, into);
      RestrictNone(into, entries);
    } else {
      var n, rest := keys[0], DumpFrom(entries, keys[1..], inode + 1);
      LoadRecord(data, pos, n, entries[n], inode, rest, into);
      LoadDump(data, pos + |Record(n, entries[n], inode)|, entries, keys[1..], inode + 1, into[n := entries[n]]);
      RestrictCons(into, entries, keys);
    }
  }

  lemma RestrictNone(into: Archive, entries: Archive)
    ensures into + Restrict(entries, []) == into
  {
  }

  lemma NoMagicAtEnd(data: Bytes, pos: nat, into: Archive)
    requires pos >= |data|
    ensures LoadBehind(data, pos, into) == Archived(into)
  {
  }

  lemma FoundIsStorable(data: Bytes, pos: nat)
    requires pos < |data|
    ensures ParseAt(data, pos).Found? ==> Storable(ParseAt(data, pos).name)
  {
  }

  /** Whatever the data, only such names are read. */
  lemma {:induction false} LoadedIsStorable(data: Bytes, pos: nat, into: Archive)
    requires AllStorable(into)
    ensures LoadFrom(data, pos, into).Archived? ==> AllStorable(LoadFrom(data, pos, into).entries)
    decreases |data| - pos
  {
    hide ParseAt, Storable;
    if pos < |data| {
      FoundIsStorable(data, pos);
      match ParseAt(data, pos)
      case Found(name, entry, next) =>
        LoadedIsStorable(data, next, into[name := entry]);
      case Skipped(next) =>
        LoadedIsStorable(data, next, into);
      case _ =>
    }
  }

  /** Loading the dump of an archive gives the archive back exactly when all its names can be read. */
  lemma LoadOfDump(entries: Archive, keys: seq<Name>)
    requires FittingArchive(entries, keys)
    ensures LoadFrom(DumpFrom(entries, keys, FIRST_INODE), 0, map[]) == Archived(entries) <==> AllStorable(entries)
  {
    hide LoadFrom, LoadBehind, DumpFrom, AllFit, Storable;
    var data := DumpFrom(entries, keys, FIRST_INODE);
    LoadedIsStorable(data, 0, map[]);
    if AllStorable(entries) {
      assert HasAt(data, 0, data);
      LoadDump(data, 0, entries, keys, FIRST_INODE, map[]);
      NoMagicAtEnd(data, |data|, map[] + Restrict(entries, keys));
      RestrictAll(entries, keys);
      assert map[] + entries == entries;
    }
  }

  /** Zero bytes before a record are passed over. */
  lemma {:induction false} FindMagicAfterZeros(data: Bytes, pos: nat, n: nat)
    requires MagicAt(data, pos + n)
    requires forall i :: pos <= i < pos + n ==> data[i] == 0
    ensures FindMagic(data, pos) == Some(pos + n)
    decreases n
  {
    if n > 0 {
      FindMagicAfterZeros(data, pos + 1, n - 1);
    }
  }

  lemma TwoDumpsLayout(d1: Bytes, words: nat, d2: Bytes)
    ensures
      var data := d1 + Zeros(4 * words) + d2;
      && HasAt(data, 0, d1) && HasAt(data, |d1| + 4 * words, d2)
      && forall i :: |d1| <= i < |d1| + 4 * words ==> data[i] == 0
  {
  }

  /** Two dumps joined by any number of zero words load as one archive, in which the entries of
      the second take precedence. */
  lemma LoadOfTwoDumps(first: Archive, keys1: seq<Name>, second: Archive, keys2: seq<Name>, words: nat)
    requires FittingArchive(first, keys1) && FittingArchive(second, keys2)
    requires AllStorable(first) && AllStorable(second)
    ensures
      var data := DumpFrom(first, keys1, FIRST_INODE) + Zeros(4 * words) + DumpFrom(second, keys2, FIRST_INODE);
      LoadFrom(data, 0, map[]) == Archived(first + second)
  {
    hide LoadFrom, DumpFrom, AllFit, Storable, Zeros, MagicAt, FindMagic, Restrict;
    var d1, d2 := DumpFrom(first, keys1, FIRST_INODE), DumpFrom(second, keys2, FIRST_INODE);
    var data, start := d1 + Zeros(4 * words) + d2, |d1| + 4 * words;
    TwoDumpsLayout(d1, words, d2);
    RestrictAll(first, keys1);
    RestrictAll(second, keys2);
    LoadDump(data, 0, first, keys1, FIRST_INODE, map[]);
    assert map[] + first == first;
    LoadDump(data, start, second, keys2, FIRST_INODE, first);
    FindMagicAfterZeros(data, |d1|, 4 * words);
    NoMagicAtEnd(data, |data|, first + second);
  }

  /** Writing an archive and reading the file gives the archive back, under the same condition. */
  method DumpThenLoad(entries: Archive) returns (r: Loaded)
    requires Dumpable(entries)
    ensures r == Archived(entries) <==> AllStorable(entries)
  {
    hide DumpFrom, LoadFrom, Sorted, Fits, Storable, AllFit;
    var file := Dump(entries);
    ListsCovers(Sorted(entries.Keys), entries.Keys);
    LoadOfDump(entries, Sorted(entries.Keys));
    r := Load(file);
  }
}
