/** The boot image headers: where each version keeps its fields, and how they are overwritten. */
module BootHeader {
  import opened Common
  import opened LittleEndian

  datatype Kind = V0 | V1 | V2 | Pxa | V3 | V4 | Vendor3 | Vendor4

  predicate IsVendor(kind: Kind) { kind.Vendor3? || kind.Vendor4? }

  function HeaderSize(kind: Kind): nat {
    match kind
    case V0 => 1632
    case V1 => 1648
    case V2 => 1660
    case Pxa => 1640
    case V3 => 1580
    case V4 => 1584
    case Vendor3 => 2112
    case Vendor4 => 2128
  }

  // The nine blocks of an image, in their order.

  const KERNEL := 0
  const RAMDISK := 1
  const SECOND := 2
  const EXTRA := 3
  const RECOVERY_DTBO := 4
  const DTB := 5
  const SIGNATURE := 6
  const TABLE := 7
  const BOOTCONFIG := 8
  const BLOCKS := 9

  type Block = i: int | 0 <= i < 9

  /** Where a version keeps the size of a block, if it has that block. */
  function SizeField(kind: Kind, block: Block): Option<nat> {
    match kind
    case V0 =>
      if block == KERNEL then Some(8) else if block == RAMDISK then Some(16)
      else if block == SECOND then Some(24) else if block == EXTRA then Some(40) else None
    case V1 =>
      if block == KERNEL then Some(8) else if block == RAMDISK then Some(16)
      else if block == SECOND then Some(24) else if block == RECOVERY_DTBO then Some(1632) else None
    case V2 =>
      if block == KERNEL then Some(8) else if block == RAMDISK then Some(16)
      else if block == SECOND then Some(24) else if block == RECOVERY_DTBO then Some(1632)
      else if block == DTB then Some(1648) else None
    case Pxa =>
      if block == KERNEL then Some(8) else if block == RAMDISK then Some(16)
      else if block == SECOND then Some(24) else if block == EXTRA then Some(32) else None
    case V3 => if block == KERNEL then Some(8) else if block == RAMDISK then Some(12) else None
    case V4 =>
      if block == KERNEL then Some(8) else if block == RAMDISK then Some(12)
      else if block == SIGNATURE then Some(1580) else None
    case Vendor3 => if block == RAMDISK then Some(24) else if block == DTB then Some(2100) else None
    case Vendor4 =>
      if block == RAMDISK then Some(24) else if block == DTB then Some(2100)
      else if block == TABLE then Some(2112) else if block == BOOTCONFIG then Some(2124) else None
  }

  /** Where a version keeps its own size. */
  function OwnSizeField(kind: Kind): Option<nat> {
    match kind
    case V0 => None
    case Pxa => None
    case V1 => Some(1644)
    case V2 => Some(1644)
    case V3 => Some(20)
    case V4 => Some(20)
    case Vendor3 => Some(2096)
    case Vendor4 => Some(2096)
  }

  /** The 64-bit offset of the recovery dtbo. */
  function DtboOffsetField(kind: Kind): Option<nat> { if kind.V1? || kind.V2? then Some(1636) else None }

  /** The 32 bytes of the checksum. */
  function IdField(kind: Kind): Option<nat> {
    if kind.V0? || kind.V1? || kind.V2? then Some(576) else if kind.Pxa? then Some(584) else None
  }

  function Word(raw: Bytes, at: nat): (n: u32)
    requires at + 4 <= |raw|
  {
    FromLe(raw[at..at + 4])
  }

  function Size(kind: Kind, raw: Bytes, block: Block): (n: u32)
    requires HeaderSize(kind) <= |raw|
  {
    match SizeField(kind, block)
    case Some(at) => Word(raw, at)
    case None => 0
  }

  function PageSize(kind: Kind, raw: Bytes): (n: u32)
    requires HeaderSize(kind) <= |raw|
  {
    match kind
    case V0 => Word(raw, 36)
    case V1 => Word(raw, 36)
    case V2 => Word(raw, 36)
    case Pxa => Word(raw, 44)
    case V3 => 4096
    case V4 => 4096
    case Vendor3 => Word(raw, 12)
    case Vendor4 => Word(raw, 12)
  }

  const PXA_PAGE: int := 0x0200_0000

  /** `parse_hdr` on an image without a vendor's wrapping. */
  function KindOf(data: Bytes, vendor: bool): Kind
    requires |data| >= 2128
  {
    if vendor then (if Word(data, 8) == 4 then Vendor4 else Vendor3)
    else if Word(data, 36) >= PXA_PAGE then Pxa
    else
      var version := Word(data, 40);
      if version == 1 then V1 else if version == 2 then V2
      else if version == 3 then V3 else if version == 4 then V4 else V0
  }

  predicate Aligned(v: nat, a: nat) { a > 0 && v % a == 0 }

  function AlignTo(v: nat, a: nat): (r: nat)
    requires a > 0
    ensures Aligned(r, a) && v <= r < v + a
    ensures Aligned(v, a) ==> r == v
  {
    AlignFacts(v, a);
    (v + a - 1) / a * a
  }

  lemma AlignFacts(v: nat, a: nat)
    requires a > 0
    ensures var r := (v + a - 1) / a * a; r >= 0 && r % a == 0 && v <= r < v + a && (v % a == 0 ==> r == v)
  {
    var q := (v + a - 1) / a;
    assert q * a == (v + a - 1) - (v + a - 1) % a;
    MultipleModulo(q, a);
    if v % a == 0 {
      var p := v / a;
      assert v == p * a;
      assert v + a - 1 == p * a + (a - 1);
      QuotientOf(p, a, a - 1);
    }
  }

  lemma MultipleModulo(q: nat, a: nat)
    requires a > 0
    ensures q * a % a == 0
  {
    QuotientOf(q, a, 0);
  }

  lemma QuotientOf(q: nat, a: nat, r: nat)
    requires a > 0 && r < a
    ensures (q * a + r) / a == q && (q * a + r) % a == r
  {
    var n := q * a + r;
    assert n == a * (n / a) + n % a;
    Unique(q, r, n / a, n % a, a);
  }

  lemma Unique(q: int, r: int, p: int, s: int, a: nat)
    requires 0 <= r < a && 0 <= s < a && q * a + r == a * p + s
    ensures q == p && r == s
  {
    var d := q - p;
    assert d * a == s - r;
    Between(d, a);
  }

  lemma Between(d: int, a: int)
    requires 0 - a < d * a < a
    ensures d == 0
  {
  }

  /** `hdr_space`: the room the header takes before the first block. */
  function HeaderSpace(kind: Kind, raw: Bytes): nat
    requires HeaderSize(kind) <= |raw| && PageSize(kind, raw) > 0
  {
    if IsVendor(kind) then AlignTo(HeaderSize(kind), PageSize(kind, raw)) else PageSize(kind, raw)
  }

  // ---------------------------------------------------------------------------------------
  // Overwriting fields
  // ---------------------------------------------------------------------------------------

  function Put(raw: Bytes, at: nat, part: Bytes): (r: Bytes)
    requires at + |part| <= |raw|
    ensures |r| == |raw|
  {
    raw[..at] + part + raw[at + |part|..]
  }

  lemma PutReads(raw: Bytes, at: nat, n: u32)
    requires at + 4 <= |raw|
    ensures Word(Put(raw, at, ToLe(n)), at) == n
  {
    assert Put(raw, at, ToLe(n))[at..at + 4] == ToLe(n);
    FromToLe(n);
  }

  lemma PutKeeps(raw: Bytes, at: nat, part: Bytes, from: nat, to: nat)
    requires at + |part| <= |raw| && from <= to <= |raw|
    requires to <= at || at + |part| <= from
    ensures Put(raw, at, part)[from..to] == raw[from..to]
  {
    var r := Put(raw, at, part);
    assert forall i :: from <= i < to ==> r[i] == raw[i];
  }

  /** Set the sizes of the first `n` blocks that the version has. */
  function SetSizes(kind: Kind, raw: Bytes, sizes: seq<u32>, n: nat): (r: Bytes)
    requires HeaderSize(kind) <= |raw| && |sizes| == BLOCKS && n <= BLOCKS
    ensures |r| == |raw|
  {
    if n == 0 then raw
    else
      var r := SetSizes(kind, raw, sizes, n - 1);
      match SizeField(kind, n - 1)
      case None => r
      case Some(at) => FieldInside(kind, n - 1); Put(r, at, ToLe(sizes[n - 1]))
  }

  lemma FieldInside(kind: Kind, block: Block)
    requires SizeField(kind, block).Some?
    ensures 8 <= SizeField(kind, block).value <= HeaderSize(kind) - 4
  {
  }

  lemma FieldsApart(kind: Kind, i: Block, j: Block)
    requires i != j && SizeField(kind, i).Some? && SizeField(kind, j).Some?
    ensures var a, b := SizeField(kind, i).value, SizeField(kind, j).value; a + 4 <= b || b + 4 <= a
  {
  }

  /** A stretch of the header that holds no size field keeps its bytes. */
  ghost predicate NoSizeField(kind: Kind, from: nat, to: nat) {
    forall i: Block :: SizeField(kind, i).Some? ==>
      SizeField(kind, i).value + 4 <= from || to <= SizeField(kind, i).value
  }

  lemma {:induction false} SetSizesKeeps(kind: Kind, raw: Bytes, sizes: seq<u32>, n: nat, from: nat, to: nat)
    requires HeaderSize(kind) <= |raw| && |sizes| == BLOCKS && n <= BLOCKS && from <= to <= |raw|
    requires NoSizeField(kind, from, to)
    ensures SetSizes(kind, raw, sizes, n)[from..to] == raw[from..to]
  {
    hide SizeField, HeaderSize, Put;
    if n != 0 {
      SetSizesKeeps(kind, raw, sizes, n - 1, from, to);
      var f := SizeField(kind, n - 1);
      if f.Some? {
        FieldInside(kind, n - 1);
        PutKeeps(SetSizes(kind, raw, sizes, n - 1), f.value, ToLe(sizes[n - 1]), from, to);
      }
    }
  }

  lemma {:induction false} SetSizesReads(kind: Kind, raw: Bytes, sizes: seq<u32>, n: nat, block: Block)
    requires HeaderSize(kind) <= |raw| && |sizes| == BLOCKS && block < n <= BLOCKS
    requires SizeField(kind, block).Some?
    ensures Size(kind, SetSizes(kind, raw, sizes, n), block) == sizes[block]
  {
    hide SizeField, HeaderSize, Put;
    var at := SizeField(kind, block).value;
    FieldInside(kind, block);
    var r := SetSizes(kind, raw, sizes, n - 1);
    if block == n - 1 {
      PutReads(r, at, sizes[block]);
    } else {
      SetSizesReads(kind, raw, sizes, n - 1, block);
      var f := SizeField(kind, n - 1);
      if f.Some? {
        FieldsApart(kind, block, n - 1);
        FieldInside(kind, n - 1);
        PutKeeps(r, f.value, ToLe(sizes[n - 1]), at, at + 4);
      }
    }
  }

  function PutField(raw: Bytes, at: Option<nat>, part: Bytes): (r: Bytes)
    requires at.Some? ==> at.value + |part| <= |raw|
    ensures |r| == |raw|
  {
    if at.Some? then Put(raw, at.value, part) else raw
  }

  /** The header of the new image: block sizes, its own size, the place of the recovery dtbo, the checksum. */
  function NewRaw(kind: Kind, raw: Bytes, sizes: seq<u32>, dtbo: Option<nat>, id: Bytes): (r: Bytes)
    requires |raw| == HeaderSize(kind) && |sizes| == BLOCKS && |id| == 32
    ensures |r| == |raw|
  {
    var r := SetSizes(kind, raw, sizes, BLOCKS);
    var r1 := if dtbo.Some? then PutField(r, DtboOffsetField(kind), Digits(dtbo.value, 8)) else r;
    var r2 := PutField(r1, OwnSizeField(kind), ToLe(HeaderSize(kind)));
    PutField(r2, IdField(kind), id)
  }

  /** None of the other three fields is written over `from..to`. */
  ghost predicate NoOtherField(kind: Kind, from: nat, to: nat) {
    && (DtboOffsetField(kind).Some? ==> DtboOffsetField(kind).value + 8 <= from || to <= DtboOffsetField(kind).value)
    && (OwnSizeField(kind).Some? ==> OwnSizeField(kind).value + 4 <= from || to <= OwnSizeField(kind).value)
    && (IdField(kind).Some? ==> IdField(kind).value + 32 <= from || to <= IdField(kind).value)
  }

  lemma NewRawKeeps(kind: Kind, raw: Bytes, sizes: seq<u32>, dtbo: Option<nat>, id: Bytes, from: nat, to: nat)
    requires |raw| == HeaderSize(kind) && |sizes| == BLOCKS && |id| == 32 && from <= to <= |raw|
    requires NoOtherField(kind, from, to)
    ensures NewRaw(kind, raw, sizes, dtbo, id)[from..to] == SetSizes(kind, raw, sizes, BLOCKS)[from..to]
  {
    hide Put, SetSizes;
    var r := SetSizes(kind, raw, sizes, BLOCKS);
    var r1 := if dtbo.Some? then PutField(r, DtboOffsetField(kind), Digits(dtbo.value, 8)) else r;
    var r2 := PutField(r1, OwnSizeField(kind), ToLe(HeaderSize(kind)));
    if dtbo.Some? && DtboOffsetField(kind).Some? {
      PutKeeps(r, DtboOffsetField(kind).value, Digits(dtbo.value, 8), from, to);
    }
    if OwnSizeField(kind).Some? {
      PutKeeps(r1, OwnSizeField(kind).value, ToLe(HeaderSize(kind)), from, to);
    }
    if IdField(kind).Some? {
      PutKeeps(r2, IdField(kind).value, id, from, to);
    }
  }

  lemma SizeFieldAlone(kind: Kind, block: Block)
    requires SizeField(kind, block).Some?
    ensures NoOtherField(kind, SizeField(kind, block).value, SizeField(kind, block).value + 4)
  {
  }

  /** The new header has the new sizes. */
  lemma NewRawSize(kind: Kind, raw: Bytes, sizes: seq<u32>, dtbo: Option<nat>, id: Bytes, block: Block)
    requires |raw| == HeaderSize(kind) && |sizes| == BLOCKS && |id| == 32
    ensures Size(kind, NewRaw(kind, raw, sizes, dtbo, id), block) ==
            if SizeField(kind, block).Some? then sizes[block] else 0
  {
    hide SizeField, HeaderSize, NewRaw, SetSizes;
    var f := SizeField(kind, block);
    if f.Some? {
      FieldInside(kind, block);
      SizeFieldAlone(kind, block);
      NewRawKeeps(kind, raw, sizes, dtbo, id, f.value, f.value + 4);
      SetSizesReads(kind, raw, sizes, BLOCKS, block);
    }
  }

  lemma NewRawWord(kind: Kind, raw: Bytes, sizes: seq<u32>, dtbo: Option<nat>, id: Bytes, at: nat)
    requires |raw| == HeaderSize(kind) && |sizes| == BLOCKS && |id| == 32 && at + 4 <= |raw|
    requires NoSizeField(kind, at, at + 4) && NoOtherField(kind, at, at + 4)
    ensures Word(NewRaw(kind, raw, sizes, dtbo, id), at) == Word(raw, at)
  {
    hide SizeField, HeaderSize, NewRaw, SetSizes, NoSizeField, NoOtherField;
    NewRawKeeps(kind, raw, sizes, dtbo, id, at, at + 4);
    SetSizesKeeps(kind, raw, sizes, BLOCKS, at, at + 4);
  }

  /** The version word of a header without version is the size of its extra block: it may not look like a version. */
  predicate VersionSafe(kind: Kind, sizes: seq<u32>)
    requires |sizes| == BLOCKS
  {
    kind.V0? ==> !(1 <= sizes[EXTRA] <= 4)
  }

  /** What decides the version, and the page size, survives the new sizes. */
  lemma NewRawKind(kind: Kind, raw: Bytes, sizes: seq<u32>, dtbo: Option<nat>, id: Bytes, data: Bytes, after: Bytes)
    requires |raw| == HeaderSize(kind) && |sizes| == BLOCKS && |id| == 32 && VersionSafe(kind, sizes)
    requires |data| >= 2128 && |after| >= 2128
    requires data[..HeaderSize(kind)] == raw && after[..HeaderSize(kind)] == NewRaw(kind, raw, sizes, dtbo, id)
    requires KindOf(data, IsVendor(kind)) == kind
    ensures KindOf(after, IsVendor(kind)) == kind
    ensures PageSize(kind, NewRaw(kind, raw, sizes, dtbo, id)) == PageSize(kind, raw)
  {
    hide NewRaw, Put, SetSizes;
    if IsVendor(kind) {
      KeepWord(kind, raw, sizes, dtbo, id, data, after, 8);
      KeepWord(kind, raw, sizes, dtbo, id, data, after, 12);
    } else {
      KeepWord(kind, raw, sizes, dtbo, id, data, after, 36);
      if kind.Pxa? {
        KeepWord(kind, raw, sizes, dtbo, id, data, after, 44);
      }
      if kind.V0? {
        NewRawSize(kind, raw, sizes, dtbo, id, EXTRA);
        PrefixWord(after, NewRaw(kind, raw, sizes, dtbo, id), 40);
      } else if !kind.Pxa? {
        KeepWord(kind, raw, sizes, dtbo, id, data, after, 40);
      }
    }
  }

  lemma PrefixWord(data: Bytes, raw: Bytes, at: nat)
    requires raw <= data && at + 4 <= |raw|
    ensures Word(data, at) == Word(raw, at)
  {
    assert data[at..at + 4] == raw[at..at + 4];
  }

  lemma KeepWord(
    kind: Kind, raw: Bytes, sizes: seq<u32>, dtbo: Option<nat>, id: Bytes, data: Bytes, after: Bytes, at: nat)
    requires |raw| == HeaderSize(kind) && |sizes| == BLOCKS && |id| == 32 && at + 4 <= |raw|
    requires raw <= data && NewRaw(kind, raw, sizes, dtbo, id) <= after
    requires NoSizeField(kind, at, at + 4) && NoOtherField(kind, at, at + 4)
    ensures Word(after, at) == Word(data, at) == Word(raw, at) == Word(NewRaw(kind, raw, sizes, dtbo, id), at)
  {
    hide NewRaw, NoSizeField, NoOtherField;
    NewRawWord(kind, raw, sizes, dtbo, id, at);
    PrefixWord(data, raw, at);
    PrefixWord(after, NewRaw(kind, raw, sizes, dtbo, id), at);
  }
}
