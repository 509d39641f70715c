/** Unpacking an image to files without decompression, and repacking it from files. */
module BootRepack {
  import opened Common
  import opened LittleEndian
  import opened Format
  import opened BootHeader
  import opened BootLayout
  import opened BootImage
  import opened RamdiskTable

  /** The files that hold the parts of an image; `Vendor` files are those of the vendor ramdisk directory. */
  datatype File =
    | Kernel | KernelDtb | Ramdisk | Second | Extra | RecoveryDtbo | Dtb | Bootconfig
    | Vendor(name: Bytes)

  type Files = map<File, Bytes>

  function Read(files: Files, f: File): Bytes { if f in files then files[f] else [] }

  // ---------------------------------------------------------------------------------------
  // The vendor ramdisk table of an image
  // ---------------------------------------------------------------------------------------

  predicate HasTable(boot: Boot) { |boot.sizes| == BLOCKS && boot.sizes[TABLE] > 0 }

  function EntryCount(boot: Boot): nat
    requires boot.kind == Vendor4 && |boot.raw| == HeaderSize(boot.kind)
  {
    Word(boot.raw, 2116)
  }

  function EntryLength(boot: Boot): nat
    requires boot.kind == Vendor4 && |boot.raw| == HeaderSize(boot.kind)
  {
    Word(boot.raw, 2120)
  }

  /** The entries have the size the code knows, and lie in the table block. */
  ghost predicate TableUsable(boot: Boot, data: Bytes)
    requires WellParsed(boot, data)
  {
    HasTable(boot) ==>
      boot.kind == Vendor4 && EntryLength(boot) == ENTRY_SIZE && ENTRY_SIZE * EntryCount(boot) <= boot.sizes[TABLE]
  }

  function TableOf(boot: Boot, data: Bytes): seq<Entry>
    requires WellParsed(boot, data) && TableUsable(boot, data)
  {
    if HasTable(boot) then Entries(BlockOf(boot, data, TABLE), EntryCount(boot)) else []
  }

  // ---------------------------------------------------------------------------------------
  // Unpacking
  // ---------------------------------------------------------------------------------------

  /** The block whose bytes a file holds; the kernel block is split in two files. */
  function BlockOfFile(f: File): Block
    requires !f.Vendor?
  {
    match f
    case Kernel => KERNEL
    case KernelDtb => KERNEL
    case Ramdisk => RAMDISK
    case Second => SECOND
    case Extra => EXTRA
    case RecoveryDtbo => RECOVERY_DTBO
    case Dtb => BootHeader.DTB
    case Bootconfig => BOOTCONFIG
  }

  function Content(boot: Boot, data: Bytes, f: File): Bytes
    requires WellParsed(boot, data) && !f.Vendor?
  {
    var block := BlockOf(boot, data, BlockOfFile(f));
    match f
    case Kernel => block[..boot.kernelSize]
    case KernelDtb => block[boot.kernelSize..]
    case Ramdisk => if HasTable(boot) then [] else block
    case _ => block
  }

  /** The last part with a file name. */
  function LastNamed(es: seq<Entry>, ramdisk: Bytes, name: Bytes): Option<Bytes>
    requires forall k :: 0 <= k < |es| ==> Inside(es[k], |ramdisk|)
  {
    if es == [] then None
    else
      var last := es[|es| - 1];
      if FileKey(last) == name then Some(Part(ramdisk, last))
      else
        assert forall k :: 0 <= k < |es| - 1 ==> es[..|es| - 1][k] == es[k];
        LastNamed(es[..|es| - 1], ramdisk, name)
  }

  ghost predicate PartsInside(boot: Boot, data: Bytes)
    requires WellParsed(boot, data) && TableUsable(boot, data)
  {
    forall k :: 0 <= k < |TableOf(boot, data)| ==> Inside(TableOf(boot, data)[k], boot.sizes[RAMDISK])
  }

  function NonEmpty(part: Bytes): Option<Bytes> { if part == [] then None else Some(part) }

  /** A file exists for every part that is not empty, and for every entry of the table. */
  ghost predicate IsUnpacked(boot: Boot, data: Bytes, files: Files)
    requires WellParsed(boot, data) && TableUsable(boot, data) && PartsInside(boot, data)
  {
    && (forall f: File :: !f.Vendor? ==> Get(files, f) == NonEmpty(Content(boot, data, f)))
    && (forall name :: Get(files, Vendor(name)) == LastNamed(TableOf(boot, data), BlockOf(boot, data, RAMDISK), name))
  }

  /** No MTK header stands before the kernel or the ramdisk, and the kernel is no zImage. */
  predicate Plain(boot: Boot, data: Bytes)
    requires WellParsed(boot, data)
  {
    && CheckFmt(Content(boot, data, Kernel)) !in {MTK, ZIMAGE}
    && CheckFmt(Content(boot, data, Ramdisk)) != MTK
  }

  /** `dump`: no file for an empty part. */
  method Dump(files: Files, part: Bytes, f: File) returns (out: Files)
    requires f !in files
    ensures forall g :: Get(out, g) == if g == f then NonEmpty(part) else Get(files, g)
  {
    out := files;
    if |part| != 0 {
      out := out[f := part];
    }
  }

  /** One `dump` after the other. */
  method DumpAll(start: Files, boot: Boot, data: Bytes, list: seq<File>) returns (files: Files)
    requires WellParsed(boot, data)
    requires forall i :: 0 <= i < |list| ==> !list[i].Vendor? && list[i] !in start
    requires forall i, j :: 0 <= i < j < |list| ==> list[i] != list[j]
    ensures forall f: File :: Get(files, f) ==
              if !f.Vendor? && f in list then NonEmpty(Content(boot, data, f)) else Get(start, f)
  {
    hide WellParsed, Content, NonEmpty;
    files := start;
    for i := 0 to |list|
      invariant forall f: File :: Get(files, f) ==
                  if !f.Vendor? && f in list[..i] then NonEmpty(Content(boot, data, f)) else Get(start, f)
    {
      assert list[..i + 1] == list[..i] + [list[i]];
      files := Dump(files, Content(boot, data, list[i]), list[i]);
    }
    assert list[..|list|] == list;
  }

  /** `unpack -n`. */
  method Unpack(boot: Boot, data: Bytes) returns (files: Files)
    requires WellParsed(boot, data) && TableUsable(boot, data) && PartsInside(boot, data) && Plain(boot, data)
    ensures IsUnpacked(boot, data, files)
  {
    hide WellParsed, BlockOf, TableUsable, TableOf, LastNamed, Content, NonEmpty, Get, Plain;
    files := map[];
    NoFiles();
    files := DumpAll(files, boot, data, [Kernel, KernelDtb]);
    Fresh(files);
    if HasTable(boot) {
      files := UnpackParts(files, TableOf(boot, data), BlockOf(boot, data, RAMDISK));
      RamdiskInParts(boot, data);
    } else {
      files := DumpAll(files, boot, data, [Ramdisk]);
      NoTable(boot, data);
    }
    Fresh(files);
    files := DumpAll(files, boot, data, [Second, Extra, RecoveryDtbo, Dtb, Bootconfig]);
    Unpacked(boot, data, files);
  }

  /** The loop over the table: a file for every entry, even an empty one. */
  method UnpackParts(start: Files, es: seq<Entry>, ramdisk: Bytes) returns (files: Files)
    requires forall k :: 0 <= k < |es| ==> Inside(es[k], |ramdisk|)
    requires forall f :: f in start ==> !f.Vendor?
    ensures forall f: File :: !f.Vendor? ==> Get(files, f) == Get(start, f)
    ensures forall name :: Get(files, Vendor(name)) == LastNamed(es, ramdisk, name)
  {
    hide FileKey, Part, Inside;
    files := start;
    for i := 0 to |es|
      invariant forall k :: 0 <= k < i ==> Inside(es[..i][k], |ramdisk|)
      invariant forall f: File :: !f.Vendor? ==> Get(files, f) == Get(start, f)
      invariant forall name :: Get(files, Vendor(name)) == LastNamed(es[..i], ramdisk, name)
    {
      assert es[..i + 1][..i] == es[..i];
      files := files[Vendor(FileKey(es[i])) := Part(ramdisk, es[i])];
    }
    assert es[..|es|] == es;
  }

  lemma Fresh(files: Files)
    ensures forall f :: f in files <==> Get(files, f) != None
  {
  }

  lemma NoFiles()
    ensures forall f: File :: Get<File, Bytes>(map[], f) == None
  {
  }

  lemma RamdiskInParts(boot: Boot, data: Bytes)
    requires WellParsed(boot, data) && HasTable(boot)
    ensures NonEmpty(Content(boot, data, Ramdisk)) == None
  {
    hide WellParsed, BlockOf;
  }

  lemma Unpacked(boot: Boot, data: Bytes, files: Files)
    requires WellParsed(boot, data) && TableUsable(boot, data) && PartsInside(boot, data)
    requires forall f: File ::
      f in [Kernel, KernelDtb, Ramdisk, Second, Extra, RecoveryDtbo, Dtb, Bootconfig] && !f.Vendor? ==>
        Get(files, f) == NonEmpty(Content(boot, data, f))
    requires forall name ::
      Get(files, Vendor(name)) == LastNamed(TableOf(boot, data), BlockOf(boot, data, RAMDISK), name)
    ensures IsUnpacked(boot, data, files)
  {
    hide WellParsed, BlockOf, TableUsable, TableOf, LastNamed, Content, NonEmpty, Get;
  }

  lemma NoTable(boot: Boot, data: Bytes)
    requires WellParsed(boot, data) && TableUsable(boot, data) && PartsInside(boot, data) && !HasTable(boot)
    ensures forall name :: LastNamed(TableOf(boot, data), BlockOf(boot, data, RAMDISK), name) == None
  {
  }

  // ---------------------------------------------------------------------------------------
  // Repacking
  // ---------------------------------------------------------------------------------------

  function FileOfBlock(i: Block): File
    requires i in {SECOND, EXTRA, RECOVERY_DTBO, BootHeader.DTB, BOOTCONFIG}
  {
    if i == SECOND then Second else if i == EXTRA then Extra else if i == RECOVERY_DTBO then RecoveryDtbo
    else if i == BootHeader.DTB then Dtb else Bootconfig
  }

  function VendorContent(files: Files): Bytes -> Bytes { (name: Bytes) => Read(files, Vendor(name)) }

  /** The bytes that are written for a block. */
  function NewBlock(boot: Boot, data: Bytes, files: Files, i: Block): Bytes
    requires WellParsed(boot, data) && TableUsable(boot, data)
  {
    if i == KERNEL then
      (if Kernel in files then files[Kernel] else Content(boot, data, Kernel)) + Read(files, KernelDtb)
    else if i == RAMDISK then
      if HasTable(boot) then Section(TableOf(boot, data), VendorContent(files)) else Read(files, Ramdisk)
    else if i == SIGNATURE then BlockOf(boot, data, SIGNATURE)
    else if i == TABLE then Joined(Rewritten(TableOf(boot, data), VendorContent(files)))
    else Read(files, FileOfBlock(i))
  }

  /** The size that the new header is given for a block: some sizes are kept when nothing is written. */
  function NewSize(boot: Boot, data: Bytes, files: Files, i: Block): u32
    requires WellParsed(boot, data) && TableUsable(boot, data)
  {
    if i == SIGNATURE || i == TABLE || (i == EXTRA && Extra !in files) || (i == RECOVERY_DTBO && RecoveryDtbo !in files)
    then boot.sizes[i]
    else Wrap(|NewBlock(boot, data, files, i)|)
  }

  function NewBlocks(boot: Boot, data: Bytes, files: Files): (r: seq<Bytes>)
    requires WellParsed(boot, data) && TableUsable(boot, data)
    ensures |r| == BLOCKS && forall i: Block :: r[i] == NewBlock(boot, data, files, i)
  {
    seq(BLOCKS, i requires 0 <= i < BLOCKS && WellParsed(boot, data) && TableUsable(boot, data) =>
      NewBlock(boot, data, files, i))
  }

  function NewSizes(boot: Boot, data: Bytes, files: Files): (r: seq<u32>)
    requires WellParsed(boot, data) && TableUsable(boot, data)
    ensures |r| == BLOCKS && forall i: Block :: r[i] == NewSize(boot, data, files, i)
  {
    seq(BLOCKS, i requires 0 <= i < BLOCKS && WellParsed(boot, data) && TableUsable(boot, data) =>
      NewSize(boot, data, files, i))
  }

  const SEANDROID := Ascii("SEANDROIDENFORCE")
  const LG_BUMP: Bytes :=
    [0x41, 0xa9, 0xe4, 0x67, 0x74, 0x4d, 0x1d, 0x1b, 0xa4, 0x29, 0xf2, 0xec, 0xea, 0x65, 0x52, 0x79]

  /** Two vendors' marks behind the blocks are written again. */
  function Trailer(boot: Boot, data: Bytes): Bytes
    requires WellParsed(boot, data)
  {
    var tail := data[Start(boot, BLOCKS)..];
    if SEANDROID <= tail then SEANDROID else if LG_BUMP <= tail then LG_BUMP else []
  }

  function PaddedTo(out: Bytes, size: nat): (r: Bytes)
    ensures out <= r && |r| >= size
  {
    if |out| < size then out + Zeros(size - |out|) else out
  }

  /** The header has room before the first block. */
  predicate HeaderFits(boot: Boot) { HeaderSize(boot.kind) <= boot.space }

  function Head(boot: Boot, data: Bytes): (h: Bytes)
    requires WellParsed(boot, data)
    ensures |h| == boot.space
  {
    BlockInside(boot, data, KERNEL);
    data[..boot.space]
  }

  function DtboPlace(boot: Boot, data: Bytes, files: Files): Option<nat>
    requires WellParsed(boot, data) && TableUsable(boot, data)
  {
    if RecoveryDtbo in files
    then Some(|Laid(Head(boot, data), NewBlocks(boot, data, files)[..RECOVERY_DTBO], boot.page)|)
    else None
  }

  /** The file before the header is patched. */
  function Written(boot: Boot, data: Bytes, size: nat, files: Files): (r: Bytes)
    requires WellParsed(boot, data) && TableUsable(boot, data)
    ensures Laid(Head(boot, data), NewBlocks(boot, data, files), boot.page) <= r && |r| >= size && |r| >= boot.space
  {
    LaidHead(Head(boot, data), NewBlocks(boot, data, files), boot.page);
    var blocks := Laid(Head(boot, data), NewBlocks(boot, data, files), boot.page);
    PaddedTo(Padded(blocks + Trailer(boot, data), boot.page), size)
  }

  function Repacked(boot: Boot, data: Bytes, size: nat, files: Files, id: Bytes): Bytes
    requires WellParsed(boot, data) && TableUsable(boot, data) && HeaderFits(boot) && |id| == 32
  {
    Over(Written(boot, data, size, files), NewHeader(boot, data, files, id))
  }

  function NewHeader(boot: Boot, data: Bytes, files: Files, id: Bytes): (raw: Bytes)
    requires WellParsed(boot, data) && TableUsable(boot, data) && |id| == 32
    ensures |raw| == HeaderSize(boot.kind)
  {
    NewRaw(boot.kind, boot.raw, NewSizes(boot, data, files), DtboPlace(boot, data, files), id)
  }

  /** `memcpy` to the start of the file. */
  function Over(out: Bytes, raw: Bytes): (r: Bytes)
    requires |raw| <= |out|
    ensures |r| == |out| && raw <= r
  {
    raw + out[|raw|..]
  }

  /** The sizes that the cloned header starts with: five of them are reset. */
  function ResetSize(boot: Boot, i: Block): nat
    requires |boot.sizes| == BLOCKS
  {
    if i in {EXTRA, RECOVERY_DTBO, SIGNATURE, TABLE} then boot.sizes[i] else 0
  }

  /** Write a block, if there is anything to write, and align; `size` becomes its size in the header. */
  method WriteBlock(boot: Boot, data: Bytes, files: Files, i: Block, out: Bytes) returns (now: Bytes, size: nat)
    requires WellParsed(boot, data) && TableUsable(boot, data) && Aligned(|out|, boot.page)
    ensures now == Padded(out + NewBlock(boot, data, files, i), boot.page)
    ensures size == NewSize(boot, data, files, i)
  {
    hide WellParsed, TableUsable, BlockOf, TableOf, Padded, Content, Aligned, Wrap;
    NothingWritten(out, boot.page);
    SpaceAligned(boot, data);
    now, size := out, ResetSize(boot, i);
    if i == KERNEL {
      var kernel := if Kernel in files then files[Kernel] else Content(boot, data, Kernel);
      now := now + kernel;
      if KernelDtb in files {
        now := now + files[KernelDtb];
        kernel := kernel + files[KernelDtb];
      }
      assert now == out + kernel;
      size := Wrap(|kernel|);
      now := Padded(now, boot.page);
      assert kernel == NewBlock(boot, data, files, i);
    } else if i == RAMDISK && HasTable(boot) {
      var section, _ := WriteParts(TableOf(boot, data), VendorContent(files));
      size := Wrap(|section|);
      now := Padded(now + section, boot.page);
    } else if i == RAMDISK {
      if Ramdisk in files {
        size := Wrap(|files[Ramdisk]|);
        now := Padded(now + files[Ramdisk], boot.page);
      }
    } else if i == SIGNATURE {
      if size != 0 {
        now := Padded(now + BlockOf(boot, data, SIGNATURE), boot.page);
      }
    } else if i == TABLE {
      var _, table := WriteParts(TableOf(boot, data), VendorContent(files));
      if table != [] {
        now := Padded(now + Joined(table), boot.page);
      }
    } else if FileOfBlock(i) in files {
      size := Wrap(|files[FileOfBlock(i)]|);
      now := Padded(now + files[FileOfBlock(i)], boot.page);
    }
  }

  lemma NothingWritten(out: Bytes, page: nat)
    requires Aligned(|out|, page)
    ensures page > 0 && Padded(out + [], page) == out && Wrap(0) == 0 && Joined([]) == []
  {
    assert out + [] == out;
  }

  /** `repack -n`. */
  method Repack(boot: Boot, data: Bytes, size: nat, files: Files, id: Bytes) returns (image: Bytes)
    requires WellParsed(boot, data) && TableUsable(boot, data) && HeaderFits(boot) && |id| == 32 && Plain(boot, data)
    ensures image == Repacked(boot, data, size, files, id)
  {
    hide WellParsed, TableUsable, NewBlock, NewSize, Padded, Laid, Aligned, Trailer, NewRaw, HeaderSize, Plain;
    var page := boot.page;
    var out := Head(boot, data);
    ghost var blocks := NewBlocks(boot, data, files);
    SpaceAligned(boot, data);
    assert blocks[..0] == [];
    LaidNothing(out, page);
    var sizes: seq<u32> := [];
    var dtbo: Option<nat> := None;
    for i := 0 to BLOCKS
      invariant page > 0 && out == Laid(Head(boot, data), blocks[..i], page)
      invariant |sizes| == i && forall j: Block :: j < i ==> sizes[j] == NewSize(boot, data, files, j)
      invariant dtbo == if i > RECOVERY_DTBO then DtboPlace(boot, data, files) else None
    {
      if i == RECOVERY_DTBO && RecoveryDtbo in files {
        dtbo := Some(|out|);
      }
      LaidAligned(Head(boot, data), blocks[..i], page);
      LaidStep(Head(boot, data), blocks, page, i);
      var n;
      out, n := WriteBlock(boot, data, files, i, out);
      sizes := sizes + [n];
    }
    assert blocks[..BLOCKS] == blocks;
    assert sizes == NewSizes(boot, data, files);
    out := Padded(out + Trailer(boot, data), page);
    out := PaddedTo(out, size);
    assert out == Written(boot, data, size, files);
    var raw := NewRaw(boot.kind, boot.raw, sizes, dtbo, id);
    image := raw + out[|raw|..];
  }

  lemma LaidNothing(head: Bytes, page: nat)
    requires page > 0
    ensures Laid(head, [], page) == head
  {
  }

  lemma SpaceAligned(boot: Boot, data: Bytes)
    requires WellParsed(boot, data)
    ensures boot.page > 0 && Aligned(boot.space, boot.page)
    ensures |boot.raw| == HeaderSize(boot.kind) && |boot.sizes| == BLOCKS
  {
    OneMultiple(boot.page);
  }

  lemma OneMultiple(page: nat)
    ensures page > 0 ==> Aligned(page, page)
  {
  }

  // ---------------------------------------------------------------------------------------
  // What the repacked image parses to
  // ---------------------------------------------------------------------------------------

  /** Every block that is written has a size field, and every size in the header is that of its block. */
  ghost predicate Consistent(boot: Boot, data: Bytes, files: Files)
    requires WellParsed(boot, data) && TableUsable(boot, data)
  {
    && VersionSafe(boot.kind, NewSizes(boot, data, files))
    && forall i: Block :: SizesAgree(boot, data, files, i)
  }

  predicate SizesAgree(boot: Boot, data: Bytes, files: Files, i: Block)
    requires WellParsed(boot, data) && TableUsable(boot, data)
  {
    |NewBlock(boot, data, files, i)| == if SizeField(boot.kind, i).Some? then NewSize(boot, data, files, i) else 0
  }

  /** The image has the same kind of header and exactly these blocks. */
  ghost predicate HasBlocks(image: Bytes, sysPage: nat, find: Bytes -> int, boot: Boot, blocks: seq<Bytes>)
    requires sysPage >= 4096 && |blocks| == BLOCKS
  {
    var p := Parse(image, sysPage, find);
    && p.Some? && p.value.kind == boot.kind && p.value.page == boot.page && p.value.space == boot.space
    && p.value.sizes == Lengths(blocks)
    && WellParsed(p.value, Mapped(image, sysPage))
    && forall i: Block :: BlockOf(p.value, Mapped(image, sysPage), i) == blocks[i]
  }

  lemma NewHeaderSizes(boot: Boot, data: Bytes, files: Files, id: Bytes)
    requires WellParsed(boot, data) && TableUsable(boot, data) && |id| == 32 && Consistent(boot, data, files)
    ensures SizesOf(boot.kind, NewHeader(boot, data, files, id)) == Lengths(NewBlocks(boot, data, files))
  {
    hide WellParsed, TableUsable, NewBlock, NewSize, NewRaw, Size, SizeField;
    forall i: Block
      ensures Size(boot.kind, NewHeader(boot, data, files, id), i) == |NewBlock(boot, data, files, i)|
    {
      SpaceAligned(boot, data);
      assert SizesAgree(boot, data, files, i);
      NewRawSize(boot.kind, boot.raw, NewSizes(boot, data, files), DtboPlace(boot, data, files), id, i);
    }
  }

  /** Bytes past the header are those that were laid out. */
  lemma LaidInImage(boot: Boot, data: Bytes, size: nat, files: Files, id: Bytes, i: Block)
    requires WellParsed(boot, data) && TableUsable(boot, data) && HeaderFits(boot) && |id| == 32
    ensures var blocks := NewBlocks(boot, data, files);
            HasAt(Repacked(boot, data, size, files, id), Offset(Lengths(blocks), boot.space, boot.page, i), blocks[i])
  {
    hide WellParsed, TableUsable, NewBlocks, NewHeader, Written, Laid, Offset, Padded;
    SpaceAligned(boot, data);
    var blocks := NewBlocks(boot, data, files);
    var head := Head(boot, data);
    var laid, out := Laid(head, blocks, boot.page), Written(boot, data, size, files);
    var raw := NewHeader(boot, data, files, id);
    var at := Offset(Lengths(blocks), boot.space, boot.page, i);
    LaidBlock(head, blocks, boot.page, i);
    OffsetZero(Lengths(blocks), boot.space, boot.page);
    OffsetGrows(Lengths(blocks), boot.space, boot.page, 0, i);
    OverKeeps(laid, out, raw, at, blocks[i]);
  }

  lemma OverKeeps(laid: Bytes, out: Bytes, raw: Bytes, at: nat, part: Bytes)
    requires laid <= out && HasAt(laid, at, part) && |raw| <= |out| && |raw| <= at
    ensures HasAt(Over(out, raw), at, part)
  {
    var r := Over(out, raw);
    assert forall k :: at <= k < at + |part| ==> r[k] == out[k] == laid[k];
    assert r[at..at + |part|] == laid[at..at + |part|];
  }

  /** The new image's header is found again, with the same kind and page size. */
  lemma NewHeaderParses(img: Bytes, sysPage: nat, boot: Boot, files: Files, id: Bytes)
    requires sysPage >= 4096 && ParseHeader(img, sysPage) == Some((boot.kind, boot.raw))
    requires var data := Mapped(img, sysPage);
             WellParsed(boot, data) && TableUsable(boot, data) && HeaderFits(boot) && |id| == 32
             && VersionSafe(boot.kind, NewSizes(boot, data, files))
    ensures var data := Mapped(img, sysPage);
            var raw := NewHeader(boot, data, files, id);
            ParseHeader(Repacked(boot, data, |img|, files, id), sysPage) == Some((boot.kind, raw))
            && PageSize(boot.kind, raw) == boot.page && HeaderSpace(boot.kind, raw) == boot.space
  {
    hide NewRaw, Written, NewSizes, DtboPlace, KindOf, PageSize, HeaderSize, CheckFmt;
    var data := Mapped(img, sysPage);
    var raw := NewHeader(boot, data, files, id);
    var out := Repacked(boot, data, |img|, files, id);
    var after := Mapped(out, sysPage);
    SameMagic(img, sysPage, boot, files, id);
    MappedLength(out, sysPage);
    NewRawKind(boot.kind, boot.raw, NewSizes(boot, data, files), DtboPlace(boot, data, files), id, data, after);
    assert after[..HeaderSize(boot.kind)] == raw;
  }

  lemma SameMagic(img: Bytes, sysPage: nat, boot: Boot, files: Files, id: Bytes)
    requires sysPage >= 4096 && ParseHeader(img, sysPage) == Some((boot.kind, boot.raw))
    requires var data := Mapped(img, sysPage);
             WellParsed(boot, data) && TableUsable(boot, data) && HeaderFits(boot) && |id| == 32
    ensures var out := Repacked(boot, Mapped(img, sysPage), |img|, files, id);
            |out| >= 8 && CheckFmt(out) == CheckFmt(img)
  {
    hide NewRaw, Written, NewSizes, DtboPlace, KindOf, PageSize, CheckFmt, SetSizes;
    var data := Mapped(img, sysPage);
    BootMagicLength(img);
    var sizes, dtbo := NewSizes(boot, data, files), DtboPlace(boot, data, files);
    MagicIsFree(boot.kind);
    NewRawKeeps(boot.kind, boot.raw, sizes, dtbo, id, 0, 8);
    SetSizesKeeps(boot.kind, boot.raw, sizes, BLOCKS, 0, 8);
    var out := Repacked(boot, data, |img|, files, id);
    assert img[..8] == data[..8] == boot.raw[..8] == boot.raw[0..8];
    assert out[..8] == NewHeader(boot, data, files, id)[0..8];
    BootByMagic(img, out);
  }

  lemma MagicIsFree(kind: Kind)
    ensures NoSizeField(kind, 0, 8) && NoOtherField(kind, 0, 8)
  {
    forall i: Block | SizeField(kind, i).Some? ensures 8 <= SizeField(kind, i).value {
      FieldInside(kind, i);
    }
  }

  /** The parsed image and its header. */
  lemma ParsedHeader(img: Bytes, sysPage: nat, find: Bytes -> int)
    requires sysPage >= 4096 && Parse(img, sysPage, find).Some?
    ensures var boot := Parse(img, sysPage, find).value; ParseHeader(img, sysPage) == Some((boot.kind, boot.raw))
  {
    hide ParseHeader, Mapped, Offset, SizesOf, PageSize, HeaderSpace;
  }

  /** Any set of files that is consistent with the header is found again, block for block. */
  lemma ConsistentReparses(img: Bytes, sysPage: nat, find: Bytes -> int, files: Files, id: Bytes)
    requires sysPage >= 4096 && Parse(img, sysPage, find).Some? && |id| == 32
    requires var boot, data := Parse(img, sysPage, find).value, Mapped(img, sysPage);
             WellParsed(boot, data) && TableUsable(boot, data) && HeaderFits(boot) && Consistent(boot, data, files)
    ensures var boot, data := Parse(img, sysPage, find).value, Mapped(img, sysPage);
            HasBlocks(Repacked(boot, data, |img|, files, id), sysPage, find, boot, NewBlocks(boot, data, files))
  {
    hide Parse, ParseHeader, Mapped, WellParsed, TableUsable, HeaderFits, Consistent, Repacked, NewBlocks, BlockOf;
    hide HasBlocks, Offset, Lengths;
    var boot, data := Parse(img, sysPage, find).value, Mapped(img, sysPage);
    var out, blocks := Repacked(boot, data, |img|, files, id), NewBlocks(boot, data, files);
    ParsedHeader(img, sysPage, find);
    SameShape(img, sysPage, find, boot, files, id);
    ParseGives(out, sysPage, find);
    var p := Parse(out, sysPage, find).value;
    forall i: Block ensures BlockOf(p, Mapped(out, sysPage), i) == blocks[i] {
      LaidInImage(boot, data, |img|, files, id, i);
      FoundBlock(p, out, Mapped(out, sysPage), blocks, i);
    }
    FoundAll(out, sysPage, find, boot, blocks);
  }

  lemma FoundAll(image: Bytes, sysPage: nat, find: Bytes -> int, boot: Boot, blocks: seq<Bytes>)
    requires sysPage >= 4096 && |blocks| == BLOCKS && Parse(image, sysPage, find).Some?
    requires var p := Parse(image, sysPage, find).value;
             && p.kind == boot.kind && p.page == boot.page && p.space == boot.space && p.sizes == Lengths(blocks)
             && WellParsed(p, Mapped(image, sysPage))
             && forall i: Block :: BlockOf(p, Mapped(image, sysPage), i) == blocks[i]
    ensures HasBlocks(image, sysPage, find, boot, blocks)
  {
    hide Parse, WellParsed, BlockOf, Mapped;
  }

  lemma FoundBlock(p: Boot, out: Bytes, after: Bytes, blocks: seq<Bytes>, i: Block)
    requires WellParsed(p, after) && out <= after && |blocks| == BLOCKS && p.sizes == Lengths(blocks)
    requires HasAt(out, Offset(Lengths(blocks), p.space, p.page, i), blocks[i])
    ensures BlockOf(p, after, i) == blocks[i]
  {
    hide Offset, SizesOf, PageSize, HeaderSpace, HeaderSize;
    PrefixHas(out, after, Start(p, i), blocks[i]);
  }

  /** The repacked image parses, with the same header and the new blocks' sizes. */
  lemma SameShape(img: Bytes, sysPage: nat, find: Bytes -> int, boot: Boot, files: Files, id: Bytes)
    requires sysPage >= 4096 && ParseHeader(img, sysPage) == Some((boot.kind, boot.raw))
    requires var data := Mapped(img, sysPage);
             WellParsed(boot, data) && TableUsable(boot, data) && HeaderFits(boot) && |id| == 32
             && Consistent(boot, data, files)
    ensures var data := Mapped(img, sysPage);
            var p := Parse(Repacked(boot, data, |img|, files, id), sysPage, find);
            p.Some? && p.value.kind == boot.kind && p.value.page == boot.page && p.value.space == boot.space
            && p.value.sizes == Lengths(NewBlocks(boot, data, files))
  {
    hide *;
    var data := Mapped(img, sysPage);
    var out, raw := Repacked(boot, data, |img|, files, id), NewHeader(boot, data, files, id);
    ConsistentVersion(boot, data, files);
    NewHeaderParses(img, sysPage, boot, files, id);
    NewHeaderSizes(boot, data, files, id);
    BlocksFit(boot, data, |img|, files, id);
    ParseFrom(out, sysPage, find, boot.kind, raw);
  }

  lemma ConsistentVersion(boot: Boot, data: Bytes, files: Files)
    requires WellParsed(boot, data) && TableUsable(boot, data) && Consistent(boot, data, files)
    ensures VersionSafe(boot.kind, NewSizes(boot, data, files))
  {
  }

  lemma PrefixHas(a: Bytes, b: Bytes, at: nat, part: Bytes)
    requires a <= b && HasAt(a, at, part)
    ensures at + |part| <= |b| && b[at..at + |part|] == part
  {
    assert b[at..at + |part|] == a[at..at + |part|];
  }

  lemma BlocksFit(boot: Boot, data: Bytes, size: nat, files: Files, id: Bytes)
    requires WellParsed(boot, data) && TableUsable(boot, data) && HeaderFits(boot) && |id| == 32
    ensures var out := Repacked(boot, data, size, files, id);
            Offset(Lengths(NewBlocks(boot, data, files)), boot.space, boot.page, BLOCKS) <= |out|
  {
    hide WellParsed, TableUsable, NewBlocks, NewHeader, Written, Laid, Offset;
    SpaceAligned(boot, data);
    var blocks := NewBlocks(boot, data, files);
    LaidLength(Head(boot, data), blocks, boot.page, BLOCKS);
    assert blocks[..BLOCKS] == blocks;
  }

  lemma ParseFrom(img: Bytes, sysPage: nat, find: Bytes -> int, kind: Kind, raw: Bytes)
    requires sysPage >= 4096 && ParseHeader(img, sysPage) == Some((kind, raw))
    requires Offset(SizesOf(kind, raw), HeaderSpace(kind, raw), PageSize(kind, raw), BLOCKS) <= |img|
    ensures var p := Parse(img, sysPage, find);
            p.Some? && p.value.kind == kind && p.value.raw == raw && p.value.page == PageSize(kind, raw)
            && p.value.space == HeaderSpace(kind, raw) && p.value.sizes == SizesOf(kind, raw)
  {
    hide ParseHeader, Mapped, Offset, SizesOf, PageSize, HeaderSpace, KernelPart;
  }

  /** And no other set of files is. */
  lemma ReparsedIsConsistent(img: Bytes, sysPage: nat, find: Bytes -> int, boot: Boot, files: Files, id: Bytes)
    requires sysPage >= 4096 && |id| == 32
    requires var data := Mapped(img, sysPage);
             WellParsed(boot, data) && TableUsable(boot, data) && HeaderFits(boot)
             && HasBlocks(Repacked(boot, data, |img|, files, id), sysPage, find, boot, NewBlocks(boot, data, files))
    ensures Consistent(boot, Mapped(img, sysPage), files)
  {
    hide Parse, ParseHeader, Mapped, TableUsable, HeaderFits, NewBlock, NewSize, Written, NewRaw, KindOf, Size;
    hide SizeField, HeaderSize, HeaderSpace, PageSize, Offset;
    var data := Mapped(img, sysPage);
    var out, raw := Repacked(boot, data, |img|, files, id), NewHeader(boot, data, files, id);
    var sizes, dtbo := NewSizes(boot, data, files), DtboPlace(boot, data, files);
    var p := Parse(out, sysPage, find).value;
    assert p.raw == raw by { SamePrefix(p.raw, raw, Mapped(out, sysPage)); }
    forall i: Block ensures SizesAgree(boot, data, files, i) {
      NewRawSize(boot.kind, boot.raw, sizes, dtbo, id, i);
    }
    ParsedHeader(out, sysPage, find);
    KindIsSafe(out, sysPage, boot.kind, raw);
    if boot.kind.V0? {
      NewRawSize(boot.kind, boot.raw, sizes, dtbo, id, EXTRA);
      ExtraField();
    }
  }

  /** Removing the file of the extra block leaves its size in the header. */
  lemma RemovedExtraIsInconsistent(boot: Boot, data: Bytes, files: Files)
    requires WellParsed(boot, data) && TableUsable(boot, data)
    requires boot.sizes[EXTRA] > 0 && Extra !in files
    ensures !Consistent(boot, data, files)
  {
    hide TableUsable, HeaderSpace, PageSize, Offset, BlockOf, TableOf;
    assert SizeField(boot.kind, EXTRA).Some? by { SizeIsWord(boot, data, EXTRA); }
    assert !SizesAgree(boot, data, files, EXTRA);
  }

  lemma SamePrefix(a: Bytes, b: Bytes, data: Bytes)
    requires a <= data && b <= data && |a| == |b|
    ensures a == b
  {
  }

  lemma ExtraField()
    ensures SizeField(V0, EXTRA) == Some(40)
  {
  }

  /** A header that was taken for one without version does not look like one with a version. */
  lemma KindIsSafe(img: Bytes, sysPage: nat, kind: Kind, raw: Bytes)
    requires sysPage >= 4096 && ParseHeader(img, sysPage) == Some((kind, raw))
    ensures |raw| == HeaderSize(kind) && (kind.V0? ==> !(1 <= Size(kind, raw, EXTRA) <= 4))
  {
    hide CheckFmt, Mapped, PageSize;
    if kind.V0? {
      PrefixWord(Mapped(img, sysPage), raw, 40);
    }
  }

  // ---------------------------------------------------------------------------------------
  // The round trip
  // ---------------------------------------------------------------------------------------

  /** Entries that share a file have the same bytes. */
  ghost predicate SharedFilesAgree(es: seq<Entry>, ramdisk: Bytes)
    requires forall k :: 0 <= k < |es| ==> Inside(es[k], |ramdisk|)
  {
    forall i, j :: 0 <= i < j < |es| && FileKey(es[i]) == FileKey(es[j]) ==>
      Part(ramdisk, es[i]) == Part(ramdisk, es[j])
  }

  /** The parts tile the ramdisk block, and none is lost to another that has its name. */
  ghost predicate TableKept(boot: Boot, data: Bytes)
    requires WellParsed(boot, data) && TableUsable(boot, data) && PartsInside(boot, data)
  {
    HasTable(boot) ==>
      Tiles(TableOf(boot, data), boot.sizes[RAMDISK])
      && SharedFilesAgree(TableOf(boot, data), BlockOf(boot, data, RAMDISK))
  }

  /** Nothing stands behind the last entry of a table. */
  ghost predicate TableFull(boot: Boot, data: Bytes)
    requires WellParsed(boot, data) && TableUsable(boot, data)
  {
    HasTable(boot) ==> ENTRY_SIZE * EntryCount(boot) == boot.sizes[TABLE]
  }

  /** The file of an entry holds the last part with its name. */
  lemma {:induction false} FileOfEntry(es: seq<Entry>, ramdisk: Bytes, k: nat) returns (last: nat)
    requires forall j :: 0 <= j < |es| ==> Inside(es[j], |ramdisk|)
    requires k < |es|
    ensures k <= last < |es| && FileKey(es[last]) == FileKey(es[k])
    ensures LastNamed(es, ramdisk, FileKey(es[k])) == Some(Part(ramdisk, es[last]))
  {
    hide FileKey, Part, Inside;
    last := |es| - 1;
    if FileKey(es[last]) != FileKey(es[k]) {
      var init := es[..|es| - 1];
      assert forall j :: 0 <= j < |init| ==> init[j] == es[j];
      last := FileOfEntry(init, ramdisk, k);
    }
  }

  lemma FilesHoldParts(es: seq<Entry>, ramdisk: Bytes, content: Bytes -> Bytes)
    requires forall k :: 0 <= k < |es| ==> Inside(es[k], |ramdisk|)
    requires forall k :: 0 <= k < |es| ==>
      LastNamed(es, ramdisk, FileKey(es[k])) == Some(content(FileKey(es[k])))
    ensures SharedFilesAgree(es, ramdisk) <==> forall k :: 0 <= k < |es| ==> HoldsPart(es, ramdisk, content, k)
  {
    hide FileKey, Part, Inside, LastNamed;
    if SharedFilesAgree(es, ramdisk) {
      forall k | 0 <= k < |es| ensures HoldsPart(es, ramdisk, content, k) {
        var last := FileOfEntry(es, ramdisk, k);
      }
    }
    if forall k :: 0 <= k < |es| ==> HoldsPart(es, ramdisk, content, k) {
      forall i, j | 0 <= i < j < |es| && FileKey(es[i]) == FileKey(es[j])
        ensures Part(ramdisk, es[i]) == Part(ramdisk, es[j])
      {
        assert HoldsPart(es, ramdisk, content, i) && HoldsPart(es, ramdisk, content, j);
      }
    }
  }

  /** Two entries of one name: the second part is written twice and the first is lost. */
  lemma SharedNameLosesPart(e: Entry, a: byte, b: byte)
    requires a != b
    ensures var es := [Rewrite(e, 0, 1), Rewrite(e, 1, 1)];
            && Tiles(es, 2) && Inside(es[0], 2) && Inside(es[1], 2) && FileKey(es[0]) == FileKey(es[1])
            && LastNamed(es, [a, b], FileKey(es[0])) == Some([b])
            && !SharedFilesAgree(es, [a, b])
  {
    hide Rewrite, FileKey, PartOffset, PartSize;
    RewriteFields(e, 0, 1);
    RewriteFields(e, 1, 1);
    var es := [Rewrite(e, 0, 1), Rewrite(e, 1, 1)];
    assert es[..1] == [es[0]] && es[..0] == [] && [es[0]][..0] == [];
    assert Total(es[..0]) == 0 && Total(es[..1]) == 1;
    var ramdisk: Bytes := [a, b];
    assert ramdisk[0..1] == [a] && ramdisk[1..2] == [b];
    assert Part(ramdisk, es[0]) == [a] && Part(ramdisk, es[1]) == [b];
    assert es[|es| - 1] == es[1];
    assert Part(ramdisk, es[0])[0] != Part(ramdisk, es[1])[0];
  }

  lemma SameRamdisk(boot: Boot, data: Bytes, files: Files)
    requires WellParsed(boot, data) && TableUsable(boot, data) && PartsInside(boot, data) && TableFull(boot, data)
    requires IsUnpacked(boot, data, files) && HasTable(boot)
    ensures |NewBlock(boot, data, files, TABLE)| == boot.sizes[TABLE]
    ensures (NewBlock(boot, data, files, RAMDISK) == BlockOf(boot, data, RAMDISK)
             && NewBlock(boot, data, files, TABLE) == BlockOf(boot, data, TABLE)) <==> TableKept(boot, data)
  {
    hide TableUsable, FileKey, Part, Inside, LastNamed, Content, SizesOf, HeaderSize, HeaderSpace, PageSize, Offset;
    hide Section, SharedFilesAgree, HoldsPart;
    hide Rewritten, Joined, Tiles, Entries, Word;
    var es, ramdisk := TableOf(boot, data), BlockOf(boot, data, RAMDISK);
    var content := VendorContent(files);
    forall k | 0 <= k < |es| ensures LastNamed(es, ramdisk, FileKey(es[k])) == Some(content(FileKey(es[k]))) {
      var last := FileOfEntry(es, ramdisk, k);
      assert Get(files, Vendor(FileKey(es[k]))) == LastNamed(es, ramdisk, FileKey(es[k]));
    }
    FilesHoldParts(es, ramdisk, content);
    SizeIsWord(boot, data, RAMDISK);
    SameTable(es, ramdisk, content);
    var t := BlockOf(boot, data, TABLE);
    JoinedEntries(t, EntryCount(boot));
    assert t[..|t|] == t;
    JoinedInjective(Rewritten(es, content), es);
    JoinedLength(Rewritten(es, content));
  }

  lemma SizeIsWord(boot: Boot, data: Bytes, i: Block)
    requires WellParsed(boot, data)
    ensures boot.sizes[i] < WORD_LIMIT && Wrap(boot.sizes[i]) == boot.sizes[i]
    ensures boot.sizes[i] == Size(boot.kind, boot.raw, i)
  {
  }

  /** After unpacking, every block but those of a table is written as it was. */
  lemma SameBlock(boot: Boot, data: Bytes, files: Files, i: Block)
    requires WellParsed(boot, data) && TableUsable(boot, data) && PartsInside(boot, data)
    requires IsUnpacked(boot, data, files) && !(HasTable(boot) && (i == RAMDISK || i == TABLE))
    ensures NewBlock(boot, data, files, i) == BlockOf(boot, data, i)
  {
    hide WellParsed, TableUsable, PartsInside, IsUnpacked, BlockOf, TableOf, Content;
    if i == KERNEL {
      SameKernel(boot, data, files);
    } else if i == RAMDISK {
      SameFile(boot, data, files, Ramdisk);
    } else if i == TABLE {
      EmptyTable(boot, data, files);
    } else if i != SIGNATURE {
      SameFile(boot, data, files, FileOfBlock(i));
    }
  }

  lemma EmptyTable(boot: Boot, data: Bytes, files: Files)
    requires WellParsed(boot, data) && TableUsable(boot, data) && !HasTable(boot)
    ensures NewBlock(boot, data, files, TABLE) == BlockOf(boot, data, TABLE) == []
  {
    hide TableUsable, SizesOf, HeaderSize, HeaderSpace, PageSize, Offset;
  }

  lemma SameFile(boot: Boot, data: Bytes, files: Files, f: File)
    requires WellParsed(boot, data) && TableUsable(boot, data) && PartsInside(boot, data)
    requires IsUnpacked(boot, data, files)
    requires !f.Vendor? && !f.Kernel? && !f.KernelDtb? && !(f.Ramdisk? && HasTable(boot))
    ensures Read(files, f) == BlockOf(boot, data, BlockOfFile(f))
  {
    hide WellParsed, TableUsable, BlockOf, LastNamed;
    assert Get(files, f) == NonEmpty(Content(boot, data, f));
  }

  lemma SameKernel(boot: Boot, data: Bytes, files: Files)
    requires WellParsed(boot, data) && TableUsable(boot, data) && PartsInside(boot, data)
    requires IsUnpacked(boot, data, files)
    ensures NewBlock(boot, data, files, KERNEL) == BlockOf(boot, data, KERNEL)
  {
    hide TableUsable, LastNamed, SizesOf, HeaderSize, HeaderSpace, PageSize, Offset, TableOf, PartsInside;
    assert Get(files, Kernel) == NonEmpty(Content(boot, data, Kernel));
    assert Get(files, KernelDtb) == NonEmpty(Content(boot, data, KernelDtb));
    var block := BlockOf(boot, data, KERNEL);
    assert block[..boot.kernelSize] + block[boot.kernelSize..] == block;
  }

  function OldBlocks(boot: Boot, data: Bytes): (r: seq<Bytes>)
    requires WellParsed(boot, data)
    ensures |r| == BLOCKS && forall i: Block :: r[i] == BlockOf(boot, data, i)
  {
    seq(BLOCKS, i requires 0 <= i < BLOCKS && WellParsed(boot, data) => BlockOf(boot, data, i))
  }

  /** The parts' files together are smaller than 4 GiB. */
  ghost predicate RamdiskFits(boot: Boot, data: Bytes, files: Files)
    requires WellParsed(boot, data) && TableUsable(boot, data)
  {
    |NewBlock(boot, data, files, RAMDISK)| < WORD_LIMIT
  }

  /** What was just unpacked is consistent with the header it came from. Its blocks are the old ones
      exactly when the table keeps all parts. */
  lemma UnpackedIsConsistent(img: Bytes, sysPage: nat, boot: Boot, files: Files)
    requires sysPage >= 4096 && ParseHeader(img, sysPage) == Some((boot.kind, boot.raw))
    requires var data := Mapped(img, sysPage);
             WellParsed(boot, data) && TableUsable(boot, data) && PartsInside(boot, data) && TableFull(boot, data)
             && IsUnpacked(boot, data, files)
    ensures var data := Mapped(img, sysPage);
            && (RamdiskFits(boot, data, files) ==> Consistent(boot, data, files))
            && (NewBlocks(boot, data, files) == OldBlocks(boot, data) <==> TableKept(boot, data))
            && (TableKept(boot, data) ==> RamdiskFits(boot, data, files))
  {
    hide ParseHeader, Mapped, WellParsed, TableUsable, TableFull, TableKept, PartsInside, IsUnpacked, BlockOf;
    hide NewBlock, SizeField;
    hide Size, HeaderSize;
    var data := Mapped(img, sysPage);
    SpaceAligned(boot, data);
    forall i: Block
      ensures RamdiskFits(boot, data, files) ==> SizesAgree(boot, data, files, i)
      ensures !(HasTable(boot) && (i == RAMDISK || i == TABLE)) ==>
                NewBlock(boot, data, files, i) == BlockOf(boot, data, i)
                && NewSize(boot, data, files, i) == boot.sizes[i]
    {
      OneSize(boot, data, files, i);
    }
    KindIsSafe(img, sysPage, boot.kind, boot.raw);
    SizeIsWord(boot, data, EXTRA);
    SizeIsWord(boot, data, RAMDISK);
    BlockSize(boot, data, RAMDISK);
    if HasTable(boot) {
      SameRamdisk(boot, data, files);
    } else {
      NoTableIsKept(boot, data);
    }
  }

  lemma BlockSize(boot: Boot, data: Bytes, i: Block)
    requires WellParsed(boot, data)
    ensures |BlockOf(boot, data, i)| == boot.sizes[i]
  {
  }

  lemma NoTableIsKept(boot: Boot, data: Bytes)
    requires WellParsed(boot, data) && TableUsable(boot, data) && PartsInside(boot, data) && !HasTable(boot)
    ensures TableKept(boot, data)
  {
  }

  lemma OneSize(boot: Boot, data: Bytes, files: Files, i: Block)
    requires WellParsed(boot, data) && TableUsable(boot, data) && PartsInside(boot, data) && TableFull(boot, data)
    requires IsUnpacked(boot, data, files)
    ensures RamdiskFits(boot, data, files) ==> SizesAgree(boot, data, files, i)
    ensures !(HasTable(boot) && (i == RAMDISK || i == TABLE)) ==>
              NewBlock(boot, data, files, i) == BlockOf(boot, data, i) && NewSize(boot, data, files, i) == boot.sizes[i]
  {
    hide WellParsed, TableUsable, TableFull, PartsInside, IsUnpacked, BlockOf, NewBlock, SizeField, Size, HeaderSize;
    SpaceAligned(boot, data);
    SizeIsWord(boot, data, i);
    BlockSize(boot, data, i);
    if HasTable(boot) && (i == RAMDISK || i == TABLE) {
      SameRamdisk(boot, data, files);
      TableHasFields(boot, data);
    } else {
      SameBlock(boot, data, files, i);
      if SizeField(boot.kind, i).None? {
        NoFieldNoSize(boot.kind, boot.raw, i);
      }
    }
  }

  lemma TableHasFields(boot: Boot, data: Bytes)
    requires WellParsed(boot, data) && TableUsable(boot, data) && HasTable(boot)
    ensures SizeField(boot.kind, RAMDISK).Some? && SizeField(boot.kind, TABLE).Some?
  {
  }

  lemma NoFieldNoSize(kind: Kind, raw: Bytes, i: Block)
    requires HeaderSize(kind) <= |raw| && SizeField(kind, i).None?
    ensures Size(kind, raw, i) == 0
  {
  }

  /**
   * Unpack without decompression, then repack without compression: the new image, no shorter, parses
   * to the same header version, the same nine sizes and the same nine blocks exactly when the table,
   * if there is one, keeps all parts. Of a table with bytes behind its last entry this says nothing.
   */
  method UnpackThenRepack(img: Bytes, sysPage: nat, find: Bytes -> int, id: Bytes)
    returns (image: Bytes, files: Files)
    requires sysPage >= 4096 && Parse(img, sysPage, find).Some? && |id| == 32
    requires var boot, data := Parse(img, sysPage, find).value, Mapped(img, sysPage);
             WellParsed(boot, data) && TableUsable(boot, data) && HeaderFits(boot) && PartsInside(boot, data)
             && Plain(boot, data)
    ensures |image| >= |img|
    ensures var boot, data := Parse(img, sysPage, find).value, Mapped(img, sysPage);
            && IsUnpacked(boot, data, files) && image == Repacked(boot, data, |img|, files, id)
            && (TableFull(boot, data) && TableKept(boot, data) ==>
                HasBlocks(image, sysPage, find, boot, OldBlocks(boot, data)))
            && (TableFull(boot, data) && RamdiskFits(boot, data, files) ==>
                (HasBlocks(image, sysPage, find, boot, OldBlocks(boot, data)) <==> TableKept(boot, data)))
  {
    hide *;
    var parsed := ParseImage(img, sysPage, find);
    var boot, data := parsed.value, Mapped(img, sysPage);
    files := Unpack(boot, data);
    image := Repack(boot, data, |img|, files, id);
    ParsedHeader(img, sysPage, find);
    if TableFull(boot, data) {
      UnpackedIsConsistent(img, sysPage, boot, files);
      if RamdiskFits(boot, data, files) {
        ConsistentReparses(img, sysPage, find, files, id);
        SameBlocks(image, sysPage, find, boot, NewBlocks(boot, data, files), OldBlocks(boot, data));
      }
    }
    RepackedLength(boot, data, |img|, files, id);
  }

  /** An image has one list of blocks. */
  lemma SameBlocks(image: Bytes, sysPage: nat, find: Bytes -> int, boot: Boot, a: seq<Bytes>, b: seq<Bytes>)
    requires sysPage >= 4096 && |a| == |b| == BLOCKS && HasBlocks(image, sysPage, find, boot, a)
    ensures HasBlocks(image, sysPage, find, boot, b) <==> a == b
  {
    hide Parse, WellParsed, BlockOf, Mapped, Lengths;
    var p := Parse(image, sysPage, find).value;
    if HasBlocks(image, sysPage, find, boot, b) {
      forall i: Block ensures a[i] == b[i] {
        assert BlockOf(p, Mapped(image, sysPage), i) == a[i];
      }
    }
  }

  lemma RepackedLength(boot: Boot, data: Bytes, size: nat, files: Files, id: Bytes)
    requires WellParsed(boot, data) && TableUsable(boot, data) && HeaderFits(boot) && |id| == 32
    ensures |Repacked(boot, data, size, files, id)| >= size
  {
    hide WellParsed, TableUsable, Written, NewHeader;
  }
}
