/** Boot images: parsing into nine blocks, unpacking to files, repacking from files. */
module BootImage {
  import opened Common
  import opened Format
  import opened BootHeader
  import opened BootLayout

  /** A parsed image. `kernelSize` is what is left of the kernel block without the device tree behind it. */
  datatype Boot = Boot(kind: Kind, raw: Bytes, page: nat, space: nat, sizes: seq<nat>, kernelSize: nat)

  /** The mapped file: zeros fill its last page. */
  function Mapped(img: Bytes, sysPage: nat): (data: Bytes)
    requires sysPage > 0
    ensures img <= data && Aligned(|data|, sysPage)
  {
    Padded(img, sysPage)
  }

  function SizesOf(kind: Kind, raw: Bytes): (sizes: seq<nat>)
    requires HeaderSize(kind) <= |raw|
    ensures |sizes| == BLOCKS
    ensures forall i: Block :: sizes[i] == Size(kind, raw, i)
  {
    seq(BLOCKS, i requires 0 <= i < BLOCKS => Size(kind, raw, i) as nat)
  }

  function Start(boot: Boot, i: nat): nat
    requires boot.page > 0 && i <= |boot.sizes|
  {
    Offset(boot.sizes, boot.space, boot.page, i)
  }

  /** The part of a kernel block before the device tree found in it, if one is. */
  function KernelPart(find: Bytes -> int, block: Bytes): (n: nat)
    ensures n <= |block|
  {
    if 0 < find(block) <= |block| then find(block) else |block|
  }

  const MAX_PAGE: int := 0x8000_0000

  /** The header at the start of the mapped file, when its magic is there and its page size can be used. */
  function ParseHeader(img: Bytes, sysPage: nat): (r: Option<(Kind, Bytes)>)
    requires sysPage >= 4096
    ensures r.Some? ==> |r.value.1| == HeaderSize(r.value.0) && 0 < PageSize(r.value.0, r.value.1) < MAX_PAGE
    ensures r.Some? ==> r.value.1 <= Mapped(img, sysPage) && |Mapped(img, sysPage)| >= 4096
    ensures r.Some? ==> KindOf(Mapped(img, sysPage), IsVendor(r.value.0)) == r.value.0
    ensures r.Some? ==> CheckFmt(img) == if IsVendor(r.value.0) then AOSP_VENDOR else AOSP
  {
    var fmt := CheckFmt(img);
    var data := Mapped(img, sysPage);
    if img == [] || fmt !in {AOSP, AOSP_VENDOR} then None
    else
      MappedLength(img, sysPage);
      var kind := KindOf(data, fmt == AOSP_VENDOR);
      var raw := data[..HeaderSize(kind)];
      if 0 < PageSize(kind, raw) < MAX_PAGE then Some((kind, raw)) else None
  }

  lemma MappedLength(img: Bytes, sysPage: nat)
    requires sysPage >= 4096 && img != []
    ensures |Mapped(img, sysPage)| >= 4096
  {
    hide Padded;
    var n := |Mapped(img, sysPage)|;
    assert n > 0 && n % sysPage == 0;
  }

  /** `parse_image` at the start of the file. */
  function Parse(img: Bytes, sysPage: nat, find: Bytes -> int): Option<Boot>
    requires sysPage >= 4096
  {
    match ParseHeader(img, sysPage)
    case None => None
    case Some((kind, raw)) =>
      var page, space, sizes := PageSize(kind, raw), HeaderSpace(kind, raw), SizesOf(kind, raw);
      var data := Mapped(img, sysPage);
      if Offset(sizes, space, page, BLOCKS) > |data| then None
      else
        assert space + sizes[KERNEL] <= |data| by { FirstFits(sizes, space, page, |data|); }
        var boot := Boot(kind, raw, page, space, sizes, 0);
        Some(boot.(kernelSize := KernelPart(find, data[space..space + sizes[KERNEL]])))
  }

  lemma FirstFits(sizes: seq<nat>, space: nat, page: nat, limit: nat)
    requires page > 0 && |sizes| == BLOCKS && Offset(sizes, space, page, BLOCKS) <= limit
    ensures space + sizes[0] <= limit
  {
    OffsetGrows(sizes, space, page, 1, BLOCKS);
    assert Offset(sizes, space, page, 0) == space;
    assert Offset(sizes, space, page, 1) == AlignTo(space + sizes[0], page);
  }

  /** `parse_image`: block after block, each checked against the end of the mapping. */
  method ParseImage(img: Bytes, sysPage: nat, find: Bytes -> int) returns (boot: Option<Boot>)
    requires sysPage >= 4096
    ensures boot == Parse(img, sysPage, find)
  {
    hide ParseHeader, Mapped, KernelPart, HeaderSpace, PageSize, Size, Offset, SizesOf;
    var header := ParseHeader(img, sysPage);
    if header.None? {
      return None;
    }
    var kind, raw := header.value.0, header.value.1;
    var page, space := PageSize(kind, raw), HeaderSpace(kind, raw);
    var data := Mapped(img, sysPage);
    var sizes := SizesOf(kind, raw);
    var fits := GetBlocks(kind, raw, page, space, |data|);
    if !fits {
      return None;
    }
    FirstFits(sizes, space, page, |data|);
    var kernel := data[space..space + sizes[KERNEL]];
    var kernelSize := sizes[KERNEL];
    if 0 < find(kernel) <= |kernel| {
      kernelSize := find(kernel);
    }
    assert kernelSize == KernelPart(find, kernel) by { PartOf(find, kernel); }
    return Some(Boot(kind, raw, page, space, sizes, kernelSize));
  }

  /** The nine uses of `get_block`. */
  method GetBlocks(kind: Kind, raw: Bytes, page: nat, space: nat, limit: nat) returns (fits: bool)
    requires HeaderSize(kind) <= |raw| && page > 0
    ensures fits <==> Offset(SizesOf(kind, raw), space, page, BLOCKS) <= limit
  {
    hide HeaderSize, Size, AlignTo;
    ghost var sizes := SizesOf(kind, raw);
    var off := space;
    for i := 0 to BLOCKS
      invariant off == Offset(sizes, space, page, i)
      invariant i > 0 ==> off <= limit
    {
      OffsetGrows(sizes, space, page, i + 1, BLOCKS);
      off := AlignTo(off + Size(kind, raw, i), page);
      if off > limit {
        return false;
      }
    }
    return true;
  }

  lemma PartOf(find: Bytes -> int, block: Bytes)
    ensures KernelPart(find, block) == if 0 < find(block) <= |block| then find(block) else |block|
  {
  }

  // ---------------------------------------------------------------------------------------
  // Blocks
  // ---------------------------------------------------------------------------------------

  /** What a parsed image keeps; `data` is the mapped file. */
  ghost predicate WellParsed(boot: Boot, data: Bytes) {
    && 0 < boot.page < MAX_PAGE && |boot.sizes| == BLOCKS
    && |boot.raw| == HeaderSize(boot.kind) && boot.raw <= data
    && boot.page == PageSize(boot.kind, boot.raw) && boot.space == HeaderSpace(boot.kind, boot.raw)
    && boot.sizes == SizesOf(boot.kind, boot.raw)
    && Start(boot, BLOCKS) <= |data| && boot.kernelSize <= boot.sizes[KERNEL]
  }

  lemma ParseGives(img: Bytes, sysPage: nat, find: Bytes -> int)
    requires sysPage >= 4096 && Parse(img, sysPage, find).Some?
    ensures WellParsed(Parse(img, sysPage, find).value, Mapped(img, sysPage))
  {
    hide ParseHeader, Mapped, Offset, HeaderSpace, PageSize, Size;
    var (kind, raw) := ParseHeader(img, sysPage).value;
    FirstFits(SizesOf(kind, raw), HeaderSpace(kind, raw), PageSize(kind, raw), |Mapped(img, sysPage)|);
  }

  lemma BlockInside(boot: Boot, data: Bytes, i: Block)
    requires WellParsed(boot, data)
    ensures boot.space <= Start(boot, i) && Start(boot, i) + boot.sizes[i] <= |data|
  {
    hide Offset, HeaderSpace, PageSize, Size, SizesOf, HeaderSize;
    OffsetZero(boot.sizes, boot.space, boot.page);
    OffsetGrows(boot.sizes, boot.space, boot.page, 0, i);
    OffsetNext(boot.sizes, boot.space, boot.page, i);
    OffsetGrows(boot.sizes, boot.space, boot.page, i + 1, BLOCKS);
  }

  function BlockOf(boot: Boot, data: Bytes, i: Block): (b: Bytes)
    requires WellParsed(boot, data)
    ensures |b| == boot.sizes[i]
  {
    BlockInside(boot, data, i);
    data[Start(boot, i)..Start(boot, i) + boot.sizes[i]]
  }
}
