/** Recognising file formats by their first bytes. */
module Format {
  import opened Common
  import opened LittleEndian

  datatype FileFormat =
    | UNKNOWN | CHROMEOS | AOSP | AOSP_VENDOR | DHTB | BLOB
    | GZIP | LZOP | XZ | LZMA | BZIP2 | LZ4 | LZ4_LEGACY | LZ4_LG
    | MTK | DTB | ZIMAGE

  function Ascii(s: string): Bytes
    requires forall i :: 0 <= i < |s| ==> s[i] as int < 128
  {
    seq(|s|, i requires 0 <= i < |s| => s[i] as int as byte)
  }

  predicate StartsWith(buf: Bytes, magic: Bytes) { magic <= buf }

  /** n is a power of two. */
  predicate IsPowerOfTwo(n: nat) {
    n == 1 || (n > 0 && n % 2 == 0 && IsPowerOfTwo(n / 2))
  }

  /** Properties byte, a power-of-two dictionary size, and an unknown length. */
  predicate GuessLzma(buf: Bytes) {
    && |buf| > 13
    && buf[0] == 0x5d
    && IsPowerOfTwo(FromLe(buf[1..5]))
    && buf[5..13] == [0xff, 0xff, 0xff, 0xff, 0xff, 0xff, 0xff, 0xff]
  }

  const CHROMEOS_MAGIC := Ascii("CHROMEOS")
  const BOOT_MAGIC := Ascii("ANDROID!")
  const VENDOR_BOOT_MAGIC := Ascii("VNDRBOOT")
  const TEGRABLOB_MAGIC := Ascii("-SIGNED-BY-SIGNBLOB-")

  function CheckFmt(buf: Bytes): FileFormat {
    if StartsWith(buf, CHROMEOS_MAGIC) then CHROMEOS
    else if StartsWith(buf, BOOT_MAGIC) then AOSP
    else if StartsWith(buf, VENDOR_BOOT_MAGIC) then AOSP_VENDOR
    else if StartsWith(buf, [0x1f, 0x8b]) || StartsWith(buf, [0x1f, 0x9e]) then GZIP
    else if StartsWith(buf, [0x89, 0x4c, 0x5a, 0x4f]) then LZOP
    else if StartsWith(buf, [0xfd, 0x37, 0x7a, 0x58, 0x5a]) then XZ
    else if GuessLzma(buf) then LZMA
    else if StartsWith(buf, [0x42, 0x5a, 0x68]) then BZIP2
    else if StartsWith(buf, [0x03, 0x21, 0x4c, 0x18]) || StartsWith(buf, [0x04, 0x22, 0x4d, 0x18]) then LZ4
    else if StartsWith(buf, [0x02, 0x21, 0x4c, 0x18]) then LZ4_LEGACY
    else if StartsWith(buf, [0x88, 0x16, 0x88, 0x58]) then MTK
    else if StartsWith(buf, [0xd0, 0x0d, 0xfe, 0xed]) then DTB
    else if StartsWith(buf, [0x44, 0x48, 0x54, 0x42, 0x01, 0x00, 0x00, 0x00]) then DHTB
    else if StartsWith(buf, TEGRABLOB_MAGIC) then BLOB
    else if |buf| >= 0x28 && buf[0x24..0x28] == [0x18, 0x28, 0x6f, 0x01] then ZIMAGE
    else UNKNOWN
  }

  /** A format found by its first bytes is decided by them: no earlier test can claim it. */
  lemma LegacyByMagic(buf: Bytes)
    requires |buf| >= 4 && buf[..4] == [0x02, 0x21, 0x4c, 0x18]
    ensures CheckFmt(buf) == LZ4_LEGACY
  {
    assert buf[0] == buf[..4][0] == 0x02;
    assert StartsWith(buf, [0x02, 0x21, 0x4c, 0x18]);
  }

  lemma AospIff(a: Bytes)
    ensures CheckFmt(a) == AOSP <==> StartsWith(a, BOOT_MAGIC)
  {
    hide GuessLzma;
    if StartsWith(a, BOOT_MAGIC) {
      assert a[0] == BOOT_MAGIC[0] != CHROMEOS_MAGIC[0];
    }
  }

  lemma VendorIff(a: Bytes)
    ensures CheckFmt(a) == AOSP_VENDOR <==> StartsWith(a, VENDOR_BOOT_MAGIC)
  {
    hide GuessLzma;
    if StartsWith(a, VENDOR_BOOT_MAGIC) {
      assert a[0] == VENDOR_BOOT_MAGIC[0] != CHROMEOS_MAGIC[0];
      assert a[0] != BOOT_MAGIC[0];
    }
  }

  lemma SameStart(a: Bytes, b: Bytes, magic: Bytes)
    requires |magic| == 8 && |a| >= 8 && |b| >= 8 && StartsWith(a, magic) && a[..8] == b[..8]
    ensures StartsWith(b, magic)
  {
    assert b[..8] == magic;
  }

  lemma BootMagicLength(a: Bytes)
    requires CheckFmt(a) in {AOSP, AOSP_VENDOR}
    ensures |a| >= 8
  {
    hide CheckFmt;
    AospIff(a);
    VendorIff(a);
  }

  /** The two boot image formats are decided by their first eight bytes. */
  lemma BootByMagic(a: Bytes, b: Bytes)
    requires CheckFmt(a) in {AOSP, AOSP_VENDOR} && |a| >= 8 && |b| >= 8 && a[..8] == b[..8]
    ensures CheckFmt(b) == CheckFmt(a)
  {
    hide CheckFmt, StartsWith, Ascii;
    AospIff(a);
    AospIff(b);
    VendorIff(a);
    VendorIff(b);
    if CheckFmt(a) == AOSP {
      EightLong();
      SameStart(a, b, BOOT_MAGIC);
    } else {
      EightLong();
      SameStart(a, b, VENDOR_BOOT_MAGIC);
    }
  }

  lemma EightLong()
    ensures |BOOT_MAGIC| == 8 && |VENDOR_BOOT_MAGIC| == 8
  {
  }
}
