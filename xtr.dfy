/**
 * Record layouts of an XTR file and of a decompressed section, the accessors
 * that locate them, and the name resolver that reads a resource's embedded
 * file name (xtr.h). All of it is pure offset arithmetic over a byte buffer;
 * every field read that would leave the buffer yields `None` or `OverRead`.
 */
module Xtr {
  import opened Bytes
  import opened Text

  // ---------------------------------------------------------------------------
  // Sizes of the C structs (no padding: every field is naturally aligned).

  /** header_t: three u32 fields and two u16 fields. */
  const HeaderSize: nat := 16
  /** lzss_ptr_t: sectionEnd, lzssPointer, size, zero. */
  const PtrEntrySize: nat := 16
  /** lzss_header_t: uncompressed_size, compressed_size, then the token data. */
  const LzssHeaderSize: nat := 8
  /** comp_header_t: eight u32 fields. */
  const CompHeaderSize: nat := 32
  /** comp_ptr_t: offset, zero, dummy, dummy2. */
  const CompPtrSize: nat := 16
  /** INT_RESOURCE_TYPE_COUNT: the length of the section type-name table. */
  const TypeCount: nat := 8

  /** A u32 field `field` bytes into the record at `base`, if the buffer holds it. */
  function Field32(buf: seq<byte>, base: nat, field: nat): (r: Option<nat>)
    ensures r.Some? <==> base + field + 4 <= |buf|
    ensures r.Some? ==> r.value < TwoTo32
  {
    if base + field + 4 <= |buf| then Some(U32(buf, base + field)) else None
  }

  // ---------------------------------------------------------------------------
  // File header and section pointer table

  datatype Header = Header(align: nat, dummy: nat, dummy2: nat, unkSectionSize: nat, ptrSectionQuty: nat)

  /**
   * getheader: the file header sits at byte 0. The section walk never reads
   * its fields; it records only that the header occupies the first
   * `sizeof(header_t)` = 16 bytes, which is where the pointer table starts.
   */
  function GetHeader(buf: seq<byte>): (r: Option<Header>)
    ensures r.Some? <==> |buf| >= HeaderSize
  {
    if |buf| < HeaderSize then None
    else Some(Header(U32(buf, 0), U32(buf, 4), U32(buf, 8), U16(buf, 12), U16(buf, 14)))
  }

  /** getptrheader: pointer-table entry `i` follows the header at a 16-byte stride. */
  function PtrEntryStart(i: nat): nat
  {
    HeaderSize + PtrEntrySize * i
  }

  /** `getptrheader(hdr, i)->lzssPointer`: where section i's compressed blob starts (0 ends the table). */
  function LzssPointer(buf: seq<byte>, i: nat): Option<nat>
  {
    Field32(buf, PtrEntryStart(i), 4)
  }

  /** `getptrheader(hdr, i)->size`. */
  function PtrSize(buf: seq<byte>, i: nat): Option<nat>
  {
    Field32(buf, PtrEntryStart(i), 8)
  }

  datatype PtrEntry = PtrEntry(sectionEnd: nat, lzssPointer: nat, size: nat, zero: nat)
  {
    predicate Valid()
    {
      sectionEnd < TwoTo32 && lzssPointer < TwoTo32 && size < TwoTo32 && zero < TwoTo32
    }
  }

  /** The 16 bytes of a pointer-table entry as the archive stores it. */
  function EncodePtrEntry(e: PtrEntry): (s: seq<byte>)
    requires e.Valid()
    ensures |s| == PtrEntrySize
  {
    U32Bytes(e.sectionEnd) + U32Bytes(e.lzssPointer) + U32Bytes(e.size) + U32Bytes(e.zero)
  }

  /** An entry stored at slot `i` of the table reads back field by field. */
  lemma PtrEntryReadBack(buf: seq<byte>, i: nat, e: PtrEntry)
    requires e.Valid()
    requires PtrEntryStart(i) + PtrEntrySize <= |buf|
    requires buf[PtrEntryStart(i)..PtrEntryStart(i) + PtrEntrySize] == EncodePtrEntry(e)
    ensures LzssPointer(buf, i) == Some(e.lzssPointer)
    ensures PtrSize(buf, i) == Some(e.size)
  {
    var b := PtrEntryStart(i);
    var enc := EncodePtrEntry(e);
    var w1, w2 := U32Bytes(e.lzssPointer), U32Bytes(e.size);
    assert buf[b + 4..b + 8] == w1 by {
      forall k | 0 <= k < 4 ensures buf[b + 4 + k] == w1[k] {
        assert buf[b + 4 + k] == enc[4 + k];
      }
    }
    assert buf[b + 8..b + 12] == w2 by {
      forall k | 0 <= k < 4 ensures buf[b + 8 + k] == w2[k] {
        assert buf[b + 8 + k] == enc[8 + k];
      }
    }
    U32ReadBack(buf, b + 4, e.lzssPointer);
    U32ReadBack(buf, b + 8, e.size);
  }

  // ---------------------------------------------------------------------------
  // Compressed blob header

  datatype LzssHeader = LzssHeader(uncompressedSize: nat, compressedSize: nat)

  /** getlzssheader: the blob header at `lzssPointer`. */
  function GetLzssHeader(buf: seq<byte>, lzssPointer: nat): (r: Option<LzssHeader>)
    ensures r.Some? <==> lzssPointer + LzssHeaderSize <= |buf|
  {
    if lzssPointer + LzssHeaderSize <= |buf|
    then Some(LzssHeader(U32(buf, lzssPointer), U32(buf, lzssPointer + 4)))
    else None
  }

  /** `lzss->data` with `compressed_size` bytes: the token stream after the 8-byte header. */
  function LzssData(buf: seq<byte>, lzssPointer: nat, h: LzssHeader): (r: Option<seq<byte>>)
    ensures r.Some? <==> lzssPointer + LzssHeaderSize + h.compressedSize <= |buf|
    ensures r.Some? ==> |r.value| == h.compressedSize
  {
    var start := lzssPointer + LzssHeaderSize;
    if start + h.compressedSize <= |buf| then Some(buf[start..start + h.compressedSize]) else None
  }

  /** A blob written as size pair plus tokens is read back as that size pair and those tokens. */
  lemma LzssBlobReadBack(buf: seq<byte>, p: nat, usize: nat, tokens: seq<byte>)
    requires usize < TwoTo32 && |tokens| < TwoTo32
    requires p + LzssHeaderSize + |tokens| <= |buf|
    requires buf[p..p + LzssHeaderSize + |tokens|] == U32Bytes(usize) + U32Bytes(|tokens|) + tokens
    ensures GetLzssHeader(buf, p) == Some(LzssHeader(usize, |tokens|))
    ensures LzssData(buf, p, LzssHeader(usize, |tokens|)) == Some(tokens)
  {
    var blob := U32Bytes(usize) + U32Bytes(|tokens|) + tokens;
    var w := U32Bytes(|tokens|);
    assert blob[4..8] == w by {
      forall k | 0 <= k < 4 ensures blob[4 + k] == w[k] { }
    }
    var n := LzssHeaderSize + |tokens|;
    assert buf[p..p + 4] == buf[p..p + n][0..4] == blob[0..4] == U32Bytes(usize);
    var whole := buf[p..p + n];
    assert buf[p + 4..p + 8] == whole[4..8] by {
      forall k | 4 <= k < 8 ensures whole[k] == buf[p + k] { }
    }
    assert buf[p + 8..p + n] == buf[p..p + n][8..] == blob[8..] == tokens;
    U32ReadBack(buf, p, usize);
    U32ReadBack(buf, p + 4, |tokens|);
  }

  // ---------------------------------------------------------------------------
  // Sub-archive (decompressed section) header and file table

  datatype CompHeader = CompHeader(
    dummy: nat, dummy2: nat, dummy3: nat,
    infoOff: nat,   // where the file table starts
    infoSize: nat,  // its size in bytes
    dataOff: nat, dataSize: nat, fileCount: nat)

  /** getcompheader: the sub-archive header at byte 0 of a decompressed section. */
  function GetCompHeader(sec: seq<byte>): (r: Option<CompHeader>)
    ensures r.Some? <==> |sec| >= CompHeaderSize
  {
    if |sec| < CompHeaderSize then None
    else Some(CompHeader(U32(sec, 0), U32(sec, 4), U32(sec, 8), U32(sec, 12),
                         U32(sec, 16), U32(sec, 20), U32(sec, 24), U32(sec, 28)))
  }

  /** The number of entries in the file table: `infoSize / 16`. */
  function EntryCount(h: CompHeader): nat
  {
    h.infoSize / CompPtrSize
  }

  /** `getcompptr(sec, infoOff, i)->offset`: where file entry `i`'s data starts (0 marks a skip). */
  function EntryOffset(sec: seq<byte>, infoOff: nat, i: nat): Option<nat>
  {
    Field32(sec, infoOff + CompPtrSize * i, 0)
  }

  /** A sub-archive header whose table fields are stored at bytes 12 and 16 reads back with them. */
  lemma CompHeaderReadBack(sec: seq<byte>, infoOff: nat, infoSize: nat)
    requires infoOff < TwoTo32 && infoSize < TwoTo32
    requires |sec| >= CompHeaderSize
    requires sec[12..16] == U32Bytes(infoOff) && sec[16..20] == U32Bytes(infoSize)
    ensures GetCompHeader(sec).Some?
    ensures GetCompHeader(sec).value.infoOff == infoOff
    ensures GetCompHeader(sec).value.infoSize == infoSize
  {
    U32ReadBack(sec, 12, infoOff);
    U32ReadBack(sec, 16, infoSize);
  }

  /** A file entry stored at slot `i` of the table reads back its offset. */
  lemma EntryOffsetReadBack(sec: seq<byte>, infoOff: nat, i: nat, offset: nat)
    requires offset < TwoTo32
    requires infoOff + CompPtrSize * i + 4 <= |sec|
    requires sec[infoOff + CompPtrSize * i..infoOff + CompPtrSize * i + 4] == U32Bytes(offset)
    ensures EntryOffset(sec, infoOff, i) == Some(offset)
  {
    U32ReadBack(sec, infoOff + CompPtrSize * i, offset);
  }

  // ---------------------------------------------------------------------------
  // Name resolver (getfilenames)

  const SpaMagic: nat := 0x59238771
  const SpcMagic: nat := 0x09463AD8
  const SpmMagic: nat := 0x18DF540A

  /** Where a recognised header keeps its name, and the extension appended to it. */
  datatype NameLayout = NameLayout(nameOffset: nat, extension: string)

  /** The magic-number switch of getfilenames, as a table with an explicit "unrecognised" row. */
  function LayoutOf(magic: nat): (r: Option<NameLayout>)
    ensures r.Some? <==> magic in {SpaMagic, SpcMagic, SpmMagic}
  {
    if magic == SpaMagic then Some(NameLayout(0x18, ".spa"))
    else if magic == SpcMagic then Some(NameLayout(0x18, ".spc"))
    else if magic == SpmMagic then Some(NameLayout(0x10, ""))
    else None
  }

  datatype Resolution =
    | Unrecognized       // getfilenames returns nullptr
    | Resolved(name: string)
    | OverRead           // the magic or the name would be read past the end of the buffer

  /**
   * getfilenames applied to `sec + at`: the resource's embedded name, if its
   * magic is one of the three known headers.
   */
  function GetFileName(sec: seq<byte>, at: nat): (r: Resolution)
    ensures r.Unrecognized? <==> at + 4 <= |sec| && LayoutOf(U32(sec, at)).None?
    ensures r.Resolved? ==>
      at + 4 <= |sec| && LayoutOf(U32(sec, at)).Some? &&
      var lay := LayoutOf(U32(sec, at)).value;
      CString(sec, at + lay.nameOffset).Some? &&
      r.name == Latin1(CString(sec, at + lay.nameOffset).value) + lay.extension
    ensures r.OverRead? <==> (at + 4 > |sec| ||
      (LayoutOf(U32(sec, at)).Some? && CString(sec, at + LayoutOf(U32(sec, at)).value.nameOffset).None?))
  {
    if at + 4 > |sec| then OverRead
    else match LayoutOf(U32(sec, at))
      case None => Unrecognized
      case Some(lay) =>
        match CString(sec, at + lay.nameOffset)
        case None => OverRead
        case Some(orgName) => Resolved(Latin1(orgName) + lay.extension)
  }

  /**
   * A resource that starts with a known magic and stores a NUL-free name at the
   * layout's offset resolves to that name plus the layout's extension; its length
   * is strlen(name) + strlen(extension) and it holds no NUL.
   */
  lemma GetFileNameOf(sec: seq<byte>, at: nat, magic: nat, name: seq<byte>)
    requires magic in {SpaMagic, SpcMagic, SpmMagic}
    requires at + 4 <= |sec| && sec[at..at + 4] == U32Bytes(magic)
    requires var off := at + LayoutOf(magic).value.nameOffset;
      off + |name| < |sec| && sec[off..off + |name|] == name && sec[off + |name|] == 0
    requires forall k :: 0 <= k < |name| ==> name[k] != 0
    ensures GetFileName(sec, at) == Resolved(Latin1(name) + LayoutOf(magic).value.extension)
    ensures |GetFileName(sec, at).name| == |name| + |LayoutOf(magic).value.extension|
    ensures forall k :: 0 <= k < |GetFileName(sec, at).name| ==> GetFileName(sec, at).name[k] != '\0'
  {
    U32ReadBack(sec, at, magic);
    CStringOf(sec, at + LayoutOf(magic).value.nameOffset, name);
    var r := Latin1(name) + LayoutOf(magic).value.extension;
    forall k | 0 <= k < |r| ensures r[k] != '\0' {
      if k < |name| {
        assert r[k] as int == name[k] as int;
      }
    }
  }

  /** A resource whose first four bytes are not one of the three magics has no name. */
  lemma GetFileNameUnknown(sec: seq<byte>, at: nat, magic: nat)
    requires magic < TwoTo32 && magic !in {SpaMagic, SpcMagic, SpmMagic}
    requires at + 4 <= |sec| && sec[at..at + 4] == U32Bytes(magic)
    ensures GetFileName(sec, at) == Unrecognized
  {
    U32ReadBack(sec, at, magic);
  }
}
