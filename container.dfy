/**
 * The section walk at the start of `cmd_extract` (zng2xtr.cpp): read the
 * pointer table after the file header, stop at the first entry whose
 * lzssPointer is 0, decompress each section and unpack it as a sub-archive.
 *
 * The LZSS decoder (`lzss_decompress`, declared in lzss.h) is not part of this
 * model: it is a parameter of type `Decompressor`, of which the model only
 * knows that it yields exactly the requested number of bytes. Because the
 * caller zeroes the history window before every call, the decoder is a
 * function of its input alone.
 */
module Container {
  import opened Bytes
  import opened Xtr
  import opened Tarball

  /** `lzss_decompress(12, 4, 2, 2, history, data, compressed_size, out, uncompressed_size)`. */
  type Decompressor = f: (seq<byte>, nat) -> seq<byte> | forall data, n :: |f(data, n)| == n
    witness (data: seq<byte>, n: nat) => seq(n, _ => 0 as byte)

  /** One visited section: its type name, the decompressed bytes (`_rawsection`) and what unpacking them gives. */
  datatype Section = Section(typeName: string, raw: seq<byte>, contents: Result<seq<Entry>, TarballError>)

  datatype Walk = Walk(sections: seq<Section>, lastLzssPos: nat)

  datatype WalkError =
    | PointerOverRead(count: nat)      // pointer-table entry `count` lies past the end of the file
    | UnknownSectionIndex(count: nat)  // a ninth live entry: typenames[8] does not exist
    | BlobOverRead(count: nat)         // the blob header or token data of section `count` leaves the file

  /** `ptr->lzssPointer + ptr->size`, computed in 32-bit unsigned arithmetic. */
  function EndOfBlob(lzssPointer: nat, size: nat): (r: nat)
    requires lzssPointer < TwoTo32 && size < TwoTo32
    ensures r < TwoTo32
    ensures r == lzssPointer + size || r == lzssPointer + size - TwoTo32
  {
    (lzssPointer + size) % TwoTo32
  }

  /**
   * A sum that wraps lands below `lzssPointer`, at a position the walk has
   * already read, so the tail is then measured from inside the file.
   */
  lemma WrappedEndBeforePointer(lzssPointer: nat, size: nat)
    requires lzssPointer < TwoTo32 && size < TwoTo32 && lzssPointer + size >= TwoTo32
    ensures EndOfBlob(lzssPointer, size) == lzssPointer + size - TwoTo32 < lzssPointer
  {
  }

  /**
   * The loop from iteration `count` on, with the sections visited so far in
   * `acc` and the last computed `lastLzssPos` in `last`.
   */
  function WalkFrom(buf: seq<byte>, typeNames: seq<string>, dec: Decompressor,
                    count: nat, acc: seq<Section>, last: nat): Result<Walk, WalkError>
    requires |typeNames| == TypeCount && count <= TypeCount
    decreases TypeCount - count
  {
    match LzssPointer(buf, count)
    case None => Err(PointerOverRead(count))
    case Some(p) =>
      if p == 0 then Ok(Walk(acc, last))
      else if count == TypeCount then Err(UnknownSectionIndex(count))
      else match PtrSize(buf, count)
        case None => Err(PointerOverRead(count))
        case Some(size) =>
          match GetLzssHeader(buf, p)
          case None => Err(BlobOverRead(count))
          case Some(h) =>
            match LzssData(buf, p, h)
            case None => Err(BlobOverRead(count))
            case Some(data) =>
              var raw := dec(data, h.uncompressedSize);
              WalkFrom(buf, typeNames, dec, count + 1,
                       acc + [Section(typeNames[count], raw, Unpack(raw))], EndOfBlob(p, size))
  }

  function WalkSpec(buf: seq<byte>, typeNames: seq<string>, dec: Decompressor): Result<Walk, WalkError>
    requires |typeNames| == TypeCount
  {
    WalkFrom(buf, typeNames, dec, 0, [], 0)
  }

  /** The LZSS section loop of cmd_extract. */
  method WalkSections(buf: seq<byte>, typeNames: seq<string>, dec: Decompressor) returns (r: Result<Walk, WalkError>)
    requires |typeNames| == TypeCount
    ensures r == WalkSpec(buf, typeNames, dec)
  {
    var lastLzssPos := 0;
    var count := 0;
    var sections: seq<Section> := [];
    while true
      invariant count <= TypeCount
      invariant WalkFrom(buf, typeNames, dec, count, sections, lastLzssPos) == WalkSpec(buf, typeNames, dec)
      decreases TypeCount - count
    {
      var ptr := LzssPointer(buf, count);
      if ptr.None? {
        return Err(PointerOverRead(count));
      }
      if ptr.value == 0 {
        break;
      }
      if count == TypeCount {
        return Err(UnknownSectionIndex(count));
      }
      var restypename := typeNames[count];
      var size := PtrSize(buf, count);
      if size.None? {
        return Err(PointerOverRead(count));
      }
      lastLzssPos := EndOfBlob(ptr.value, size.value);
      var lzss := GetLzssHeader(buf, ptr.value);
      if lzss.None? {
        return Err(BlobOverRead(count));
      }
      var compressed := LzssData(buf, ptr.value, lzss.value);
      if compressed.None? {
        return Err(BlobOverRead(count));
      }
      var uncompressed := dec(compressed.value, lzss.value.uncompressedSize);
      var contents, _ := ExtractTarball(uncompressed);
      sections := sections + [Section(restypename, uncompressed, contents)];
      count := count + 1;
    }
    r := Ok(Walk(sections, lastLzssPos));
  }

  // ---------------------------------------------------------------------------
  // Properties of the walk

  /** The number of leading live pointer entries, i.e. the index of the terminator. */
  predicate StopsAt(buf: seq<byte>, n: nat)
  {
    LzssPointer(buf, n) == Some(0) &&
    forall k :: 0 <= k < n ==> LzssPointer(buf, k).Some? && LzssPointer(buf, k).value != 0
  }

  /** `lastLzssPos` after `n` sections: lzssPointer + size of entry n - 1, or 0 when none was visited. */
  predicate LastPosAfter(buf: seq<byte>, n: nat, last: nat)
  {
    if n == 0 then last == 0
    else LzssPointer(buf, n - 1).Some? && PtrSize(buf, n - 1).Some? &&
         LzssPointer(buf, n - 1).value < TwoTo32 && PtrSize(buf, n - 1).value < TwoTo32 &&
         last == EndOfBlob(LzssPointer(buf, n - 1).value, PtrSize(buf, n - 1).value)
  }

  /** Section `k` as the loop builds it from pointer entry `k`. */
  predicate SectionFrom(buf: seq<byte>, typeNames: seq<string>, dec: Decompressor, k: nat, s: Section)
    requires |typeNames| == TypeCount
  {
    k < TypeCount && LzssPointer(buf, k).Some? &&
    var p := LzssPointer(buf, k).value;
    GetLzssHeader(buf, p).Some? &&
    var h := GetLzssHeader(buf, p).value;
    LzssData(buf, p, h).Some? &&
    s.typeName == typeNames[k] &&
    s.raw == dec(LzssData(buf, p, h).value, h.uncompressedSize) &&
    |s.raw| == h.uncompressedSize &&
    s.contents == Unpack(s.raw)
  }

  lemma NextSection(buf: seq<byte>, typeNames: seq<string>, dec: Decompressor, count: nat,
                    p: nat, h: LzssHeader, data: seq<byte>)
    requires |typeNames| == TypeCount && count < TypeCount
    requires LzssPointer(buf, count) == Some(p) && GetLzssHeader(buf, p) == Some(h) && LzssData(buf, p, h) == Some(data)
    ensures SectionFrom(buf, typeNames, dec, count, Section(typeNames[count], dec(data, h.uncompressedSize), Unpack(dec(data, h.uncompressedSize))))
  {
  }

  /** What the loop knows after `count` sections. */
  predicate Visited(buf: seq<byte>, typeNames: seq<string>, dec: Decompressor, count: nat, acc: seq<Section>, last: nat)
    requires |typeNames| == TypeCount
  {
    count <= TypeCount && |acc| == count &&
    (forall k :: 0 <= k < count ==> LzssPointer(buf, k).Some? && LzssPointer(buf, k).value != 0) &&
    (forall k :: 0 <= k < count ==> SectionFrom(buf, typeNames, dec, k, acc[k])) &&
    LastPosAfter(buf, count, last)
  }

  /** One more live pointer entry, read without failure, extends what the loop knows. */
  lemma VisitedStep(buf: seq<byte>, typeNames: seq<string>, dec: Decompressor, count: nat, acc: seq<Section>, last: nat,
                    p: nat, size: nat, h: LzssHeader, data: seq<byte>)
    requires |typeNames| == TypeCount && count < TypeCount
    requires Visited(buf, typeNames, dec, count, acc, last)
    requires LzssPointer(buf, count) == Some(p) && p != 0 && PtrSize(buf, count) == Some(size)
    requires GetLzssHeader(buf, p) == Some(h) && LzssData(buf, p, h) == Some(data)
    ensures var raw := dec(data, h.uncompressedSize);
      Visited(buf, typeNames, dec, count + 1, acc + [Section(typeNames[count], raw, Unpack(raw))], EndOfBlob(p, size))
  {
    var raw := dec(data, h.uncompressedSize);
    var acc' := acc + [Section(typeNames[count], raw, Unpack(raw))];
    forall k | 0 <= k < count + 1
      ensures SectionFrom(buf, typeNames, dec, k, acc'[k])
    {
      if k == count {
        NextSection(buf, typeNames, dec, count, p, h, data);
      } else {
        assert acc'[k] == acc[k];
      }
    }
  }

  lemma {:induction false} WalkFromVisits(buf: seq<byte>, typeNames: seq<string>, dec: Decompressor,
                                          count: nat, acc: seq<Section>, last: nat, w: Walk)
    requires |typeNames| == TypeCount
    requires Visited(buf, typeNames, dec, count, acc, last)
    requires WalkFrom(buf, typeNames, dec, count, acc, last) == Ok(w)
    ensures |w.sections| <= TypeCount
    ensures Visited(buf, typeNames, dec, |w.sections|, w.sections, w.lastLzssPos)
    ensures LzssPointer(buf, |w.sections|) == Some(0)
    decreases TypeCount - count
  {
    var p := LzssPointer(buf, count).value;
    if p != 0 {
      var size := PtrSize(buf, count).value;
      var h := GetLzssHeader(buf, p).value;
      var data := LzssData(buf, p, h).value;
      var raw := dec(data, h.uncompressedSize);
      VisitedStep(buf, typeNames, dec, count, acc, last, p, size, h, data);
      WalkFromVisits(buf, typeNames, dec, count + 1, acc + [Section(typeNames[count], raw, Unpack(raw))], EndOfBlob(p, size), w);
    }
  }

  /**
   * A successful walk visits pointer entries 0, 1, 2, … in order and stops at the
   * first whose lzssPointer is 0; section k carries typenames[k], the decoder's
   * output for blob k (uncompressed_size bytes) and that output unpacked; and
   * lastLzssPos is lzssPointer + size (mod 2^32) of the last section visited, 0 if none.
   */
  lemma WalkVisits(buf: seq<byte>, typeNames: seq<string>, dec: Decompressor, w: Walk)
    requires |typeNames| == TypeCount
    requires WalkSpec(buf, typeNames, dec) == Ok(w)
    ensures StopsAt(buf, |w.sections|) && |w.sections| <= TypeCount
    ensures forall k :: 0 <= k < |w.sections| ==> SectionFrom(buf, typeNames, dec, k, w.sections[k])
    ensures LastPosAfter(buf, |w.sections|, w.lastLzssPos)
  {
    WalkFromVisits(buf, typeNames, dec, 0, [], 0, w);
  }
}
