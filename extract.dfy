/**
 * `cmd_extract` (zng2xtr.cpp) as a whole: the LZSS section walk, then the
 * tail measured from `lastLzssPos` (layout, audio stream, uncompressed
 * resources). The file's bytes are `buf`; everything the source writes to disk
 * is returned as values instead.
 */
module Extract {
  import opened Bytes
  import opened Xtr
  import opened Container
  import opened Helpers
  import opened Interleave
  import opened Uncompressed

  datatype ExtractError =
    | SectionFailure(walk: WalkError)
    | TailFailure(tail: TailError, done: Walk)  // the sections written before the tail failed

  datatype Extraction = Extraction(walk: Walk, layout: Layout, audio: seq<byte>, resources: seq<Resource>)

  datatype Tail = Tail(layout: Layout, audio: seq<byte>, resources: seq<Resource>)

  /** Everything after the section walk, measured from `lastLzssPos`. */
  function TailSpec(buf: seq<byte>, last: nat): Result<Tail, TailError>
  {
    match LayoutSpec(buf, last)
    case Err(e) => Err(e)
    case Ok(l) =>
      match AudioFrom(buf, last + l.preSize, AudioSize + l.chnSize)
      case Err(e) => Err(e)
      case Ok(audio) =>
        match UncSpec(buf, last + l.preSize + AudioSize, l.chnSize / ChunkSize)
        case Err(e) => Err(e)
        case Ok(rs) => Ok(Tail(l, audio, rs))
  }

  /**
   * The stages in source order; the first failing stage stops the extraction.
   * A failure in the tail keeps the sections the walk has already produced.
   */
  function ExtractSpec(buf: seq<byte>, typeNames: seq<string>, dec: Decompressor): Result<Extraction, ExtractError>
    requires |typeNames| == TypeCount
  {
    match WalkSpec(buf, typeNames, dec)
    case Err(e) => Err(SectionFailure(e))
    case Ok(w) =>
      match TailSpec(buf, w.lastLzssPos)
      case Err(e) => Err(TailFailure(e, w))
      case Ok(t) => Ok(Extraction(w, t.layout, t.audio, t.resources))
  }

  /** The tail of `cmd_extract`: layout, audio loop and uncompressed-resource scan. */
  method ExtractTail(buf: seq<byte>, lastLzssPos: nat) returns (r: Result<Tail, TailError>)
    ensures r == TailSpec(buf, lastLzssPos)
  {
    var layout := MeasureLayout(buf, lastLzssPos);
    if layout.Err? {
      return Err(layout.error);
    }
    var preSize := layout.value.preSize;
    var chnSize := layout.value.chnSize;
    var audio, _ := ExtractAudio(buf, lastLzssPos + preSize, chnSize);
    if audio.Err? {
      return Err(audio.error);
    }
    var uBatchCount := chnSize / ChunkSize;
    var resources := ExtractUncompressed(buf, lastLzssPos + preSize + AudioSize, uBatchCount);
    if resources.Err? {
      return Err(resources.error);
    }
    r := Ok(Tail(layout.value, audio.value, resources.value));
  }

  method CmdExtract(buf: seq<byte>, typeNames: seq<string>, dec: Decompressor) returns (r: Result<Extraction, ExtractError>)
    requires |typeNames| == TypeCount
    ensures r == ExtractSpec(buf, typeNames, dec)
  {
    var walk := WalkSections(buf, typeNames, dec);
    if walk.Err? {
      return Err(SectionFailure(walk.error));
    }
    var tail := ExtractTail(buf, walk.value.lastLzssPos);
    if tail.Err? {
      return Err(TailFailure(tail.error, walk.value));
    }
    r := Ok(Extraction(walk.value, tail.value.layout, tail.value.audio, tail.value.resources));
  }

  /**
   * The tail, read end to end: preSize and chnSize are 512 times the zero-probe
   * chunks counted from lastLzssPos and from lastLzssPos + preSize + 1024; the
   * audio is the 1024-byte blocks every 1024 + chnSize bytes from lastLzssPos +
   * preSize; and the resources are UNC_1, UNC_2, … taken from runs of active
   * chunks in file order, with batches of chnSize / 512 chunks.
   */
  lemma TailParts(buf: seq<byte>, last: nat, t: Tail)
    requires TailSpec(buf, last) == Ok(t)
    ensures t.layout.preSize % ChunkSize == 0 && t.layout.chnSize % ChunkSize == 0
    ensures ZeroChunks(buf, last, t.layout.preSize / ChunkSize)
    ensures ZeroChunks(buf, last + t.layout.preSize + AudioSize, t.layout.chnSize / ChunkSize)
    ensures AudioOf(buf, last + t.layout.preSize, AudioSize + t.layout.chnSize, t.audio)
    ensures forall k :: 0 <= k < |t.resources| ==>
      GoodResource(buf, t.layout.chnSize / ChunkSize, t.resources[k], k)
    ensures InOrder(t.resources)
  {
    LayoutMeasures(buf, last, t.layout);
    AudioBlocks(buf, last + t.layout.preSize, AudioSize + t.layout.chnSize, t.audio);
    UncRuns(buf, last + t.layout.preSize + AudioSize, t.layout.chnSize / ChunkSize, t.resources);
  }

  /**
   * A successful extraction: the sections are the pointer entries before the
   * first zero lzssPointer, and the tail is measured from the lastLzssPos of the
   * walk.
   */
  lemma ExtractionParts(buf: seq<byte>, typeNames: seq<string>, dec: Decompressor, x: Extraction)
    requires |typeNames| == TypeCount
    requires ExtractSpec(buf, typeNames, dec) == Ok(x)
    ensures StopsAt(buf, |x.walk.sections|)
    ensures forall k :: 0 <= k < |x.walk.sections| ==> SectionFrom(buf, typeNames, dec, k, x.walk.sections[k])
    ensures LastPosAfter(buf, |x.walk.sections|, x.walk.lastLzssPos)
    ensures TailSpec(buf, x.walk.lastLzssPos) == Ok(Tail(x.layout, x.audio, x.resources))
  {
    WalkVisits(buf, typeNames, dec, x.walk);
  }

  /**
   * A tail that fails after a successful walk still yields every section of
   * the walk, as the source has written them before it reaches the tail.
   */
  lemma TailFailureParts(buf: seq<byte>, typeNames: seq<string>, dec: Decompressor, e: TailError, w: Walk)
    requires |typeNames| == TypeCount
    requires ExtractSpec(buf, typeNames, dec) == Err(TailFailure(e, w))
    ensures StopsAt(buf, |w.sections|)
    ensures forall k :: 0 <= k < |w.sections| ==> SectionFrom(buf, typeNames, dec, k, w.sections[k])
    ensures LastPosAfter(buf, |w.sections|, w.lastLzssPos)
    ensures TailSpec(buf, w.lastLzssPos) == Err(e)
  {
    WalkVisits(buf, typeNames, dec, w);
  }
}
