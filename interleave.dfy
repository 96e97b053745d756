/**
 * The interleaved tail that follows the last LZSS blob (zng2xtr.cpp, the part
 * of `cmd_extract` after the section walk). The tail is read in 512-byte
 * chunks: a run of all-zero chunk prefixes (`preSize`), the first 1024-byte
 * audio block, a second run of zero prefixes (`chnSize`, the gap between two
 * audio blocks), and then audio blocks every `1024 + chnSize` bytes.
 *
 * The source reads these bytes without bounds checks; every read that would
 * leave the file is an explicit `TailError` here.
 */
module Interleave {
  import opened Bytes
  import opened Helpers

  /** `chunkSize - 16`: the payload bytes of one chunk of an uncompressed resource. */
  const DataSize: nat := 496
  /** Bytes of chunk header skipped before the payload. */
  const ChunkHeaderSize: nat := 16
  /** `audioSize`: one audio block. */
  const AudioSize: nat := 1024
  /** The prefix length compared against zero by the `memcmp` scans. */
  const ZeroProbe: nat := 8

  datatype TailError =
    | ZeroScanOverRead(pos: nat)  // the 8-byte probe at `pos` leaves the file
    | AudioOverRead(pos: nat)     // the audio block at `pos` leaves the file
    | CheckOverRead(pos: nat)     // a check byte of the chunk scan lies at or past the end

  // ---------------------------------------------------------------------------
  // preSize and chnSize

  /**
   * The number of consecutive chunks, starting at `at` and 512 bytes apart, whose
   * first 8 bytes are all zero; the scan stops at the first chunk that is not.
   */
  function ZeroRun(buf: seq<byte>, at: nat): (r: Result<nat, TailError>)
    ensures r.Err? ==> r.error.ZeroScanOverRead? && r.error.pos + ZeroProbe > |buf|
    decreases |buf| - at
  {
    if at + ZeroProbe > |buf| then Err(ZeroScanOverRead(at))
    else if ZeroPrefix8(buf, at) then
      match ZeroRun(buf, at + ChunkSize)
      case Ok(n) => Ok(n + 1)
      case Err(e) => Err(e)
    else Ok(0)
  }

  /** Chunks 0..n-1 from `at` have zero probes, and chunk n is in the file and has not. */
  predicate ZeroChunks(buf: seq<byte>, at: nat, n: nat)
  {
    (forall k :: 0 <= k < n ==> at + ChunkSize * k + ZeroProbe <= |buf| && ZeroPrefix8(buf, at + ChunkSize * k)) &&
    at + ChunkSize * n + ZeroProbe <= |buf| && !ZeroPrefix8(buf, at + ChunkSize * n)
  }

  /** The scan counts exactly the leading zero-probe chunks, in both directions. */
  lemma {:induction false} ZeroRunCounts(buf: seq<byte>, at: nat, n: nat)
    ensures ZeroRun(buf, at) == Ok(n) <==> ZeroChunks(buf, at, n)
    decreases n
  {
    if at + ZeroProbe <= |buf| && ZeroPrefix8(buf, at) {
      if n > 0 {
        var next := at + ChunkSize;
        ZeroRunCounts(buf, next, n - 1);
        assert next + ChunkSize * (n - 1) == at + ChunkSize * n;
        if ZeroChunks(buf, at, n) {
          forall k | 0 <= k < n - 1
            ensures next + ChunkSize * k + ZeroProbe <= |buf| && ZeroPrefix8(buf, next + ChunkSize * k)
          {
            var k' := k + 1;
            assert next + ChunkSize * k == at + ChunkSize * k';
            assert at + ChunkSize * k' + ZeroProbe <= |buf| && ZeroPrefix8(buf, at + ChunkSize * k');
          }
        }
        if ZeroChunks(buf, next, n - 1) {
          forall k | 0 <= k < n
            ensures at + ChunkSize * k + ZeroProbe <= |buf| && ZeroPrefix8(buf, at + ChunkSize * k)
          {
            if k > 0 {
              var k' := k - 1;
              assert at + ChunkSize * k == next + ChunkSize * k';
              assert next + ChunkSize * k' + ZeroProbe <= |buf| && ZeroPrefix8(buf, next + ChunkSize * k');
            }
          }
        }
      } else {
        assert !ZeroChunks(buf, at, 0);
      }
    } else if n > 0 {
      assert !ZeroChunks(buf, at, n) by {
        assert at + ChunkSize * 0 == at;
      }
    }
  }

  datatype Layout = Layout(preSize: nat, chnSize: nat)

  /** `preSize` counted from `lastLzssPos`, `chnSize` from `lastLzssPos + preSize + 1024`. */
  function LayoutSpec(buf: seq<byte>, lastLzssPos: nat): Result<Layout, TailError>
  {
    match ZeroRun(buf, lastLzssPos)
    case Err(e) => Err(e)
    case Ok(pre) =>
      match ZeroRun(buf, lastLzssPos + ChunkSize * pre + AudioSize)
      case Err(e) => Err(e)
      case Ok(gap) => Ok(Layout(ChunkSize * pre, ChunkSize * gap))
  }

  /** Adds `k` to a successful count. */
  function Plus(k: nat, r: Result<nat, TailError>): Result<nat, TailError>
  {
    match r
    case Ok(n) => Ok(n + k)
    case Err(e) => Err(e)
  }

  /** 512 times a successful count. */
  function Chunks(r: Result<nat, TailError>): Result<nat, TailError>
  {
    match r
    case Ok(n) => Ok(ChunkSize * n)
    case Err(e) => Err(e)
  }

  /** The first `memcmp` loop: `preSize`, the bytes of zero-probe chunks from `lastLzssPos`. */
  method MeasurePreSize(buf: seq<byte>, lastLzssPos: nat) returns (r: Result<nat, TailError>)
    ensures r == Chunks(ZeroRun(buf, lastLzssPos))
  {
    var pos := lastLzssPos;
    ghost var skipped := 0;
    while true
      invariant pos == lastLzssPos + ChunkSize * skipped
      invariant ZeroRun(buf, lastLzssPos) == Plus(skipped, ZeroRun(buf, pos))
      decreases |buf| - pos
    {
      if pos + ZeroProbe > |buf| {
        return Err(ZeroScanOverRead(pos));
      }
      if !ZeroPrefix8(buf, pos) {
        break;
      }
      pos := pos + ChunkSize;
      skipped := skipped + 1;
    }
    r := Ok(pos - lastLzssPos);
  }

  /** The second `memcmp` loop: `chnSize`, the bytes of zero-probe chunks from `pos`. */
  method MeasureChnSize(buf: seq<byte>, pos0: nat) returns (r: Result<nat, TailError>)
    ensures r == Chunks(ZeroRun(buf, pos0))
  {
    var pos := pos0;
    var chnSize := 0;
    ghost var skipped := 0;
    while true
      invariant pos == pos0 + ChunkSize * skipped && chnSize == ChunkSize * skipped
      invariant ZeroRun(buf, pos0) == Plus(skipped, ZeroRun(buf, pos))
      decreases |buf| - pos
    {
      if pos + ZeroProbe > |buf| {
        return Err(ZeroScanOverRead(pos));
      }
      if !ZeroPrefix8(buf, pos) {
        break;
      }
      pos := pos + ChunkSize;
      chnSize := chnSize + ChunkSize;
      skipped := skipped + 1;
    }
    r := Ok(chnSize);
  }

  /** The two scans in sequence, the second starting one audio block past the first. */
  method MeasureLayout(buf: seq<byte>, lastLzssPos: nat) returns (r: Result<Layout, TailError>)
    ensures r == LayoutSpec(buf, lastLzssPos)
  {
    var preSize := MeasurePreSize(buf, lastLzssPos);
    if preSize.Err? {
      return Err(preSize.error);
    }
    var chnSize := MeasureChnSize(buf, lastLzssPos + preSize.value + AudioSize);
    if chnSize.Err? {
      return Err(chnSize.error);
    }
    r := Ok(Layout(preSize.value, chnSize.value));
  }

  /**
   * Both sizes are multiples of 512, and each is 512 times the number of
   * leading zero-probe chunks counted from its own start.
   */
  lemma LayoutMeasures(buf: seq<byte>, lastLzssPos: nat, l: Layout)
    requires LayoutSpec(buf, lastLzssPos) == Ok(l)
    ensures l.preSize % ChunkSize == 0 && l.chnSize % ChunkSize == 0
    ensures ZeroChunks(buf, lastLzssPos, l.preSize / ChunkSize)
    ensures ZeroChunks(buf, lastLzssPos + l.preSize + AudioSize, l.chnSize / ChunkSize)
  {
    var pre := ZeroRun(buf, lastLzssPos).value;
    ZeroRunCounts(buf, lastLzssPos, pre);
    var gap := ZeroRun(buf, lastLzssPos + ChunkSize * pre + AudioSize).value;
    ZeroRunCounts(buf, lastLzssPos + ChunkSize * pre + AudioSize, gap);
  }

  // ---------------------------------------------------------------------------
  // The audio stream

  /** Adds `out` in front of a successful result. */
  function Prepend(out: seq<byte>, r: Result<seq<byte>, TailError>): Result<seq<byte>, TailError>
  {
    match r
    case Ok(v) => Ok(out + v)
    case Err(e) => Err(e)
  }

  /** The audio blocks from `pos` on, one every `stride` bytes while the start is inside the file. */
  function AudioFrom(buf: seq<byte>, pos: nat, stride: nat): Result<seq<byte>, TailError>
    requires stride >= AudioSize
    decreases |buf| - pos
  {
    if pos >= |buf| then Ok([])
    else if pos + AudioSize > |buf| then Err(AudioOverRead(pos))
    else Prepend(buf[pos..pos + AudioSize], AudioFrom(buf, pos + stride, stride))
  }

  /** How many block starts `pos`, `pos + stride`, … lie below `len`. */
  function BlockCount(len: nat, pos: nat, stride: nat): nat
    requires stride > 0
    decreases len - pos
  {
    if pos >= len then 0 else 1 + BlockCount(len, pos + stride, stride)
  }

  /** The audio loop: one `fwrite` of 1024 bytes per block, `binSize` counting them. */
  method ExtractAudio(buf: seq<byte>, start: nat, chnSize: nat) returns (r: Result<seq<byte>, TailError>, binSize: nat)
    ensures r == AudioFrom(buf, start, AudioSize + chnSize)
    ensures r.Ok? ==> binSize == |r.value|
  {
    var stride := AudioSize + chnSize;
    var pos := start;
    var out: seq<byte> := [];
    binSize := 0;
    assert Prepend(out, AudioFrom(buf, pos, stride)) == AudioFrom(buf, start, stride) by {
      assert forall v: seq<byte> :: [] + v == v;
    }
    while pos < |buf|
      invariant AudioFrom(buf, start, stride) == Prepend(out, AudioFrom(buf, pos, stride))
      invariant binSize == |out|
      decreases |buf| - pos
    {
      if pos + AudioSize > |buf| {
        return Err(AudioOverRead(pos)), binSize;
      }
      ghost var rest := AudioFrom(buf, pos + stride, stride);
      assert rest.Ok? ==> (out + buf[pos..pos + AudioSize]) + rest.value == out + (buf[pos..pos + AudioSize] + rest.value);
      out := out + buf[pos..pos + AudioSize];
      pos := pos + stride;
      binSize := binSize + AudioSize;
    }
    assert out + [] == out;
    r := Ok(out);
  }

  /** Block `j` of the audio output `a` is the 1024 bytes of the file at `start + j * stride`. */
  predicate BlockAt(buf: seq<byte>, start: nat, stride: nat, a: seq<byte>, j: nat)
  {
    start + stride * j + AudioSize <= |buf| && AudioSize * j + AudioSize <= |a| &&
    a[AudioSize * j..AudioSize * j + AudioSize] == buf[start + stride * j..start + stride * j + AudioSize]
  }

  /** The audio output `a` is `BlockCount` blocks, block `j` taken from `start + j * stride`. */
  predicate AudioOf(buf: seq<byte>, start: nat, stride: nat, a: seq<byte>)
    requires stride > 0
  {
    |a| == AudioSize * BlockCount(|buf|, start, stride) &&
    forall j :: 0 <= j < BlockCount(|buf|, start, stride) ==> BlockAt(buf, start, stride, a, j)
  }

  /**
   * The audio output is `BlockCount` blocks of 1024 bytes; block j is the file's
   * bytes at `start + j * stride`, every such start lies inside the file, and the
   * next start would not.
   */
  lemma {:induction false} AudioBlocks(buf: seq<byte>, start: nat, stride: nat, a: seq<byte>)
    requires stride >= AudioSize
    requires AudioFrom(buf, start, stride) == Ok(a)
    ensures |a| == AudioSize * BlockCount(|buf|, start, stride)
    ensures start + stride * BlockCount(|buf|, start, stride) >= |buf|
    ensures forall j :: 0 <= j < BlockCount(|buf|, start, stride) ==> BlockAt(buf, start, stride, a, j)
    decreases |buf| - start
  {
    if start < |buf| {
      var rest := AudioFrom(buf, start + stride, stride).value;
      AudioBlocks(buf, start + stride, stride, rest);
      var n := BlockCount(|buf|, start + stride, stride);
      var block := buf[start..start + AudioSize];
      assert a == block + rest;
      assert start + stride * (n + 1) == start + stride + stride * n;
      forall j | 0 <= j < n + 1
        ensures BlockAt(buf, start, stride, a, j)
      {
        if j > 0 {
          assert BlockAt(buf, start + stride, stride, rest, j - 1);
          NextStride(stride, j);
          LaterBlock(block, rest, j);
        }
      }
    }
  }

  lemma NextStride(stride: nat, j: nat)
    requires j > 0
    ensures stride * j == stride + stride * (j - 1)
  {
  }

  /** Block j of `block + rest`, past the first block, is block j - 1 of `rest`. */
  lemma LaterBlock(block: seq<byte>, rest: seq<byte>, j: nat)
    requires |block| == AudioSize && j > 0 && AudioSize * j + AudioSize <= |block| + |rest|
    ensures (block + rest)[AudioSize * j..AudioSize * j + AudioSize] == rest[AudioSize * (j - 1)..AudioSize * (j - 1) + AudioSize]
  {
    var a := block + rest;
    var lo := AudioSize * (j - 1);
    assert AudioSize * j == AudioSize + lo;
    assert a[AudioSize + lo..AudioSize + lo + AudioSize] == rest[lo..lo + AudioSize];
  }
}
