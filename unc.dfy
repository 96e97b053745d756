/**
 * The "uncompressed files" scan at the end of `cmd_extract` (zng2xtr.cpp):
 * walk the tail chunk by chunk, skipping an audio block at every batch
 * boundary, collect maximal runs of "active" chunks, and unpack the 496-byte
 * payloads of each run, concatenated, as a sub-archive named `UNC_<k>`.
 */
module Uncompressed {
  import opened Bytes
  import opened Text
  import opened Helpers
  import opened Interleave
  import opened Tarball

  /** A chunk position together with the batch counter (`pos`/`truncate`, or `tmpPos`/`tmpTrn`). */
  datatype Cursor = Cursor(pos: nat, trn: nat)

  /**
   * One step of the scan: the next chunk, except that the `batch`-th step of a
   * batch also skips the audio block and realigns to the chunk size, restarting
   * the counter.
   */
  function Advance(c: Cursor, batch: nat): (d: Cursor)
    ensures d.pos >= c.pos + ChunkSize
    ensures d.pos % ChunkSize == (c.pos + ChunkSize) % ChunkSize || d.pos % ChunkSize == 0
    ensures c.trn + 1 == batch ==> d.pos % ChunkSize == 0
    ensures c.trn + 1 == batch ==> d.trn == 0 && c.pos + ChunkSize + AudioSize <= d.pos < c.pos + 2 * ChunkSize + AudioSize
    ensures c.trn + 1 != batch ==> d == Cursor(c.pos + ChunkSize, c.trn + 1)
  {
    var p := c.pos + ChunkSize;
    var t := c.trn + 1;
    if t == batch then Cursor(Align(p + AudioSize), 0) else Cursor(p, t)
  }

  /**
   * Whether the chunk at `p` is active: its bytes 0 and 1 are both nonzero.
   * Byte 1 is read only when byte 0 is nonzero; reading either past the end of
   * the file is an error.
   */
  function Classify(buf: seq<byte>, p: nat): (r: Result<bool, TailError>)
    ensures r == Ok(true) <==> p + 1 < |buf| && buf[p] != 0 && buf[p + 1] != 0
    ensures r == Ok(false) <==> (p < |buf| && buf[p] == 0) || (p + 1 < |buf| && buf[p] != 0 && buf[p + 1] == 0)
    ensures r.Err? <==> p >= |buf| || (buf[p] != 0 && p + 1 >= |buf|)
  {
    if p >= |buf| then Err(CheckOverRead(p))
    else if buf[p] == 0 then Ok(false)
    else if p + 1 >= |buf| then Err(CheckOverRead(p + 1))
    else Ok(buf[p + 1] != 0)
  }

  /** Each cursor of `run` is the step after the previous one. */
  predicate Chain(run: seq<Cursor>, batch: nat)
  {
    forall k :: 0 < k < |run| ==> run[k] == Advance(run[k - 1], batch)
  }

  predicate InFile(buf: seq<byte>, run: seq<Cursor>)
  {
    forall k :: 0 <= k < |run| ==> run[k].pos + ChunkSize <= |buf|
  }

  /** Bytes [16, 512) of the chunk at `p`. */
  function ChunkPayload(buf: seq<byte>, p: nat): (d: seq<byte>)
    requires p + ChunkSize <= |buf|
    ensures |d| == DataSize
  {
    buf[p + ChunkHeaderSize..p + ChunkSize]
  }

  /** The payloads of the chunks of `run`, in order. */
  function RunData(buf: seq<byte>, run: seq<Cursor>): (d: seq<byte>)
    requires InFile(buf, run)
    ensures |d| == DataSize * |run|
  {
    if run == [] then [] else RunData(buf, run[..|run| - 1]) + ChunkPayload(buf, run[|run| - 1].pos)
  }

  /** Slot `i` of the run's data holds the payload of its i-th chunk. */
  lemma {:induction false} RunDataSlots(buf: seq<byte>, run: seq<Cursor>, i: nat)
    requires InFile(buf, run) && i < |run|
    ensures DataSize * i + DataSize <= |RunData(buf, run)|
    ensures RunData(buf, run)[DataSize * i..DataSize * i + DataSize] == ChunkPayload(buf, run[i].pos)
    decreases |run|
  {
    var front := run[..|run| - 1];
    var d := RunData(buf, run);
    assert d == RunData(buf, front) + ChunkPayload(buf, run[|run| - 1].pos);
    if i < |run| - 1 {
      RunDataSlots(buf, front, i);
      assert d[DataSize * i..DataSize * i + DataSize] == RunData(buf, front)[DataSize * i..DataSize * i + DataSize];
    } else {
      assert d[DataSize * i..] == ChunkPayload(buf, run[i].pos);
    }
  }

  /** One recovered resource: `UNC_<k>`, the chunks it was copied from, the bytes and what unpacking them gives. */
  datatype Resource = Resource(name: string, chunks: seq<Cursor>, data: seq<byte>, contents: Result<seq<Entry>, TarballError>)

  function MakeResource(buf: seq<byte>, run: seq<Cursor>, k: nat): Resource
    requires InFile(buf, run)
  {
    var data := RunData(buf, run);
    Resource(UncName(k), run, data, Unpack(data))
  }

  /**
   * The scan from cursor `c` (the chunk examined last), with the active run
   * collected so far in `open` and the resources flushed so far in `acc`. The
   * loop ends when `pos + 512` reaches the end of the file; a run still open
   * then is dropped.
   */
  function UncFrom(buf: seq<byte>, batch: nat, c: Cursor, open: seq<Cursor>, acc: seq<Resource>): Result<seq<Resource>, TailError>
    requires forall k :: 0 <= k < |open| ==> open[k].pos <= c.pos
    decreases |buf| - c.pos
  {
    if c.pos + ChunkSize >= |buf| then Ok(acc)
    else
      var d := Advance(c, batch);
      match Classify(buf, d.pos)
      case Err(e) => Err(e)
      case Ok(active) =>
        if active then UncFrom(buf, batch, d, open + [d], acc)
        else if open == [] then UncFrom(buf, batch, d, [], acc)
        else UncFrom(buf, batch, d, [], acc + [MakeResource(buf, open, |acc| + 1)])
  }

  /** The scan from `lastLzssPos + preSize + 1024`, with `uBatchCount = chnSize / 512`. */
  function UncSpec(buf: seq<byte>, start: nat, batch: nat): Result<seq<Resource>, TailError>
  {
    UncFrom(buf, batch, Cursor(start, 0), [], [])
  }

  /**
   * The copy loop of a flush: replays the cursor from the run's first chunk
   * (`tmpPos`, `tmpTrn`) and `memcpy`s 496 payload bytes per chunk into a fresh
   * buffer of `allocSize` bytes.
   */
  method CopyRun(buf: seq<byte>, batch: nat, tmpPos0: nat, tmpTrn0: nat, uCount: nat, ghost run: seq<Cursor>)
    returns (data: seq<byte>)
    requires |run| == uCount > 0 && run[0] == Cursor(tmpPos0, tmpTrn0)
    requires Chain(run, batch) && InFile(buf, run)
    ensures data == RunData(buf, run)
  {
    var uncompressed := new byte[DataSize * uCount];
    var tmpPos: nat := tmpPos0;
    var tmpTrn: nat := tmpTrn0;
    for i := 0 to uCount
      invariant i < uCount ==> Cursor(tmpPos, tmpTrn) == run[i]
      invariant uncompressed[..DataSize * i] == RunData(buf, run[..i])
    {
      ghost var before := uncompressed[..DataSize * i];
      forall k | 0 <= k < DataSize {
        uncompressed[DataSize * i + k] := buf[tmpPos + ChunkHeaderSize + k];
      }
      assert uncompressed[..DataSize * i] == before;
      assert uncompressed[DataSize * i..DataSize * (i + 1)] == ChunkPayload(buf, tmpPos);
      assert uncompressed[..DataSize * (i + 1)] == before + uncompressed[DataSize * i..DataSize * (i + 1)];
      assert run[..i + 1][..i] == run[..i];
      var next := Advance(Cursor(tmpPos, tmpTrn), batch);
      tmpPos := next.pos;
      tmpTrn := next.trn;
    }
    assert run[..uCount] == run;
    data := uncompressed[..];
  }

  /** The main loop of the scan; `first`, `tmpPos`/`tmpTrn`, `uCount` and `allocSize` describe the open run. */
  method ExtractUncompressed(buf: seq<byte>, start: nat, uBatchCount: nat) returns (r: Result<seq<Resource>, TailError>)
    ensures r == UncSpec(buf, start, uBatchCount)
  {
    var pos: nat := start;
    var truncate: nat := 0;
    var fileCount: nat := 0;
    var tmpPos: nat := 0;
    var tmpTrn: nat := 0;
    var uCount: nat := 0;
    var allocSize: nat := 0;
    var first := false;
    var resources: seq<Resource> := [];
    var open: seq<Cursor> := [];
    while pos + ChunkSize < |buf|
      invariant forall k :: 0 <= k < |open| ==> open[k].pos <= pos
      invariant UncFrom(buf, uBatchCount, Cursor(pos, truncate), open, resources) == UncSpec(buf, start, uBatchCount)
      invariant first <==> open != []
      invariant first ==> Cursor(tmpPos, tmpTrn) == open[0] && open[|open| - 1] == Cursor(pos, truncate)
      invariant Chain(open, uBatchCount)
      invariant uCount == |open| && allocSize == DataSize * uCount && fileCount == |resources|
      decreases |buf| - pos
    {
      ghost var c := Cursor(pos, truncate);
      pos := pos + ChunkSize;
      truncate := truncate + 1;
      if truncate == uBatchCount {
        pos := Align(pos + AudioSize);
        truncate := 0;
      }
      assert Cursor(pos, truncate) == Advance(c, uBatchCount);
      var check := Classify(buf, pos);
      if check.Err? {
        return Err(check.error);
      }
      if check.value {
        if !first {
          tmpPos := pos;
          tmpTrn := truncate;
          first := true;
        }
        allocSize := allocSize + DataSize;
        uCount := uCount + 1;
        open := open + [Cursor(pos, truncate)];
      } else if first {
        var data := CopyRun(buf, uBatchCount, tmpPos, tmpTrn, uCount, open);
        fileCount := fileCount + 1;
        var contents, _ := ExtractTarball(data);
        resources := resources + [Resource(UncName(fileCount), open, data, contents)];
        first := false;
        allocSize := 0;
        uCount := 0;
        open := [];
      }
    }
    r := Ok(resources);
  }

  // ---------------------------------------------------------------------------
  // Properties of the scan

  /** A flushed run: active chunks, each the step after the previous, in the file, followed by an inactive chunk. */
  predicate GoodRun(buf: seq<byte>, batch: nat, run: seq<Cursor>)
  {
    |run| > 0 && Chain(run, batch) && InFile(buf, run) &&
    (forall k :: 0 <= k < |run| ==> Classify(buf, run[k].pos) == Ok(true)) &&
    Classify(buf, Advance(run[|run| - 1], batch).pos) == Ok(false)
  }

  /** Resource number `k` (from 0) is `UNC_<k+1>`, made of a good run's payloads, unpacked. */
  predicate GoodResource(buf: seq<byte>, batch: nat, r: Resource, k: nat)
  {
    r.name == UncName(k + 1) && GoodRun(buf, batch, r.chunks) &&
    r.data == RunData(buf, r.chunks) && |r.data| == DataSize * |r.chunks| &&
    r.contents == Unpack(r.data)
  }

  function First(r: Resource): nat { if r.chunks == [] then 0 else r.chunks[0].pos }

  function Last(r: Resource): nat { if r.chunks == [] then 0 else r.chunks[|r.chunks| - 1].pos }

  /** Runs come in file order and do not overlap. */
  predicate InOrder(rs: seq<Resource>)
  {
    forall k, l :: 0 <= k < l < |rs| ==> Last(rs[k]) < First(rs[l])
  }

  lemma {:induction false} ChainRises(run: seq<Cursor>, batch: nat)
    requires |run| > 0 && Chain(run, batch)
    ensures run[0].pos <= run[|run| - 1].pos
    decreases |run|
  {
    if |run| > 1 {
      ChainRises(run[..|run| - 1], batch);
    }
  }

  /** The state the scan keeps between two chunks. */
  predicate ScanState(buf: seq<byte>, batch: nat, c: Cursor, open: seq<Cursor>, acc: seq<Resource>)
  {
    (forall k :: 0 <= k < |open| ==> open[k].pos <= c.pos) &&
    Chain(open, batch) &&
    (forall k :: 0 <= k < |open| ==> Classify(buf, open[k].pos) == Ok(true)) &&
    (open != [] ==> open[|open| - 1] == c) &&
    (forall k :: 0 <= k < |acc| ==> GoodResource(buf, batch, acc[k], k)) &&
    InOrder(acc) &&
    (forall k :: 0 <= k < |acc| ==> Last(acc[k]) <= c.pos) &&
    (open != [] ==> forall k :: 0 <= k < |acc| ==> Last(acc[k]) < open[0].pos)
  }

  /** An active chunk extends (or starts) the open run. */
  lemma ExtendKeepsState(buf: seq<byte>, batch: nat, c: Cursor, open: seq<Cursor>, acc: seq<Resource>)
    requires ScanState(buf, batch, c, open, acc)
    requires Classify(buf, Advance(c, batch).pos) == Ok(true)
    ensures ScanState(buf, batch, Advance(c, batch), open + [Advance(c, batch)], acc)
  {
    var d := Advance(c, batch);
    var open' := open + [d];
    assert forall k :: 0 <= k < |open| ==> open'[k] == open[k];
  }

  /** The open run, once an inactive chunk follows it, makes a good resource spanning `open[0]` to the cursor. */
  lemma FlushedResource(buf: seq<byte>, batch: nat, c: Cursor, open: seq<Cursor>, acc: seq<Resource>)
    requires ScanState(buf, batch, c, open, acc) && open != []
    requires Classify(buf, Advance(c, batch).pos) == Ok(false)
    ensures InFile(buf, open)
    ensures GoodResource(buf, batch, MakeResource(buf, open, |acc| + 1), |acc|)
    ensures First(MakeResource(buf, open, |acc| + 1)) == open[0].pos <= c.pos
    ensures Last(MakeResource(buf, open, |acc| + 1)) == c.pos
  {
    ChainRises(open, batch);
    assert GoodRun(buf, batch, open);
  }

  /** An inactive chunk after an open run flushes it as the next resource. */
  lemma FlushKeepsState(buf: seq<byte>, batch: nat, c: Cursor, open: seq<Cursor>, acc: seq<Resource>)
    requires ScanState(buf, batch, c, open, acc) && open != []
    requires Classify(buf, Advance(c, batch).pos) == Ok(false)
    ensures InFile(buf, open)
    ensures ScanState(buf, batch, Advance(c, batch), [], acc + [MakeResource(buf, open, |acc| + 1)])
  {
    FlushedResource(buf, batch, c, open, acc);
    var res := MakeResource(buf, open, |acc| + 1);
    AppendResource(buf, batch, acc, res);
    AppendInOrder(acc, res, Advance(c, batch).pos);
  }

  /** Appending a good resource keeps every flushed resource good. */
  lemma AppendResource(buf: seq<byte>, batch: nat, acc: seq<Resource>, res: Resource)
    requires forall k :: 0 <= k < |acc| ==> GoodResource(buf, batch, acc[k], k)
    requires GoodResource(buf, batch, res, |acc|)
    ensures forall k :: 0 <= k < |acc| + 1 ==> GoodResource(buf, batch, (acc + [res])[k], k)
  {
    AppendEach(acc, res, (r, k) => GoodResource(buf, batch, r, k));
  }

  /** A property of every element with its index survives appending an element that has it. */
  lemma AppendEach<T>(xs: seq<T>, x: T, p: (T, nat) -> bool)
    requires forall k :: 0 <= k < |xs| ==> p(xs[k], k)
    requires p(x, |xs|)
    ensures forall k :: 0 <= k < |xs| + 1 ==> p((xs + [x])[k], k)
  {
    var ys := xs + [x];
    forall k | 0 <= k < |ys|
      ensures p(ys[k], k)
    {
      if k < |xs| {
        assert ys[k] == xs[k];
      }
    }
  }

  /**
   * Appending a resource that lies after all earlier ones keeps the list in
   * file order, and keeps every resource at or before `p`.
   */
  lemma AppendInOrder(acc: seq<Resource>, res: Resource, p: nat)
    requires InOrder(acc)
    requires forall k :: 0 <= k < |acc| ==> Last(acc[k]) < First(res)
    requires Last(res) <= p && forall k :: 0 <= k < |acc| ==> Last(acc[k]) <= p
    ensures InOrder(acc + [res])
    ensures forall k :: 0 <= k < |acc| + 1 ==> Last((acc + [res])[k]) <= p
  {
    var acc' := acc + [res];
    assert forall k :: 0 <= k < |acc| ==> acc'[k] == acc[k];
    forall k, l | 0 <= k < l < |acc'|
      ensures Last(acc'[k]) < First(acc'[l])
    {
      if l < |acc| {
        assert acc'[l] == acc[l];
      }
    }
  }

  lemma {:induction false} UncFromRuns(buf: seq<byte>, batch: nat, c: Cursor, open: seq<Cursor>, acc: seq<Resource>, rs: seq<Resource>)
    requires ScanState(buf, batch, c, open, acc)
    requires UncFrom(buf, batch, c, open, acc) == Ok(rs)
    ensures forall k :: 0 <= k < |rs| ==> GoodResource(buf, batch, rs[k], k)
    ensures InOrder(rs)
    decreases |buf| - c.pos
  {
    if c.pos + ChunkSize < |buf| {
      var d := Advance(c, batch);
      var active := Classify(buf, d.pos).value;
      if active {
        ExtendKeepsState(buf, batch, c, open, acc);
        UncFromRuns(buf, batch, d, open + [d], acc, rs);
      } else if open == [] {
        UncFromRuns(buf, batch, d, [], acc, rs);
      } else {
        FlushKeepsState(buf, batch, c, open, acc);
        UncFromRuns(buf, batch, d, [], acc + [MakeResource(buf, open, |acc| + 1)], rs);
      }
    }
  }

  // ---------------------------------------------------------------------------
  // The scan's trajectory: the chunks the loop examines, by step number

  /** The cursor after `n` iterations of the scan loop from `start` (`pos`, `truncate`). */
  function Step(start: nat, batch: nat, n: nat): (c: Cursor)
    ensures c.pos >= start + ChunkSize * n
  {
    if n == 0 then Cursor(start, 0) else Advance(Step(start, batch, n - 1), batch)
  }

  /** Steps `a`, `a + 1`, …, `b - 1` of the trajectory. */
  function Steps(start: nat, batch: nat, a: nat, b: nat): (s: seq<Cursor>)
    requires a <= b
    ensures |s| == b - a
    decreases b - a
  {
    if a == b then [] else Steps(start, batch, a, b - 1) + [Step(start, batch, b - 1)]
  }

  lemma {:induction false} StepRises(start: nat, batch: nat, i: nat, j: nat)
    requires i <= j
    ensures Step(start, batch, i).pos + ChunkSize * (j - i) <= Step(start, batch, j).pos
    decreases j - i
  {
    if i < j {
      StepRises(start, batch, i, j - 1);
    }
  }

  predicate Active(buf: seq<byte>, start: nat, batch: nat, n: nat)
  {
    Classify(buf, Step(start, batch, n).pos) == Ok(true)
  }

  predicate Inactive(buf: seq<byte>, start: nat, batch: nat, n: nat)
  {
    Classify(buf, Step(start, batch, n).pos) == Ok(false)
  }

  /**
   * Steps `a..b` (both included) are a maximal run of active chunks: step
   * `b + 1` is inactive, and so is step `a - 1` unless `a` is the first chunk
   * the loop examines.
   */
  predicate MaximalRun(buf: seq<byte>, start: nat, batch: nat, a: nat, b: nat)
  {
    1 <= a <= b &&
    (a == 1 || Inactive(buf, start, batch, a - 1)) &&
    (forall j :: a <= j <= b ==> Active(buf, start, batch, j)) &&
    Inactive(buf, start, batch, b + 1)
  }

  /** Resource `r` was copied from the maximal run at steps `a..b`. */
  predicate RunOf(buf: seq<byte>, start: nat, batch: nat, a: nat, b: nat, r: Resource)
  {
    MaximalRun(buf, start, batch, a, b) && r.chunks == Steps(start, batch, a, b + 1)
  }

  /** Resource `r` was copied from some maximal run. */
  ghost predicate FromMaximalRun(buf: seq<byte>, start: nat, batch: nat, r: Resource)
  {
    exists a: nat, b: nat :: RunOf(buf, start, batch, a, b, r)
  }

  /** Some resource of `rs` was copied from steps `a..b`. */
  predicate Listed(start: nat, batch: nat, a: nat, b: nat, rs: seq<Resource>)
  {
    a <= b && exists k :: 0 <= k < |rs| && rs[k].chunks == Steps(start, batch, a, b + 1)
  }

  /**
   * What the scan knows after step `n`: the open run is steps `a..n`, started
   * after an inactive chunk; with no open run the chunk at step `n` was
   * inactive; every flushed resource is a maximal run; and every maximal run
   * that ended before step `n` has been flushed.
   */
  ghost predicate TrajState(buf: seq<byte>, start: nat, batch: nat, n: nat, a: nat, open: seq<Cursor>, acc: seq<Resource>)
  {
    (open == [] ==> n == 0 || Inactive(buf, start, batch, n)) &&
    (open != [] ==>
      1 <= a <= n && open == Steps(start, batch, a, n + 1) &&
      (a == 1 || Inactive(buf, start, batch, a - 1)) &&
      forall j :: a <= j <= n ==> Active(buf, start, batch, j)) &&
    (forall k :: 0 <= k < |acc| ==> FromMaximalRun(buf, start, batch, acc[k])) &&
    (forall a': nat, b': nat :: MaximalRun(buf, start, batch, a', b') && b' < n ==> Listed(start, batch, a', b', acc))
  }

  /** An active chunk at step `n + 1` extends the open run, or starts one there. */
  lemma TrajExtend(buf: seq<byte>, start: nat, batch: nat, n: nat, a: nat, open: seq<Cursor>, acc: seq<Resource>)
    requires TrajState(buf, start, batch, n, a, open, acc)
    requires Active(buf, start, batch, n + 1)
    ensures TrajState(buf, start, batch, n + 1, if open == [] then n + 1 else a,
      open + [Step(start, batch, n + 1)], acc)
  {
    var a' := if open == [] then n + 1 else a;
    assert Steps(start, batch, a', n + 2) == Steps(start, batch, a', n + 1) + [Step(start, batch, n + 1)];
    forall a'': nat, b'': nat | MaximalRun(buf, start, batch, a'', b'') && b'' < n + 1
      ensures Listed(start, batch, a'', b'', acc)
    {
      if b'' == n {
        assert false;
      }
    }
    var open' := open + [Step(start, batch, n + 1)];
    assert open' != [] && 1 <= a' <= n + 1;
    assert open' == Steps(start, batch, a', n + 2);
    assert a' == 1 || Inactive(buf, start, batch, a' - 1);
    assert forall j :: a' <= j <= n + 1 ==> Active(buf, start, batch, j);
  }

  /** An inactive chunk with no open run changes nothing but the step. */
  lemma TrajSkip(buf: seq<byte>, start: nat, batch: nat, n: nat, a: nat, acc: seq<Resource>)
    requires TrajState(buf, start, batch, n, a, [], acc)
    requires Inactive(buf, start, batch, n + 1)
    ensures TrajState(buf, start, batch, n + 1, a, [], acc)
  {
    forall a'': nat, b'': nat | MaximalRun(buf, start, batch, a'', b'') && b'' < n + 1
      ensures Listed(start, batch, a'', b'', acc)
    {
      if b'' == n {
        InactiveExcludesActive(buf, start, batch);
        assert false;
      }
    }
  }

  lemma InactiveExcludesActive(buf: seq<byte>, start: nat, batch: nat)
    ensures forall n: nat :: Inactive(buf, start, batch, n) ==> !Active(buf, start, batch, n)
  {
  }

  /** Two runs of active chunks that both end at step `n` and both start after an inactive chunk start at the same step. */
  lemma RunStartUnique(buf: seq<byte>, start: nat, batch: nat, n: nat, a: nat, a': nat)
    requires 1 <= a <= n && 1 <= a' <= n
    requires a == 1 || Inactive(buf, start, batch, a - 1)
    requires a' == 1 || Inactive(buf, start, batch, a' - 1)
    requires forall j :: a <= j <= n ==> Active(buf, start, batch, j)
    requires forall j :: a' <= j <= n ==> Active(buf, start, batch, j)
    ensures a == a'
  {
    InactiveExcludesActive(buf, start, batch);
  }

  /** The open run lies in the file once the chunk after it has been read. */
  lemma OpenInFile(buf: seq<byte>, start: nat, batch: nat, n: nat, open: seq<Cursor>)
    requires forall k :: 0 <= k < |open| ==> open[k].pos <= Step(start, batch, n).pos
    requires Inactive(buf, start, batch, n + 1)
    ensures InFile(buf, open)
  {
    assert Step(start, batch, n + 1) == Advance(Step(start, batch, n), batch);
  }

  /** An inactive chunk after the open run flushes it; it is the one maximal run ending at step `n`. */
  lemma TrajFlush(buf: seq<byte>, start: nat, batch: nat, n: nat, a: nat, open: seq<Cursor>, acc: seq<Resource>)
    requires TrajState(buf, start, batch, n, a, open, acc) && open != []
    requires InFile(buf, open)
    requires Inactive(buf, start, batch, n + 1)
    ensures TrajState(buf, start, batch, n + 1, a, [], acc + [MakeResource(buf, open, |acc| + 1)])
  {
    var res := MakeResource(buf, open, |acc| + 1);
    assert RunOf(buf, start, batch, a, n, res);
    AppendEach(acc, res, (r, k) => FromMaximalRun(buf, start, batch, r));
    FlushListed(buf, start, batch, n, a, acc, res);
  }

  /** After the flush at step `n + 1`, every maximal run that ended before it is listed. */
  lemma FlushListed(buf: seq<byte>, start: nat, batch: nat, n: nat, a: nat, acc: seq<Resource>, res: Resource)
    requires 1 <= a <= n && (a == 1 || Inactive(buf, start, batch, a - 1))
    requires forall j :: a <= j <= n ==> Active(buf, start, batch, j)
    requires res.chunks == Steps(start, batch, a, n + 1)
    requires forall a': nat, b': nat :: MaximalRun(buf, start, batch, a', b') && b' < n ==> Listed(start, batch, a', b', acc)
    ensures forall a': nat, b': nat :: MaximalRun(buf, start, batch, a', b') && b' < n + 1 ==> Listed(start, batch, a', b', acc + [res])
  {
    var acc' := acc + [res];
    forall a': nat, b': nat | MaximalRun(buf, start, batch, a', b') && b' < n + 1
      ensures Listed(start, batch, a', b', acc')
    {
      if b' < n {
        var k :| 0 <= k < |acc| && acc[k].chunks == Steps(start, batch, a', b' + 1);
        assert acc'[k] == acc[k];
      } else {
        RunStartUnique(buf, start, batch, n, a, a');
        assert acc'[|acc|] == res;
      }
    }
  }

  /** When the loop stops after step `n`, every maximal run ended before step `n`. */
  lemma ScanEndListed(buf: seq<byte>, start: nat, batch: nat, n: nat, acc: seq<Resource>)
    requires forall a': nat, b': nat :: MaximalRun(buf, start, batch, a', b') && b' < n ==> Listed(start, batch, a', b', acc)
    requires Step(start, batch, n).pos + ChunkSize >= |buf|
    ensures forall a': nat, b': nat :: MaximalRun(buf, start, batch, a', b') ==> Listed(start, batch, a', b', acc)
  {
    forall a': nat, b': nat | MaximalRun(buf, start, batch, a', b')
      ensures Listed(start, batch, a', b', acc)
    {
      if b' >= n {
        StepRises(start, batch, n, b' + 1);
        assert false;
      }
    }
  }

  /** The flush branch of the scan, ready for the next step. */
  lemma FlushStep(buf: seq<byte>, start: nat, batch: nat, n: nat, a: nat, open: seq<Cursor>, acc: seq<Resource>)
    requires forall k :: 0 <= k < |open| ==> open[k].pos <= Step(start, batch, n).pos
    requires TrajState(buf, start, batch, n, a, open, acc) && open != []
    requires Inactive(buf, start, batch, n + 1)
    ensures InFile(buf, open)
    ensures TrajState(buf, start, batch, n + 1, a, [], acc + [MakeResource(buf, open, |acc| + 1)])
  {
    OpenInFile(buf, start, batch, n, open);
    TrajFlush(buf, start, batch, n, a, open, acc);
  }

  lemma {:induction false} UncFromTrajectory(buf: seq<byte>, start: nat, batch: nat, n: nat, a: nat,
                                             open: seq<Cursor>, acc: seq<Resource>, rs: seq<Resource>)
    requires forall k :: 0 <= k < |open| ==> open[k].pos <= Step(start, batch, n).pos
    requires TrajState(buf, start, batch, n, a, open, acc)
    requires UncFrom(buf, batch, Step(start, batch, n), open, acc) == Ok(rs)
    ensures forall k :: 0 <= k < |rs| ==> FromMaximalRun(buf, start, batch, rs[k])
    ensures forall a': nat, b': nat :: MaximalRun(buf, start, batch, a', b') ==> Listed(start, batch, a', b', rs)
    decreases |buf| - Step(start, batch, n).pos
  {
    var c := Step(start, batch, n);
    if c.pos + ChunkSize < |buf| {
      var d := Advance(c, batch);
      assert d == Step(start, batch, n + 1);
      if Classify(buf, d.pos) == Ok(true) {
        TrajExtend(buf, start, batch, n, a, open, acc);
        UncFromTrajectory(buf, start, batch, n + 1, if open == [] then n + 1 else a, open + [d], acc, rs);
      } else if open == [] {
        TrajSkip(buf, start, batch, n, a, acc);
        UncFromTrajectory(buf, start, batch, n + 1, a, [], acc, rs);
      } else {
        FlushStep(buf, start, batch, n, a, open, acc);
        UncFromTrajectory(buf, start, batch, n + 1, a, [], acc + [MakeResource(buf, open, |acc| + 1)], rs);
      }
    } else {
      ScanEndListed(buf, start, batch, n, acc);
    }
  }

  /**
   * Every resource the scan recovers is `UNC_1`, `UNC_2`, … in discovery order;
   * resource k is the concatenated payloads of a run of active chunks stepped
   * through with the batch/audio skip; the runs lie in the file in increasing
   * order. Over the chunks the loop examines, each resource is a maximal run
   * (an inactive chunk, or none, before it, and an inactive chunk after it),
   * and every maximal run is one of the resources.
   */
  lemma UncRuns(buf: seq<byte>, start: nat, batch: nat, rs: seq<Resource>)
    requires UncSpec(buf, start, batch) == Ok(rs)
    ensures forall k :: 0 <= k < |rs| ==> GoodResource(buf, batch, rs[k], k)
    ensures InOrder(rs)
    ensures forall k :: 0 <= k < |rs| ==> FromMaximalRun(buf, start, batch, rs[k])
    ensures forall a: nat, b: nat :: MaximalRun(buf, start, batch, a, b) ==> Listed(start, batch, a, b, rs)
  {
    UncFromRuns(buf, batch, Cursor(start, 0), [], [], rs);
    UncFromTrajectory(buf, start, batch, 0, 0, [], [], rs);
  }

  /**
   * A file that ends with an audio block: when the last chunk of a batch sits
   * 1536 bytes before the end of a file whose length is a multiple of 512, the
   * batch-boundary step lands exactly on the end of the file, and the check
   * byte read there lies past it.
   */
  lemma TrailingCheckRead(buf: seq<byte>, batch: nat, c: Cursor, open: seq<Cursor>, acc: seq<Resource>)
    requires forall k :: 0 <= k < |open| ==> open[k].pos <= c.pos
    requires c.pos + ChunkSize + AudioSize == |buf| && |buf| % ChunkSize == 0 && c.trn + 1 == batch
    ensures Advance(c, batch).pos == |buf|
    ensures UncFrom(buf, batch, c, open, acc) == Err(CheckOverRead(|buf|))
  {
    AlignIsLeast(|buf|, |buf|);
  }
}
