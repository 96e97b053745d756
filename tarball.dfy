/**
 * The sub-archive unpacker, `extractTarball` (zng2xtr.cpp): walks the file
 * table of one decompressed section and turns each entry into a skip marker
 * or a named byte range, writing one line per entry to the order file.
 *
 * The specification is the function `Unpack`; the method `ExtractTarball`
 * runs the source's loop, with its inner do-while, and is proved to compute it.
 */
module Tarball {
  import opened Bytes
  import opened Text
  import opened Xtr

  /** What one table entry becomes: a `skip` line, or a file with a name and its bytes. */
  datatype Entry = Skip | File(name: string, data: seq<byte>)

  datatype TarballError =
    | HeaderTruncated         // the section is shorter than the 32-byte sub-archive header
    | TableOverRead(i: nat)   // reading entry i, or scanning on from it, leaves the section
    | NameOverRead(i: nat)    // the name resolver would read past the section for entry i
    | DataOverRead(i: nat)    // entry i's byte range is negative or ends past the section

  /**
   * The do-while of extractTarball: the first entry at index `j` or later whose
   * offset is nonzero. `None` when the scan would read past the section first.
   * The scan does not stop at the end of the table.
   */
  function NextLive(sec: seq<byte>, infoOff: nat, j: nat): (r: Option<nat>)
    decreases |sec| - (infoOff + CompPtrSize * j)
    ensures r.Some? ==> j <= r.value
    ensures r.Some? ==> EntryOffset(sec, infoOff, r.value).Some? && EntryOffset(sec, infoOff, r.value).value != 0
    ensures r.Some? ==> forall k :: j <= k < r.value ==> EntryOffset(sec, infoOff, k) == Some(0)
    ensures r.None? ==> exists k :: j <= k && EntryOffset(sec, infoOff, k).None? &&
                          forall m :: j <= m < k ==> EntryOffset(sec, infoOff, m) == Some(0)
  {
    match EntryOffset(sec, infoOff, j)
    case None => None
    case Some(off) => if off != 0 then Some(j) else NextLive(sec, infoOff, j + 1)
  }

  /** The file name written for entry `i` whose data starts at `off`. */
  function EntryName(sec: seq<byte>, i: nat, off: nat): (r: Option<string>)
    ensures r.None? <==> GetFileName(sec, off).OverRead?
  {
    match GetFileName(sec, off)
    case OverRead => None
    case Unrecognized => Some(PaddedIndex(i))
    case Resolved(name) => Some(name)
  }

  /** One iteration of the extraction loop: entry `i` of a table with `count` entries. */
  function EntryAt(sec: seq<byte>, infoOff: nat, count: nat, i: nat): Result<Entry, TarballError>
  {
    match EntryOffset(sec, infoOff, i)
    case None => Err(TableOverRead(i))
    case Some(off) =>
      if off == 0 then Ok(Skip)
      else match NextLive(sec, infoOff, i + 1)
        case None => Err(TableOverRead(i))
        case Some(j) =>
          var end := if i == count - 1 then |sec| else EntryOffset(sec, infoOff, j).value;
          match EntryName(sec, i, off)
          case None => Err(NameOverRead(i))
          case Some(name) =>
            if off <= end <= |sec| then Ok(File(name, sec[off..end])) else Err(DataOverRead(i))
  }

  /** The first `n` entries of the table, or the first failure among them. */
  function EntriesUpTo(sec: seq<byte>, infoOff: nat, count: nat, n: nat): (r: Result<seq<Entry>, TarballError>)
    ensures r.Ok? ==> |r.value| == n
  {
    if n == 0 then Ok([])
    else match EntriesUpTo(sec, infoOff, count, n - 1)
      case Err(e) => Err(e)
      case Ok(es) =>
        match EntryAt(sec, infoOff, count, n - 1)
        case Err(e) => Err(e)
        case Ok(entry) => Ok(es + [entry])
  }

  /** The first failing entry decides the outcome: later entries are never reached. */
  lemma {:induction false} FirstErrorStops(sec: seq<byte>, infoOff: nat, count: nat, i: nat, n: nat)
    requires i < n
    requires EntriesUpTo(sec, infoOff, count, i).Ok? && EntryAt(sec, infoOff, count, i).Err?
    ensures EntriesUpTo(sec, infoOff, count, n) == Err(EntryAt(sec, infoOff, count, i).error)
    decreases n
  {
    if n > i + 1 {
      FirstErrorStops(sec, infoOff, count, i, n - 1);
    }
  }

  /** extractTarball as a function of the decompressed section. */
  function Unpack(sec: seq<byte>): Result<seq<Entry>, TarballError>
  {
    match GetCompHeader(sec)
    case None => Err(HeaderTruncated)
    case Some(h) => EntriesUpTo(sec, h.infoOff, EntryCount(h), EntryCount(h))
  }

  /** The line the order file gets for an entry. */
  function OrderLine(e: Entry): string
  {
    match e
    case Skip => "skip"
    case File(name, _) => name
  }

  function OrderFile(es: seq<Entry>): (lines: seq<string>)
    ensures |lines| == |es|
    ensures forall k :: 0 <= k < |es| ==> lines[k] == OrderLine(es[k])
  {
    seq(|es|, k requires 0 <= k < |es| => OrderLine(es[k]))
  }

  /**
   * One pass of the extraction loop for entry `i`: the offset read, the
   * do-while over zeroed offsets, the size rule and the name lookup.
   */
  method ExtractEntry(sec: seq<byte>, infoOff: nat, fileCount: nat, i: nat) returns (r: Result<Entry, TarballError>)
    ensures r == EntryAt(sec, infoOff, fileCount, i)
  {
    var fileHeader := EntryOffset(sec, infoOff, i);
    if fileHeader.None? {
      return Err(TableOverRead(i));
    }
    var off := fileHeader.value;
    if off == 0 {
      return Ok(Skip);
    }
    var isLastFile := i == fileCount - 1;
    // the do-while: skip past zeroed offsets
    var j := i + 1;
    var nextFileHeader := EntryOffset(sec, infoOff, j);
    while nextFileHeader == Some(0)
      invariant i < j
      invariant NextLive(sec, infoOff, i + 1) == NextLive(sec, infoOff, j)
      invariant nextFileHeader == EntryOffset(sec, infoOff, j)
      decreases |sec| - (infoOff + CompPtrSize * j)
    {
      j := j + 1;
      nextFileHeader := EntryOffset(sec, infoOff, j);
    }
    if nextFileHeader.None? {
      return Err(TableOverRead(i));
    }
    var end := if isLastFile then |sec| else nextFileHeader.value;
    var name := EntryName(sec, i, off);
    if name.None? {
      return Err(NameOverRead(i));
    }
    if !(off <= end <= |sec|) {
      return Err(DataOverRead(i));
    }
    r := Ok(File(name.value, sec[off..end]));
  }

  /**
   * extractTarball: returns the entries (the files it writes, in table order)
   * and the lines of `_order.txt`.
   */
  method ExtractTarball(sec: seq<byte>) returns (r: Result<seq<Entry>, TarballError>, order: seq<string>)
    ensures r == Unpack(sec)
    ensures r.Ok? ==> order == OrderFile(r.value)
  {
    order := [];
    var hdr := GetCompHeader(sec);
    if hdr.None? {
      return Err(HeaderTruncated), order;
    }
    var h := hdr.value;
    var fileCount := EntryCount(h);
    var entries: seq<Entry> := [];
    var i := 0;
    while i < fileCount
      invariant 0 <= i <= fileCount
      invariant EntriesUpTo(sec, h.infoOff, fileCount, i) == Ok(entries)
      invariant order == OrderFile(entries)
    {
      var entry := ExtractEntry(sec, h.infoOff, fileCount, i);
      if entry.Err? {
        FirstErrorStops(sec, h.infoOff, fileCount, i, fileCount);
        return Err(entry.error), order;
      }
      entries := entries + [entry.value];
      order := order + [OrderLine(entry.value)];
      i := i + 1;
    }
    r := Ok(entries);
  }

  // ---------------------------------------------------------------------------
  // Properties of the unpacker

  lemma {:induction false} EntriesUpToAt(sec: seq<byte>, infoOff: nat, count: nat, n: nat, es: seq<Entry>)
    requires EntriesUpTo(sec, infoOff, count, n) == Ok(es)
    ensures |es| == n
    ensures forall i :: 0 <= i < n ==> EntryAt(sec, infoOff, count, i) == Ok(es[i])
    decreases n
  {
    if n > 0 {
      var prev := EntriesUpTo(sec, infoOff, count, n - 1);
      assert prev.Ok? && es == prev.value + [es[n - 1]];
      EntriesUpToAt(sec, infoOff, count, n - 1, prev.value);
      forall i | 0 <= i < n
        ensures EntryAt(sec, infoOff, count, i) == Ok(es[i])
      {
        if i < n - 1 {
          assert es[i] == prev.value[i];
        }
      }
    }
  }

  /** Where the data of live entry `i` ends: the section end for the last index, else the next live offset. */
  function EntryEnd(sec: seq<byte>, infoOff: nat, count: nat, i: nat): nat
    requires NextLive(sec, infoOff, i + 1).Some?
  {
    if i == count - 1 then |sec|
    else EntryOffset(sec, infoOff, NextLive(sec, infoOff, i + 1).value).value
  }

  /** The table facts that entry `e` was extracted from: its offset, skip rule and byte range. */
  predicate Describes(sec: seq<byte>, infoOff: nat, count: nat, i: nat, e: Entry)
  {
    EntryOffset(sec, infoOff, i).Some? &&
    (e.Skip? <==> EntryOffset(sec, infoOff, i).value == 0) &&
    (e.File? ==>
      NextLive(sec, infoOff, i + 1).Some? &&
      EntryOffset(sec, infoOff, i).value <= EntryEnd(sec, infoOff, count, i) <= |sec| &&
      e.data == sec[EntryOffset(sec, infoOff, i).value..EntryEnd(sec, infoOff, count, i)])
  }

  lemma EntryAtOk(sec: seq<byte>, infoOff: nat, count: nat, i: nat, e: Entry)
    requires EntryAt(sec, infoOff, count, i) == Ok(e)
    ensures Describes(sec, infoOff, count, i, e)
  {
  }

  /**
   * A successful unpack examines exactly infoSize / 16 entries, in table order:
   * entry i is a skip exactly when its offset is 0, and a live entry's name is
   * the resolved name, or i zero-padded to five digits when no header is recognised.
   */
  lemma UnpackEntries(sec: seq<byte>, es: seq<Entry>)
    requires Unpack(sec) == Ok(es)
    ensures GetCompHeader(sec).Some?
    ensures |es| == GetCompHeader(sec).value.infoSize / 16
    ensures forall i :: 0 <= i < |es| ==>
      var off := EntryOffset(sec, GetCompHeader(sec).value.infoOff, i);
      off.Some? && (es[i].Skip? <==> off.value == 0) &&
      (es[i].File? ==>
        (GetFileName(sec, off.value).Resolved? ==> es[i].name == GetFileName(sec, off.value).name) &&
        (GetFileName(sec, off.value).Unrecognized? ==> es[i].name == PaddedIndex(i)))
  {
    var h := GetCompHeader(sec).value;
    EntriesUpToAt(sec, h.infoOff, EntryCount(h), EntryCount(h), es);
  }

  /**
   * The byte range of a live entry: it starts at the entry's offset and runs to
   * the next nonzero offset found after it, or to the end of the section when
   * the entry is the last index of the table.
   */
  lemma LiveEntryRange(sec: seq<byte>, es: seq<Entry>, i: nat)
    requires Unpack(sec) == Ok(es)
    requires i < |es| && es[i].File?
    ensures var infoOff := GetCompHeader(sec).value.infoOff;
      var off := EntryOffset(sec, infoOff, i).value;
      if i == |es| - 1 then
        es[i].data == sec[off..]
      else
        exists j :: i < j && EntryOffset(sec, infoOff, j).Some? &&
          off <= EntryOffset(sec, infoOff, j).value <= |sec| &&
          (forall k :: i < k < j ==> EntryOffset(sec, infoOff, k) == Some(0)) &&
          es[i].data == sec[off..EntryOffset(sec, infoOff, j).value]
  {
    var h := GetCompHeader(sec).value;
    EntriesUpToAt(sec, h.infoOff, EntryCount(h), EntryCount(h), es);
    EntryAtOk(sec, h.infoOff, EntryCount(h), i, es[i]);
  }

  /** The data of the live entries, concatenated in table order. */
  function Payload(es: seq<Entry>): (bytes: seq<byte>)
  {
    if es == [] then []
    else (if es[0].File? then es[0].data else []) + Payload(es[1..])
  }

  lemma PayloadAt(es: seq<Entry>, i: nat)
    requires i < |es|
    ensures Payload(es[i..]) == (if es[i].File? then es[i].data else []) + Payload(es[i + 1..])
  {
    assert es[i..][1..] == es[i + 1..];
  }

  lemma {:induction false} PayloadOverSkips(es: seq<Entry>, a: nat, b: nat)
    requires a <= b <= |es|
    requires forall k :: a <= k < b ==> es[k].Skip?
    ensures Payload(es[a..]) == Payload(es[b..])
    decreases b - a
  {
    if a < b {
      PayloadAt(es, a);
      PayloadOverSkips(es, a + 1, b);
    }
  }

  /**
   * When the last table entry is live, the live files tile the section: from
   * any live entry on, their data concatenated is exactly the section from that
   * entry's offset to its end, with no byte lost or duplicated.
   */
  lemma FilesTileSection(sec: seq<byte>, es: seq<Entry>, i: nat)
    requires Unpack(sec) == Ok(es)
    requires |es| >= 1 && es[|es| - 1].File?
    requires i < |es| && es[i].File?
    ensures EntryOffset(sec, GetCompHeader(sec).value.infoOff, i).Some?
    ensures var off := EntryOffset(sec, GetCompHeader(sec).value.infoOff, i).value;
      off <= |sec| && Payload(es[i..]) == sec[off..]
  {
    var h := GetCompHeader(sec).value;
    EntriesUpToAt(sec, h.infoOff, EntryCount(h), EntryCount(h), es);
    forall k | 0 <= k < |es| ensures Describes(sec, h.infoOff, |es|, k, es[k]) {
      EntryAtOk(sec, h.infoOff, |es|, k, es[k]);
    }
    TileFrom(sec, h.infoOff, es, i);
  }

  lemma {:induction false} TileFrom(sec: seq<byte>, infoOff: nat, es: seq<Entry>, i: nat)
    requires forall k :: 0 <= k < |es| ==> Describes(sec, infoOff, |es|, k, es[k])
    requires |es| >= 1 && es[|es| - 1].File?
    requires i < |es| && es[i].File?
    ensures EntryOffset(sec, infoOff, i).Some?
    ensures EntryOffset(sec, infoOff, i).value <= |sec|
    ensures Payload(es[i..]) == sec[EntryOffset(sec, infoOff, i).value..]
    decreases |es| - i
  {
    var count := |es|;
    assert Describes(sec, infoOff, count, i, es[i]);
    var off := EntryOffset(sec, infoOff, i).value;
    PayloadAt(es, i);
    if i == count - 1 {
      assert es[i + 1..] == [];
    } else {
      var j := NextLive(sec, infoOff, i + 1).value;
      var last := count - 1;
      assert Describes(sec, infoOff, count, last, es[last]);
      assert j <= last;
      assert Describes(sec, infoOff, count, j, es[j]);
      forall k | i + 1 <= k < j ensures es[k].Skip? {
        assert Describes(sec, infoOff, count, k, es[k]);
      }
      PayloadOverSkips(es, i + 1, j);
      TileFrom(sec, infoOff, es, j);
      var offj := EntryOffset(sec, infoOff, j).value;
      assert off <= offj <= |sec|;
      assert es[i].data == sec[off..offj];
      SliceSplit(sec, off, offj);
    }
  }

  /**
   * Offsets [0, 100, 0, 250] over a 400-byte section: entries 0 and 2 are skips,
   * entry 1 spans [100, 250) and entry 3, the last index, spans [250, 400).
   * The do-while after entry 3 still reads slot 4, past the table.
   */
  lemma UnpackExample(sec: seq<byte>)
    requires |sec| == 400 && GetCompHeader(sec).Some? && GetCompHeader(sec).value.infoSize == 64
    requires var t := GetCompHeader(sec).value.infoOff;
      EntryOffset(sec, t, 0) == Some(0) && EntryOffset(sec, t, 1) == Some(100) &&
      EntryOffset(sec, t, 2) == Some(0) && EntryOffset(sec, t, 3) == Some(250) &&
      EntryOffset(sec, t, 4).Some? && EntryOffset(sec, t, 4).value != 0
    requires GetFileName(sec, 100).Unrecognized? && GetFileName(sec, 250).Unrecognized?
    ensures Unpack(sec) == Ok([Skip, File("00001", sec[100..250]), Skip, File("00003", sec[250..])])
  {
    var t := GetCompHeader(sec).value.infoOff;
    assert NextLive(sec, t, 2) == Some(3);
    assert NextLive(sec, t, 4) == Some(4);
    assert PaddedIndex(1) == "00001" by {
      assert Decimal(1) == "1";
    }
    assert PaddedIndex(3) == "00003" by {
      assert Decimal(3) == "3";
    }
    var f1, f3 := File("00001", sec[100..250]), File("00003", sec[250..]);
    assert EntryAt(sec, t, 4, 0) == Ok(Skip);
    assert EntryAt(sec, t, 4, 1) == Ok(f1);
    assert EntryAt(sec, t, 4, 2) == Ok(Skip);
    assert sec[250..|sec|] == sec[250..];
    assert EntryAt(sec, t, 4, 3) == Ok(f3);
    assert [] + [Skip] == [Skip];
    assert [Skip] + [f1] == [Skip, f1];
    assert [Skip, f1] + [Skip] == [Skip, f1, Skip];
    assert [Skip, f1, Skip] + [f3] == [Skip, f1, Skip, f3];
    assert EntriesUpTo(sec, t, 4, 0) == Ok([]);
    assert EntriesUpTo(sec, t, 4, 1) == Ok([Skip]);
    assert EntriesUpTo(sec, t, 4, 2) == Ok([Skip, f1]);
    assert EntriesUpTo(sec, t, 4, 3) == Ok([Skip, f1, Skip]);
  }
}
