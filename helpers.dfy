/**
 * The two small helpers of zng2xtr.cpp: the `ALIGN` macro and the in-place
 * `pad_folderdata`.
 */
module Helpers {
  import opened Bytes

  /** `chunkSize`, the only alignment `ALIGN` is applied with. */
  const ChunkSize: nat := 512

  /**
   * `ALIGN(x, chunkSize)`, `(x + (chunkSize - 1)) & ~(chunkSize - 1)`: with
   * chunkSize = 512 = 2^9 the mask clears the low nine bits of `x + 511`, that is
   * subtracts its remainder modulo 512. The result is the least multiple of 512
   * at or above `x` (see `AlignIsLeast`).
   */
  function Align(x: nat): (r: nat)
    ensures r % ChunkSize == 0
    ensures x <= r < x + ChunkSize
  {
    var v := x + ChunkSize - 1;
    v - v % ChunkSize
  }

  /** No multiple of the chunk size at or above `x` lies below `Align(x)`. */
  lemma AlignIsLeast(x: nat, m: nat)
    requires m % ChunkSize == 0 && x <= m
    ensures Align(x) <= m
  {
  }

  /**
   * `pad_folderdata(folderdata, start, end)`: zeroes `folderdata[start..end)`
   * counting `remain` down from `end - start`, and returns `end - start`
   * (negative, with nothing written, when `end < start`).
   */
  method PadFolderData(folderdata: array<byte>, start: int, end: int) returns (n: int)
    requires start < end ==> 0 <= start && end <= folderdata.Length
    modifies folderdata
    ensures n == end - start
    ensures forall k :: 0 <= k < folderdata.Length ==>
      folderdata[k] == if start <= k < end then 0 else old(folderdata[k])
  {
    var remain := end - start;
    while remain > 0
      invariant end - start <= 0 ==> remain == end - start
      invariant end - start > 0 ==> 0 <= remain <= end - start
      invariant forall k :: 0 <= k < folderdata.Length ==>
        folderdata[k] == if start <= k < (if end - start > 0 then end - remain else start) then 0 else old(folderdata[k])
    {
      folderdata[end - remain] := 0;
      remain := remain - 1;
    }
    return end - start;
  }
}
