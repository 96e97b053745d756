# XTR extraction, modelled in Dafny

This project models the extraction direction of `zng2xtr`, the tool that
unpacks `.XTR` files, a proprietary game-asset container. An `.XTR` file is
one byte buffer with these parts:

- a 16-byte file header;
- a table of section pointers, 16 bytes per entry. The table ends at the first
  entry whose `lzssPointer` is 0;
- LZSS-compressed sections. Each one decompresses to a *sub-archive*: a
  32-byte header, a file table of 16-byte entries at `infoOff` (`infoSize / 16`
  of them), and the file data;
- an interleaved tail after the last compressed blob. It holds zero padding
  (`preSize`), 1024-byte audio blocks spaced `1024 + chnSize` apart, and
  512-byte chunks between them. Maximal runs of "active" chunks carry further
  sub-archives, `UNC_1`, `UNC_2`, …

The modules follow the program's structure:

| file | module | models |
|---|---|---|
| `bytes.dfy` | `Bytes` | bytes, little-endian u32/u16 reads, NUL-terminated strings |
| `text.dfy` | `Text` | `%d`, `%0*d` and `UNC_%d` formatting |
| `xtr.dfy` | `Xtr` | the record layouts and accessors of `xtr.h`, and the name resolver `getfilenames` |
| `tarball.dfy` | `Tarball` | `extractTarball`: the spec `Unpack` and the loop `ExtractTarball` |
| `container.dfy` | `Container` | the section walk of `cmd_extract` |
| `helpers.dfy` | `Helpers` | `ALIGN` and the in-place `pad_folderdata` |
| `interleave.dfy` | `Interleave` | the `preSize`/`chnSize` scans and the audio loop |
| `unc.dfy` | `Uncompressed` | the UNC run scan with its `first`/`tmpPos`/`tmpTrn`/`truncate`/`uCount`/`allocSize` state |
| `extract.dfy` | `Extract` | `cmd_extract` as a whole |

Each loop of the source is a method. Each loop method is proved equal to a
specification function (`Unpack`, `EntryAt`, `WalkSpec`, `LayoutSpec`,
`AudioFrom`, `UncSpec`, `RunData`) or states its result directly
(`PadFolderData`), and lemmas state what each function guarantees.
`pad_folderdata` works on an `array<byte>` in place. The UNC copy loop writes
into a fresh `array` with a `forall` statement in place of `memcpy`.

Decisions that shape the model:

- **Header size.** The code uses `sizeof(header_t)` (xtr.h:33-39), which is
  16: three u32 fields and two u16 fields, with no padding. `checkinstall`
  (xtr.h:58-60) tests for 0x20, but in a disjunction whose second half is
  always true, so 16 passes. Pointer entry i therefore starts at byte
  `16 + 16·i`.
- **Byte order.** Multi-byte fields, including the magic numbers of
  `getfilenames`, are read little-endian, the native order of the targets the
  tool is built for.
- **Entry size.** The do-while at zng2xtr.cpp:221-224 never stops at the end
  of the table. It scans on until it meets a nonzero offset, and it does this
  even for the last index, whose size comes from the section size instead. The
  model follows the code. `NextLive` may look past the table, and a scan that
  leaves the section is `TableOverRead`.
- **Open run at the end.** The code (zng2xtr.cpp:374-401) flushes a run of
  active chunks only when an inactive chunk follows it, so a run still open
  when the loop ends is dropped. The model does the same.
- **Reads the source does not check.** Any read that would leave the buffer
  is an explicit error value in the model. This covers the 8-byte `memcmp`
  probes, the check bytes, the audio `fwrite`, the sub-archive table and names,
  and the blob header and tokens.
- **Names.** Names read from a buffer map each byte to the character with that
  code. An unnamed file is called `sprintf("%0*d", 5, i)`: zero-padded to at
  least five digits.
- **The LZSS decoder.** `lzss_decompress` lives in `lzss.h`, which is not part
  of this model. It is the parameter `dec` of type `Container.Decompressor`.
  The only thing assumed about it is that it returns exactly
  `uncompressed_size` bytes. The caller zeroes the 4096-byte history window
  before each call, so the decoder is a function of its input.
- **Type names.** The table `typenames` is defined in a file that is not part
  of this model. It is a parameter: any sequence of 8 names.

## Model

| member | source | states |
|---|---|---|
| Bytes.U32ReadBack | xtr.h:41-46 | a u32 field stored little-endian at any offset reads back as the stored value |
| Bytes.CStringOf | xtr.h:101-111 | a NUL-free name followed by a NUL is read as exactly that name, whatever follows it (`strlen`/`strcpy` of `orgName`) |
| Bytes.CString | xtr.h:101-111 | the string read at `at` is the bytes before the first NUL, contains no NUL, and is absent only when no NUL follows `at` |
| Text.DecimalRoundTrip | zng2xtr.cpp:391 | the digits `%d` prints for a number read back as that number |
| Text.PaddedIndexShape | zng2xtr.cpp:229-230 | `%0*d` with width 5 gives only digits, at least five of them, exactly five below 100000, and reads back as `i`, so distinct entries get distinct names |
| Xtr.GetHeader | xtr.h:33-39 | the header exists exactly when the file has 16 bytes (`sizeof(header_t)`) |
| Xtr.PtrEntryReadBack | xtr.h:41-46 | a pointer entry stored at slot i, at byte 16 + 16·i, reads back its `lzssPointer` (offset 4) and its `size` (offset 8) |
| Xtr.LzssBlobReadBack | xtr.h:48-52 | a blob stored as `uncompressed_size`, `compressed_size`, tokens reads back as that header, with the token data starting at `lzssPointer + 8` |
| Xtr.LzssData | xtr.h:77-79 | the token data is present exactly when `lzssPointer + 8 + compressed_size` fits in the file, and is then `compressed_size` bytes long |
| Xtr.CompHeaderReadBack | xtr.h:117-126 | a sub-archive header with `infoOff` stored at byte 12 and `infoSize` at byte 16 reads back with those values |
| Xtr.EntryOffsetReadBack | xtr.h:128-133 | file entry i, at `infoOff + 16·i`, reads back its `offset` as the entry's first u32 |
| Xtr.LayoutOf | xtr.h:86-98 | exactly the three magics 0x59238771, 0x09463AD8 and 0x18DF540A have a name layout |
| Xtr.GetFileName | xtr.h:81-113 | the result is null exactly when the magic is unknown; it is an over-read exactly when the magic or, for a known magic, the NUL-terminated name lies past the buffer; a resolved name is that string followed by the layout's extension |
| Xtr.GetFileNameOf | xtr.h:86-111 | for each known magic, the name is the stored string plus `.spa`, `.spc` or nothing; its length is `strlen(orgName) + strlen(ext)`, and it contains no NUL |
| Xtr.GetFileNameUnknown | xtr.h:98 | any other magic resolves to null |
| Tarball.NextLive | zng2xtr.cpp:221-224 | the do-while finds the first later entry with a nonzero offset, with all entries between them zero; when it fails, some entry after a zero run lies outside the section |
| Tarball.EntryName | zng2xtr.cpp:227-232 | the name is missing only when the resolver would over-read |
| Tarball.ExtractEntry | zng2xtr.cpp:216-239 | one pass of the loop, do-while included, computes the entry `EntryAt` specifies |
| Tarball.ExtractTarball | zng2xtr.cpp:188-244 | the loop computes `Unpack(sec)`, and the order file has one line per entry in table order |
| Tarball.FirstErrorStops | zng2xtr.cpp:214-243 | the first entry that fails decides the outcome; later entries are never reached |
| Tarball.EntriesUpToAt | zng2xtr.cpp:214-243 | the n entries produced are, one by one, what the loop body gives for indexes 0 … n-1 |
| Tarball.UnpackEntries | zng2xtr.cpp:213-232 | exactly `infoSize / 16` entries are examined; entry i is `skip` iff its offset is 0; a file's name is the resolved name, or i zero-padded to five digits when the resolver returns null |
| Tarball.LiveEntryRange | zng2xtr.cpp:219-225 | a live entry's bytes run from its offset to the first later nonzero offset, or to the section end when it is the last index |
| Tarball.FilesTileSection | zng2xtr.cpp:219-239 | when the last table entry is live, the files from any live entry on, concatenated, are exactly the section from that entry's offset to its end |
| Tarball.UnpackExample | zng2xtr.cpp:213-242 | offsets [0, 100, 0, 250] in a 400-byte section give skip, `00001` = [100, 250), skip, `00003` = [250, 400) |
| Container.EndOfBlob | zng2xtr.cpp:275 | `lzssPointer + size` is computed in 32 bits: the true sum, or the sum minus 2^32 |
| Container.WrappedEndBeforePointer | zng2xtr.cpp:275 | a sum `lzssPointer + size` that wraps is the sum minus 2^32 and lies below `lzssPointer` |
| Container.WalkSections | zng2xtr.cpp:269-290 | the section loop computes `WalkSpec`: stop at a zero `lzssPointer`, otherwise read, decompress and unpack, in order |
| Container.WalkVisits | zng2xtr.cpp:269-290 | a successful walk visits entries 0, 1, 2, … and stops at the first zero `lzssPointer`; section k is labelled `typenames[k]`, holds the decoder's `uncompressed_size` bytes for blob k and their unpacking; `lastLzssPos` is `lzssPointer + size` of the last entry visited, or 0 |
| Container.VisitedStep | zng2xtr.cpp:271-289 | each loop iteration over a live entry extends that description by one section |
| Helpers.Align | zng2xtr.cpp:91 | `ALIGN(x, 512)` is a multiple of 512 in [x, x + 512) |
| Helpers.AlignIsLeast | zng2xtr.cpp:91 | no multiple of 512 at or above x lies below `ALIGN(x, 512)` |
| Helpers.PadFolderData | zng2xtr.cpp:170-180 | exactly `folderdata[start..end)` becomes 0, every other byte is unchanged, and the result is `end - start` (nothing is written when `end <= start`) |
| Interleave.ZeroRunCounts | zng2xtr.cpp:305-320 | the scan counts n exactly when chunks 0 … n-1 from its start have zero probes and chunk n does not, in both directions |
| Interleave.MeasurePreSize | zng2xtr.cpp:305-311 | `preSize` is 512 times the zero-probe chunks from `lastLzssPos` |
| Interleave.MeasureChnSize | zng2xtr.cpp:314-320 | `chnSize` is 512 times the zero-probe chunks from its start |
| Interleave.MeasureLayout | zng2xtr.cpp:305-320 | the two scans compute `LayoutSpec`, the second starting 1024 bytes past the end of the first |
| Interleave.LayoutMeasures | zng2xtr.cpp:305-320 | `preSize` and `chnSize` are multiples of 512, each 512 times the leading zero-probe chunks counted from `lastLzssPos` and from `lastLzssPos + preSize + 1024` |
| Interleave.ExtractAudio | zng2xtr.cpp:336-342 | the audio loop computes `AudioFrom`, and `binSize` is the number of bytes written |
| Interleave.AudioBlocks | zng2xtr.cpp:336-342 | the audio is `BlockCount` blocks of 1024 bytes; block j is the file's bytes at `start + j·(1024 + chnSize)`, each such start lies in the file, and the next one does not |
| Uncompressed.Advance | zng2xtr.cpp:361-364 | a step moves at least one chunk on; at a batch boundary it skips the audio block, lands on a multiple of 512 and resets the counter, and otherwise moves exactly 512 bytes |
| Uncompressed.Classify | zng2xtr.cpp:367-368 | a chunk is active iff its bytes 0 and 1 are both nonzero; byte 1 is read only when byte 0 is nonzero |
| Uncompressed.RunData | zng2xtr.cpp:372-380 | a run of n chunks gives 496·n bytes (`allocSize`) |
| Uncompressed.RunDataSlots | zng2xtr.cpp:379-385 | bytes [496·i, 496·i + 496) of a run's data are bytes [16, 512) of its i-th chunk |
| Uncompressed.CopyRun | zng2xtr.cpp:376-385 | replaying the cursor from `tmpPos`/`tmpTrn` copies exactly the run's payloads, in order |
| Uncompressed.ExtractUncompressed | zng2xtr.cpp:349-405 | the main loop computes `UncSpec` |
| Uncompressed.ExtendKeepsState | zng2xtr.cpp:368-373 | an active chunk extends the open run, which stays a chain of active chunks ending at the cursor |
| Uncompressed.FlushKeepsState | zng2xtr.cpp:374-401 | an inactive chunk after an open run flushes it as the next numbered resource, in file order after the earlier ones |
| Uncompressed.TrailingCheckRead | zng2xtr.cpp:360-368 | when the last chunk of a batch lies 1536 bytes before the end of a file whose length is a multiple of 512, the next step lands on the end of the file and the check byte read there is an over-read |
| Uncompressed.UncRuns | zng2xtr.cpp:349-405 | resources are `UNC_1`, `UNC_2`, … in discovery order, each the concatenated 496-byte payloads of its chunks, unpacked, in increasing file order; over the chunks the loop examines (`Step` 1, 2, …), every resource is a maximal run of active chunks (an inactive or no chunk before it, an inactive chunk after it), and every such maximal run is reported |
| Extract.ExtractTail | zng2xtr.cpp:294-405 | the tail code computes `TailSpec`: the layout, then the audio from `lastLzssPos + preSize`, then the UNC scan from `lastLzssPos + preSize + 1024` with batches of `chnSize / 512` chunks |
| Extract.CmdExtract | zng2xtr.cpp:246-405 | `cmd_extract` computes `ExtractSpec`: the walk, then the tail from `lastLzssPos`; the first failing stage stops it, and a failing tail still reports the finished walk |
| Extract.TailParts | zng2xtr.cpp:294-405 | `preSize` and `chnSize` are 512 times the zero-probe chunks counted from their starts; the audio is `BlockCount` blocks, block j being the 1024 file bytes at `lastLzssPos + preSize + j·(1024 + chnSize)`; the resources are the well-formed runs `UNC_1`, `UNC_2`, … in file order |
| Extract.TailFailureParts | zng2xtr.cpp:269-405 | when the tail fails, the sections reported are those of a complete walk, with all of the walk's guarantees, and the tail measured from its `lastLzssPos` fails with the reported error |
| Extract.ExtractionParts | zng2xtr.cpp:269-405 | a successful extraction combines the walk's guarantees with a tail measured from the walk's `lastLzssPos` |

## Left out

- File and directory output is left out: `makedir`, `fopen`/`fwrite`/`fclose`, and the `_rawsection`, `_order.txt`, `_fileinfo` and `audio.wp2` files. They are returned as values: entries, order lines, layout, audio bytes, resources.
- A failed `fopen` of an output file (zng2xtr.cpp:236) makes the source skip that file and its order line. The model assumes every output can be opened.
- `printf` logging, the `blankCount` counter, `unkCount`, CLI dispatch, `main`, `checkinstall`, the `resfile_*` iterators and `intfile_t` are not modelled, because they are diagnostics or belong to the build direction.
- `lzss_decompress` is an opaque parameter. Only its output length is known, because `lzss.h` is not part of this model.
- `typenames` is a parameter: any 8 names. A ninth live pointer entry is the error `UnknownSectionIndex`; the source would read past the table.
- C `int` is 32 bits. The model uses unbounded integers for positions, `lastLzssPos`, `fileSize` and `allocSize`, so a file of 2 GiB or more (where these would overflow) is not modelled. The u32 sum `lzssPointer + size` wraps only for a corrupt pointer entry whose sum is 2^32 or more; `Container.EndOfBlob` models that wrap. A wrapped sum lies below `lzssPointer`, inside the part of the file the walk has already read (`Container.WrappedEndBeforePointer`), so the source and the model both measure the tail from that position. Storing an unwrapped sum in [2^31, 2^32) in the `int` `lastLzssPos` makes it negative, which the model does not show: there the source's zero scan reads before the file, while the model keeps the u32 value, which lies past the end of any file under 2 GiB, and returns `ZeroScanOverRead`.
- Text.PaddedIndexShape: the source prints `%0*d` into a 6-byte buffer, which overflows for i ≥ 100000. The model gives the full decimal string and does not model the overrun.
- Helpers.Align: modelled only for y = 512, the only alignment the source uses. The general `ALIGN(x, y)` for other powers of two is not stated.
- Over-reads: where the source reads past the buffer, the model returns an error (`TableOverRead`, `NameOverRead`, `DataOverRead`, `PointerOverRead`, `BlobOverRead`, `ZeroScanOverRead`, `AudioOverRead`, `CheckOverRead`). It does not guess what the source would read there. An over-read while unpacking a sub-archive (`Unpack` fails at the first failing entry) drops the files and order lines of the entries before it, which the source has already written. An over-read in the section walk drops every section of the run, including the ones the source has already written. An over-read in the tail keeps the finished walk (`Extract.TailFailureParts`), but it drops the layout, every audio block and every `UNC_k` resource the source has already written. The usual trigger is the last check byte of a file that ends with an audio block (`Uncompressed.TrailingCheckRead`): the source reads one byte past the end there, and that byte decides only whether a run still open is flushed.
- The `Resource.chunks` field records where a run's chunks lie. The source uses these positions only while copying.
