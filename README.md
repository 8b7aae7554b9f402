# WPLS snapshot-log codec

A Dafny model of the WPLS pixel-canvas format implemented in `wpls.js`.

A WPLS file holds a canvas of 64-colour palette ids. It has:
- a 14-byte header: "WPLS", then version 2, width, height, x and y as big-endian 16-bit values;
- a base block, holding the run-length encoded ids of the whole canvas;
- an append-only chain of delta blocks.

Every block has a 9-byte head: the type, a signed 32-bit timestamp and the payload size. The head is followed by a compressed payload. A delta payload is a list of packed 32-bit change records `(dx << 16) | (dy << 6) | id`.

The model covers:
- the palette and its reverse lookup;
- the run-length codec;
- the big-endian integer helpers;
- the one-shot writer `pngToWpls` and the reader `wplsToPng`, which replays blocks up to a cutoff timestamp;
- `concatBuffers`;
- the `WplsFile` class: its parsing constructor, `toPng`, `appendPng` and `toBuffer`.

Modules follow the structure of the program:

| module | what it holds |
|---|---|
| `Errors` | `Option`, `Result` and the error values the source throws |
| `Bytes` | bytes, the integer helpers, `concatBuffers` |
| `Compress` | the stand-in for `pako.deflate` / `pako.inflate` |
| `Rle` | `rleEncode` / `rleDecode` |
| `Palette` | `PALETTE`, `paletteMap`, pixel-to-id conversion, rendering |
| `Records` | record packing, applying records to a grid, the `Uint32Array` byte view, the diff of `appendPng` |
| `Blocks` | the header and the block layout, plus base and delta payloads |
| `Log` | the delta log, the cutoff prefix, the bytes of a whole file |
| `Snapshot` | `pngToWpls`, `wplsToPng` and their round trip |
| `Document` | the `WplsFile` class and the state it keeps |

Loops in the source are loops in the model. `rleEncode`, `rleDecode`, `concatBuffers`, the pixel, diff and render loops, and the block loops of `wplsToPng` and `#parse` are methods with loop invariants. Each is proved equal to a function that states what it computes.

`WplsFile` is a class with the fields of the source object. `metadata` is split into `header` and `latestTimestamp`. `baseTimestamp` and `baseIndices` are one optional `base`, because `#parse` always sets them together. The other fields are `indices` and `deltas`. `State()` reads the fields as one value, `FileState`. The class invariant the log is meant to keep is `Document.Consistent`: there is a base, and `indices` equals the base with every delta applied in order.

Where the format's stated intent (a running maximum timestamp; canvases of at most 1024 cells per side) and the code disagree, the model follows the code:
- `wplsToPng` reports the timestamp of the last block it processed, not the largest (`Snapshot.LastNotLatest`).
- Neither the reader nor the parser checks that the canvas is at most 1024 cells in either direction. The model states which properties need that bound (see "Left out").

## Model

| member | source | states |
|---|---|---|
| Bytes.At | wpls.js:46-52 | a read past the end of the buffer is `undefined`, which the shift and or operators treat as 0 |
| Bytes.ReadUInt16BE | wpls.js:46-48 | the value read is an unsigned 16-bit value |
| Bytes.ReadUInt16BEFacts | wpls.js:46-48 | when both bytes are present, they are exactly the bytes `writeUInt16BE` stores for the value read |
| Bytes.ReadUInt32BEFacts | wpls.js:50-52 | the value read is a signed 32-bit value; it is negative exactly when the first byte is at least 0x80; when all four bytes are present, they are the bytes `writeUInt32BE` stores for it |
| Bytes.ReadUInt16BEOfWritten | wpls.js:34-48 | reading back what `writeUInt16BE` stored returns the value, for every value below 65536 |
| Bytes.ReadUInt16BEOfMasked | wpls.js:34-48 | for any integer, reading back what was stored returns its low 16 bits |
| Bytes.ReadUInt32BEOfWritten | wpls.js:39-52 | reading back what `writeUInt32BE` stored returns the value, for every value below 2^31 |
| Bytes.ReadUInt32BEOfWrittenHigh | wpls.js:39-52 | a value from 2^31 to 2^32 - 1 reads back as that value minus 2^32, because `<< 24` yields a signed result |
| Bytes.ReadUInt32BEOfInt32 | wpls.js:39-52 | every signed 32-bit value, negative ones included, reads back unchanged |
| Bytes.WriteUInt16BE | wpls.js:34-37 | stores the two big-endian bytes at the offset and leaves every other byte as it was |
| Bytes.WriteUInt32BE | wpls.js:39-44 | stores the four big-endian bytes at the offset and leaves every other byte as it was |
| Bytes.CopyAt | wpls.js:137 | `out.set(part, offset)` puts the part at the offset and keeps the bytes before it |
| Bytes.ConcatBuffers | wpls.js:131-141 | the output is the parts laid end to end, in order |
| Compress.InflateDeflate | wpls.js:106 | inflating a deflated stream gives the data back; the source assumes this of pako, and here it is proved of the stand-in |
| Rle.RunEndFacts | wpls.js:10-19 | each emitted run is the longest stretch of equal values from its start, cut at 255 |
| Rle.RunEndIs | wpls.js:10-19 | those conditions determine where the run ends |
| Rle.RleEncode | wpls.js:8-22 | the loop that updates `prev` and `count` emits the pairs of `Encoded`, run after run, including [1, 0] for an empty array |
| Rle.RleDecode | wpls.js:24-32 | the nested push loops return `Decoded`: each pair expands to `count` copies of its value, and a lone trailing count expands to zeros |
| Rle.DecodeEncode | wpls.js:8-32 | `rleDecode(rleEncode(x)) == x` for every non-empty byte array |
| Rle.DecodeEncodeEmpty | wpls.js:8-32 | the empty array encodes as [1, 0], which decodes to [0] |
| Rle.EncodedShape | wpls.js:8-22 | the encoding has even length; every count is in 1..255; a run shorter than 255 is never followed by a run of the same value; the encoding is at most twice the input length |
| Rle.Run256 | wpls.js:10-20 | a run of 256 equal values is emitted as (255, v), (1, v) |
| Palette.PaletteDistinct | wpls.js:1 | entries 0 and 1 are both black, and no other two entries share a colour |
| Palette.PaletteArrayBlack | wpls.js:1 | `PALETTE[0]` and `PALETTE[1]` are both black |
| Palette.PaletteArrayDistinct | wpls.js:1 | any two different ids from 1 to 63 have different colours |
| Palette.LastIndexBelowFound | wpls.js:3-6 | while the map is being filled, a colour found maps to an id whose entry is that colour |
| Palette.LastIndexBelowIsLast | wpls.js:3-6 | that id is the last one with this colour, because a later `set` overwrites an earlier one |
| Palette.LastIndexBelowNone | wpls.js:3-6 | a colour is missing exactly when no entry so far has it |
| Palette.BuildPaletteMap | wpls.js:3-6 | the filling loop yields a map whose keys are exactly the palette colours, each mapped to `Lookup` of it |
| Palette.LookupFinds | wpls.js:3-6 | a colour is looked up exactly when it is in the palette, and then as an id whose entry it is |
| Palette.LookupOfPalette | wpls.js:3-6 | `paletteMap.get(PALETTE[id]) == id` for 1 <= id < 64 |
| Palette.LookupOpaqueBlack | wpls.js:3-6 | black is looked up as id 1 |
| Palette.LookupNeverZero | wpls.js:3-6 | no colour is ever looked up as id 0 |
| Palette.PixelId | wpls.js:58-63 | a pixel with alpha 0 gets id 0; an error only comes from an opaque pixel, and it names that pixel's colour |
| Palette.PixelIdMeaning | wpls.js:58-63 | a non-transparent pixel converts exactly when its colour is in the palette, and then to a non-zero id whose entry is that colour |
| Palette.ImageIds | wpls.js:57-65 | the grid exists exactly when every pixel converts; it has one id per pixel, each that pixel's id; otherwise the error is the first failing pixel's |
| Palette.ConvertPixels | wpls.js:56-65 | the conversion loop (repeated at lines 241-250) fills the grid of `ImageIds`, or stops at the first unknown colour with its error |
| Palette.Render | wpls.js:119-126 | the rendered buffer has four bytes per id |
| Palette.RenderAt | wpls.js:119-126 | pixel i of the rendered buffer is drawn from id i alone: the palette RGB, and alpha 255 exactly when the id is not 0 |
| Palette.RenderIndices | wpls.js:119-126 | the render loop (repeated at lines 225-233) produces `Render` of the grid |
| Palette.ColourRoundTrip | wpls.js:58-63 | transparent black and every opaque palette colour convert to an id that is drawn as the same four bytes |
| Palette.PixelRoundTrip | wpls.js:57-64 | the same for a pixel of an RGBA buffer |
| Palette.RenderOfPixels | wpls.js:225-233 | ids each drawn as the matching four bytes of a buffer render as that buffer's prefix |
| Palette.RenderOfImage | wpls.js:54-129 | converting canonical pixels to ids and drawing the ids gives back the pixels byte for byte |
| Palette.PixelOfId | wpls.js:119-126 | every id is drawn as a pixel that converts back to the same id |
| Records.Pack | wpls.js:258 | for dy below 1024, the packed word holds id in bits 0-5, dy in bits 6-15 and dx from bit 16 up |
| Records.UnpackPack | wpls.js:196-199 | unpacking what line 258 packs returns (dx, dy, id) when dx < 1024; a wider column keeps only its low ten bits |
| Records.WideColumnAliases | wpls.js:196-199 | column 1024 is read back as column 0 of the same row |
| Records.ApplyRecord | wpls.js:200 | applying one record never changes the grid's size |
| Records.ApplyRecordsAppend | wpls.js:194-201 | applying two batches of records one after the other is applying their concatenation |
| Records.ApplyRecordsUntouched | wpls.js:194-201 | a cell that no record names keeps its id |
| Records.ApplyRecordsInPlace | wpls.js:195-201 | the in-place record loop (also at lines 109-115 and 216-222) leaves the array equal to `ApplyRecords` of its old contents |
| Records.BytesToWords | wpls.js:194 | `new Uint32Array(bytes.buffer)` fails exactly when the length is not a multiple of four |
| Records.WordsOfBytes | wpls.js:289 | viewing the bytes of a word array as words gives the words back |
| Records.BytesOfWords | wpls.js:194 | a buffer of whole words is the bytes of its words |
| Records.Diff | wpls.js:252-260 | there are at most as many records as cells |
| Records.DiffCells | wpls.js:252-260 | the diff loop yields `Diff` of the old and new grids |
| Records.CellOfPack | wpls.js:255-258 | on a grid at most 1024 wide, the record packed for cell i names cell i and carries its id |
| Records.ApplyDiff | wpls.js:252-260 | applying the diff to the old grid gives the new grid, on grids at most 1024 wide |
| Records.DiffEmpty | wpls.js:252-262 | the diff is empty exactly when no cell differs |
| Records.DiffRecordsSound | wpls.js:253-259 | every record names a changed cell and carries its new id, in strictly ascending cell order |
| Records.DiffRecordsComplete | wpls.js:253-259 | every changed cell has a record |
| Blocks.HeaderBytes | wpls.js:68-74 | the header is 14 bytes |
| Blocks.NewHeader | wpls.js:68-74 | the in-place header writes produce "WPLS" and the five 16-bit fields |
| Blocks.ParseHeader | wpls.js:84-91 | a header that parses has version 2 |
| Blocks.MagicIff | wpls.js:85 | the magic check passes exactly when the buffer starts with "WPLS" |
| Blocks.ParseHeaderBytes | wpls.js:159-167 | a written header reads back as the low 16 bits of each field, or is rejected as unsupported when the version is not 2 |
| Blocks.ParseHeaderOf | wpls.js:159-167 | a version-2 header written from its own fields reads back as that header, whatever bytes follow it |
| Blocks.HeadBytes | wpls.js:76-79 | a block head is 9 bytes |
| Blocks.NewHead | wpls.js:76-79 | the in-place head writes produce the type, then timestamp and size as big-endian words |
| Blocks.ReadHeadOfBytes | wpls.js:179-181 | a written head reads back when its timestamp is signed 32-bit and its size is below 2^31 |
| Blocks.PayloadAt | wpls.js:187 | the payload is read exactly when the size is non-negative and the payload fits in the buffer; otherwise the error is `Truncated` |
| Blocks.BlockBytes | wpls.js:284-287 | the head's size field covers the payload: a block is 9 bytes plus its payload |
| Blocks.BlockOfBytes | wpls.js:178-187 | a written block reads back as its head and its payload |
| Blocks.BlockAt | wpls.js:178-187 | the same for a block found anywhere in a buffer |
| Blocks.DecodeBase | wpls.js:189-190 | a decoded base has one id per cell |
| Blocks.ReadBase | wpls.js:189-190 | inflating the payload and running `rleDecode` gives `DecodeBase` |
| Blocks.DeltaPayload | wpls.js:289 | with the stored-data stand-in for `pako.deflate`, a delta payload is four bytes per record plus the two-byte stream header; pako itself compresses, so this length is a fact of the stand-in only |
| Blocks.BasePayloadLength | wpls.js:271 | with the stored-data stand-in for `pako.deflate`, a base payload is at most twice the grid size plus two, so its size field fits; pako itself compresses, so this bound is a fact of the stand-in only |
| Blocks.DecodeBaseOfEncoded | wpls.js:189-190 | a non-empty grid is read back from its base payload |
| Blocks.DecodeBaseOfEmpty | wpls.js:189-190 | an empty grid is not read back: its payload decodes to one id |
| Blocks.DecodeDeltaOfEncoded | wpls.js:194 | every record list is read back from its delta payload |
| Log.ApplyDeltas | wpls.js:214-223 | applying entries never changes the grid's size |
| Log.ApplyDeltasSnoc | wpls.js:214-223 | one more entry applies its records to the grid made so far |
| Log.ApplyDeltasCons | wpls.js:214-223 | the first entry applies its records before the rest |
| Log.ApplyEmptyDelta | wpls.js:214-222 | an entry without records changes nothing |
| Log.DeltasUpTo | wpls.js:214-215 | the applied entries are a prefix of the log; none of them is past the cutoff; the first entry left out is past it |
| Log.DeltasUpToIs | wpls.js:214-215 | the prefix the loop reaches before its first entry past the cutoff is `DeltasUpTo` |
| Log.DeltasUpToAll | wpls.js:210-215 | without a cutoff (`Infinity`) every entry is applied |
| Log.MaxTimestamp | wpls.js:185 | the running maximum is at least every timestamp and its start, and equals one of them |
| Log.DeltaBlocksSnoc | wpls.js:288-295 | writing one more entry appends its block |
| Snapshot.Blank | wpls.js:94 | a new grid has one zero per cell |
| Snapshot.PngToWpls | wpls.js:54-81 | the writer returns `WriteSnapshot`: a version-2 header and one base block of the image's ids, or the first unknown colour's error |
| Snapshot.ApplyBlock | wpls.js:105-116 | a block keeps the grid at one id per cell |
| Snapshot.Replay | wpls.js:97-117 | the replayed grid keeps one id per cell |
| Snapshot.ReplayBlock | wpls.js:98-116 | the grid after one block and the rest of the replay keeps one id per cell |
| Snapshot.ReadSnapshot | wpls.js:84-129 | a read image has one id per cell, and its pixels are the render of its ids |
| Snapshot.WplsToPng | wpls.js:84-129 | the reader's loop (a grid updated in place, stopped at the first block past the cutoff) returns `ReadSnapshot` |
| Snapshot.ReplayAtDelta | wpls.js:101-115 | at a delta block the replay stops if the block is past the cutoff; otherwise it applies the block's records and records its timestamp |
| Snapshot.ReplayAtBase | wpls.js:101-106 | at a base block the replay stops if the block is past the cutoff; otherwise it replaces the grid |
| Snapshot.DeltasAtOfBytes | wpls.js:97-103 | written delta blocks read back one after another |
| Snapshot.ReplayDeltas | wpls.js:97-117 | replaying the delta blocks at the end of a buffer applies the entries up to the cutoff and reports the last applied timestamp |
| Snapshot.LogAtOfBytes | wpls.js:97-103 | a written base block followed by delta blocks reads back block by block |
| Snapshot.ReplayLog | wpls.js:97-117 | a base past the cutoff leaves the grid as it was; otherwise the replay shows the base with the entries up to the cutoff applied |
| Snapshot.LogLayout | wpls.js:84-91 | a written file's header reads back, and its blocks follow the 14 header bytes |
| Snapshot.ReadSnapshotOf | wpls.js:84-128 | the image read is the header's fields, the replayed grid and timestamp, and the render of the grid |
| Snapshot.ReadLog | wpls.js:84-129 | reading a written file with a cutoff: the result is the base with every entry up to the cutoff applied, stamped with the last such timestamp; a base past the cutoff gives the blank grid and timestamp 0 |
| Snapshot.SnapshotRoundTrip | wpls.js:54-129 | for an image whose every pixel is canonical (transparent black, or an opaque palette colour), `pngToWpls` succeeds and `wplsToPng` of its output returns the header fields, the image's ids, the written timestamp and the image's own pixels, unless the timestamp is past the cutoff |
| Snapshot.LastNotLatest | wpls.js:101-102 | the reported timestamp is the last processed block's: a log whose later entry is older reports the older one |
| Snapshot.ReplayStopsAt | wpls.js:101 | a block past the cutoff ends the replay with the grid and timestamp as they are |
| Snapshot.ReplayFailsAt | wpls.js:102-116 | a block not past the cutoff whose payload is cut short or does not decode ends the replay with that error |
| Snapshot.ReplayStepsAt | wpls.js:101-116 | a block not past the cutoff that applies hands on to the next block with the new grid and its timestamp |
| Snapshot.ReplayThroughBase | wpls.js:101-106 | a base block not past the cutoff passes on whatever the replay after it gives |
| Snapshot.ReplayThroughDelta | wpls.js:101-115 | a delta block not past the cutoff passes on whatever the replay after it gives |
| Snapshot.ReplayAtUnknown | wpls.js:96-116 | a block of a type other than 0 or 1, at any offset the replay reaches, stops the replay if it is past the cutoff and is rejected as `UnknownBlockType` otherwise |
| Snapshot.ReplayDeltasUnknown | wpls.js:96-116 | without a cutoff, delta blocks followed by a block of another type replay to `UnknownBlockType` of that type |
| Snapshot.ReplayUnknownAfterDeltas | wpls.js:96-116 | the same for written delta blocks followed by a byte of another type |
| Snapshot.ReplayUnknownAfterBlocks | wpls.js:96-116 | the same for a written base block, written delta blocks and then a byte of another type |
| Snapshot.LogThenLayout | wpls.js:84-92 | a written file followed by further bytes: the header reads back, and the blocks and then the further bytes follow the 14 header bytes |
| Snapshot.ReadUnknownAfterLog | wpls.js:84-116 | without a cutoff, `wplsToPng` rejects a written file followed by a block of another type as `UnknownBlockType`, however many blocks come first |
| Document.ParseBlocks | wpls.js:178-204 | the parse loop keeps the grid and the base at one id per cell |
| Document.ParseBlock | wpls.js:179-203 | one block of the parse keeps the grid and the base at one id per cell |
| Document.ParseFile | wpls.js:158-208 | a parsed file has version 2, and its grid and base have one id per cell |
| Document.Picture | wpls.js:210-235 | `toPng` succeeds exactly when there is a base (otherwise `MissingBase`); it returns four bytes per base id, which is `width*height*4` bytes when the base has one id per cell |
| Document.FileBytes | wpls.js:269-298 | `toBuffer` succeeds exactly when there is a base (otherwise `MissingBase`) |
| Document.Append | wpls.js:238-266 | the size check, the pixel loop and the diff loop produce `AppendImage` |
| Document.FlattenDeltaParts | wpls.js:288-297 | the parts pushed for the entries, laid after any others, are the entries' delta blocks in log order |
| Document.FlattenLogParts | wpls.js:269-298 | all the parts `toBuffer` collects, laid end to end, are the header, the base block and the delta blocks |
| Document.WplsFile.Open | wpls.js:158-208 | the constructor's header checks and block loop succeed exactly when `ParseFile` does, with the same error; on success the new object holds `ParseFile`'s state |
| Document.ApplyUpTo | wpls.js:212-223 | the copied base, with entries applied in place until the first one past the cutoff, is the base with `DeltasUpTo` applied |
| Document.WplsFile.ToPng | wpls.js:210-235 | copy the base, apply entries in place until the first one past the cutoff, then render: the result is `Picture`, and no field changes |
| Document.WplsFile.AppendPng | wpls.js:237-267 | on an error nothing changes; otherwise the method returns whether an entry was added, and the fields become the state of `AppendImage` |
| Document.WplsFile.ToBuffer | wpls.js:269-298 | collecting the parts and joining them returns `FileBytes` of the state |
| Document.ParseAtDelta | wpls.js:193-202 | at a delta block the parse applies the records and logs the entry |
| Document.ParseDeltas | wpls.js:178-204 | the delta blocks at the end of a buffer parse into the same entries, applied in order, with the largest timestamp kept |
| Document.ParseAtBase | wpls.js:189-192 | at a base block the parse adopts the base, its timestamp and the base as the grid |
| Document.ParseLogAt | wpls.js:172-208 | a base block and the delta blocks of a log parse into that base, that log, and the base with the log applied |
| Document.ParseFileOf | wpls.js:158-208 | the constructor's state is the header and what the block loop built |
| Document.ParseLog | wpls.js:158-208 | parsing a written file gives back its header, base, base timestamp and entries; the grid is the base with every entry applied; the latest timestamp is the largest block timestamp, at least 0; the state is consistent |
| Document.BufferRoundTrip | wpls.js:269-298 | opening `toBuffer()` gives back header, base and log; the grid and latest timestamp are recomputed, and a consistent, up-to-date state comes back whole |
| Document.HeaderChecks | wpls.js:159-161 | a buffer that does not start with "WPLS" is rejected as `BadMagic`, and a version other than 2 as `UnsupportedVersion` |
| Document.UnknownBlockRejected | wpls.js:178-203 | a first block of a type other than 0 or 1, after any header that parses, is rejected as `UnknownBlockType` |
| Document.ParseAtUnknown | wpls.js:178-203 | a block of a type other than 0 or 1 is rejected as `UnknownBlockType` at any offset the parse reaches |
| Document.ParseBaseStep | wpls.js:189-192 | a base block whose payload decodes replaces the base and the grid, and the parse goes on after it |
| Document.ParseThroughBase | wpls.js:189-192 | a written base block passes on whatever the parse after it gives |
| Document.ParseThroughDelta | wpls.js:193-202 | a written delta block passes on whatever the parse after it gives |
| Document.ParseDeltasUnknown | wpls.js:178-203 | delta blocks followed by a block of another type parse to `UnknownBlockType` of that type |
| Document.ParseUnknownAfterDeltas | wpls.js:178-203 | the same for written delta blocks followed by a byte of another type |
| Document.ParseUnknownAfterBlocks | wpls.js:178-203 | the same for a written base block, written delta blocks and then a byte of another type |
| Document.UnknownBlockAfterLog | wpls.js:158-203 | the constructor rejects a written file followed by a block of another type as `UnknownBlockType`, however many blocks come first |
| Document.PictureOfConsistent | wpls.js:210-235 | without a cutoff, `toPng` of a consistent file draws its materialised grid |
| Document.PictureMatchesReader | wpls.js:210-235 | `toPng(cutoff)` draws exactly what `wplsToPng(toBuffer(), cutoff)` draws, when the base is not past the cutoff |
| Document.AppendOutcome | wpls.js:237-262 | a size mismatch gives `DimensionMismatch`; an unknown colour gives the first failing pixel's error; otherwise the result says whether the new grid differs, and nothing changes when it does not |
| Document.AppendEntry | wpls.js:252-265 | a changed grid adds exactly one entry at the end, stamped with the timestamp, with one record per changed cell carrying its new id, in ascending cell order; the grid becomes the new one; header, base and latest timestamp stay |
| Document.AppendKeepsConsistent | wpls.js:252-266 | `appendPng` keeps "indices == base with all deltas applied" and one id per cell |

## Left out

- `pako` is replaced by a concrete stand-in in `Compress`. Deflate writes the two-byte zlib header followed by the stored bytes. Inflate checks and strips that header. The inverse property is proved of the stand-in. No compression algorithm is modelled. The payload lengths stated by `Blocks.DeltaPayload` and `Blocks.BasePayloadLength` are facts of the stand-in, not of pako, which compresses. Pako also inflates many streams that its own deflate never emits; the stand-in rejects them.
- `Date.now()` default timestamps are not modelled. The timestamp is always a parameter.
- The `Infinity` default cutoff is `None` of an optional cutoff.
- The `Uint32Array` view of delta payloads uses host byte order in the source. The model fixes it to little-endian on both the write and the read side.
- `dateslider.js` and `genlisting.js` are not part of this model. They are user-interface and filesystem code.
- Exceptions are `Err` results. A constructor that throws is the static method `Document.WplsFile.Open`, which returns a result.
- Blocks.PayloadAt: a negative size, or a payload running past the end of the buffer, is the explicit error `Truncated`. The source's `slice` would truncate silently, or count a negative end from the back of the buffer.
- Blocks.DecodeBase: a base whose decoded length is not `width * height` is rejected (`BadBaseSize`), and so is a base holding an id of 64 or more (`InvalidId`). The source never rejects a base of the wrong length. Its render loops (wpls.js:119-126 and 225-233) draw `indices.length` ids into a `width * height * 4` buffer: stores past the end are dropped and missing pixels stay 0. `toBuffer` re-encodes such a base without complaint. An id of 64 or more fails only when it is rendered, where `PALETTE[id]` is undefined and `rgb[0]` throws (wpls.js:122 and 229). It never fails when the file is written, and it does not fail at all once a later base or delta overwrites the cell.
- Blocks.DecodeDelta: a payload that does not inflate, or whose length is not a multiple of four, is `CorruptPayload`. In the source these are pako's exception and the `RangeError` of `Uint32Array`.
- Snapshot.PngToWpls and Snapshot.WriteSnapshot: require an RGBA buffer of at least `4 * width * height` bytes. For a shorter buffer the source reads `undefined` for the missing bytes and takes the pixel as opaque (wpls.js:58-60). It then throws "unknown color" (wpls.js:61-62), except when only the final alpha byte is missing: the last pixel is then taken as opaque, and it converts if its RGB is a palette colour. Neither path is modelled.
- Snapshot.ReadUnknownAfterLog and Snapshot.ReplayDeltasUnknown: stated without a cutoff. With a cutoff, the reader stops at the first block past it, and a bad block after that point is never read. `Snapshot.ReplayAtUnknown` states both outcomes for the block itself.
- Document.Picture and Document.FileBytes: a file without a base block is `MissingBase`. The source would throw a `TypeError` on `null`.
- Document.AppendImage: when the image has the canvas's own size, requires `height <= 1024` and an RGBA buffer of at least `4 * width * height` bytes (`Document.AppendFits`). An image of another size needs neither, and is rejected as `DimensionMismatch` as in the source. The source accepts taller images, whose row field would overflow into the column bits, and reads missing pixels as `undefined`. It has no contract of its own; `Document.AppendOutcome`, `Document.AppendEntry` and `Document.AppendKeepsConsistent` state its meaning.
- Document.WplsFile.AppendPng: carries the same guarded requirement, and requires `indices` to have one id per cell, which every opened file satisfies.
- Document.WplsFile.AppendPng leaves `latestTimestamp` as it was, as the source does, so `Document.BufferRoundTrip` recomputes it.
- Document.AppendEntry and Document.AppendKeepsConsistent: hold for canvases at most 1024 cells wide. A wider column keeps only its low ten bits when read, as `Records.WideColumnAliases` shows.
- Rle.DecodeEncode: holds for non-empty arrays only. The empty array comes back as `[0]` (`Rle.DecodeEncodeEmpty`).
- Snapshot.ReadLog, Snapshot.SnapshotRoundTrip, Document.ParseLog and Document.BufferRoundTrip cover files written by the model: one leading base block and then delta blocks. Timestamps are signed 32-bit, and the grid is non-empty and below 2^30 cells, so that every size field reads back. Hand-made buffers with several base blocks are parsed and replayed by `Document.ParseFile` and `Snapshot.ReadSnapshot` as the source does. The round-trip lemmas say nothing about them.
- Snapshot.SnapshotRoundTrip: also requires every pixel to be canonical, that is transparent black or an opaque palette colour. Any other pixel is stored as id 0 or as a palette id and drawn differently, or makes `pngToWpls` throw. This is so in the source too.
- Floating-point number semantics are not modelled. Integers are unbounded, with the 16- and 32-bit wrap-around of the helpers written out.
