/** The WPLS byte layout: a 14-byte header ("WPLS", then version, width,
    height, x and y as big-endian 16-bit values) followed by blocks, each a
    9-byte head (type, then timestamp and payload size as big-endian 32-bit
    values) and a compressed payload.  A base block (type 0) carries the
    run-length encoded palette ids of the whole canvas, a delta block (type 1)
    the little-endian bytes of its packed change records. */
module Blocks {
  import opened Bytes
  import opened Errors
  import opened Palette
  import opened Rle
  import opened Compress
  import opened Records

  /** "WPLS" (lines 69 and 274). */
  const MAGIC: seq<byte> := [87, 80, 76, 83]
  /** The same four bytes read as one big-endian word (lines 85 and 159). */
  const MAGIC_WORD: int := 0x5750_4c53
  /** The only version readers accept and `pngToWpls` writes. */
  const VERSION: int := 2
  const HEADER_SIZE: nat := 14
  const BLOCK_HEAD_SIZE: nat := 9
  const BASE_BLOCK: byte := 0
  const DELTA_BLOCK: byte := 1

  /** The header fields, as `readUInt16BE` returns them. */
  datatype Header = Header(version: uint16, width: uint16, height: uint16, x: uint16, y: uint16)

  /** The 14 header bytes written for the given fields; `writeUInt16BE` keeps
      the low 16 bits of each. */
  function HeaderBytes(version: int, width: int, height: int, x: int, y: int): (b: seq<byte>)
    ensures |b| == HEADER_SIZE
  {
    MAGIC + BE16(version) + BE16(width) + BE16(height) + BE16(x) + BE16(y)
  }

  /** The header construction of `pngToWpls` (lines 68-74) and `toBuffer`
      (lines 276-282). */
  method NewHeader(version: int, width: int, height: int, x: int, y: int) returns (header: seq<byte>)
    ensures header == HeaderBytes(version, width, height, x, y)
  {
    var buf := new byte[HEADER_SIZE](_ => 0);
    buf[0], buf[1], buf[2], buf[3] := 87, 80, 76, 83;
    ghost var m := buf[..4];
    assert m == MAGIC;
    WriteUInt16BE(buf, 4, version);
    assert buf[..6] == m + BE16(version);
    WriteUInt16BE(buf, 6, width);
    assert buf[..8] == m + BE16(version) + BE16(width);
    WriteUInt16BE(buf, 8, height);
    assert buf[..10] == m + BE16(version) + BE16(width) + BE16(height);
    WriteUInt16BE(buf, 10, x);
    assert buf[..12] == m + BE16(version) + BE16(width) + BE16(height) + BE16(x);
    WriteUInt16BE(buf, 12, y);
    header := buf[..];
  }

  /** The header checks of `wplsToPng` (lines 84-90) and of the `WplsFile`
      constructor (lines 159-167).  Reads past the end of a short buffer see
      zeros, so a buffer of 6 to 13 bytes with the right magic and version
      has its missing fields read as 0. */
  function ParseHeader(buf: seq<byte>): (r: Result<Header>)
    ensures r.Ok? ==> r.value.version == VERSION
  {
    if ReadUInt32BE(buf, 0) != MAGIC_WORD then Err(BadMagic)
    else
      var version := ReadUInt16BE(buf, 4);
      if version != VERSION then Err(UnsupportedVersion(version))
      else Ok(Header(version, ReadUInt16BE(buf, 6), ReadUInt16BE(buf, 8), ReadUInt16BE(buf, 10), ReadUInt16BE(buf, 12)))
  }

  /** The magic check passes exactly when the buffer starts with "WPLS". */
  lemma MagicIff(buf: seq<byte>)
    ensures ReadUInt32BE(buf, 0) == MAGIC_WORD <==> |buf| >= 4 && buf[..4] == MAGIC
  {
    assert BE32(MAGIC_WORD) == MAGIC;
    ReadUInt32BEFacts(buf, 0);
    if |buf| >= 4 && buf[..4] == MAGIC {
      ReadUInt32BEOfWritten(buf, 0, MAGIC_WORD);
    }
  }

  /** Reading a written header gives back the low 16 bits of each field, or
      rejects the version when those bits are not 2. */
  lemma {:induction false} ParseHeaderBytes(version: int, width: int, height: int, x: int, y: int, rest: seq<byte>)
    ensures var buf := HeaderBytes(version, width, height, x, y) + rest;
      ParseHeader(buf) ==
        if version % TWO_16 != VERSION then Err(UnsupportedVersion(version % TWO_16))
        else Ok(Header(VERSION, width % TWO_16, height % TWO_16, x % TWO_16, y % TWO_16))
  {
    var buf := HeaderBytes(version, width, height, x, y) + rest;
    assert buf[..4] == MAGIC;
    MagicIff(buf);
    assert buf[4..6] == BE16(version);
    ReadUInt16BEOfMasked(buf, 4, version);
    assert buf[6..8] == BE16(width);
    ReadUInt16BEOfMasked(buf, 6, width);
    assert buf[8..10] == BE16(height);
    ReadUInt16BEOfMasked(buf, 8, height);
    assert buf[10..12] == BE16(x);
    ReadUInt16BEOfMasked(buf, 10, x);
    assert buf[12..14] == BE16(y);
    ReadUInt16BEOfMasked(buf, 12, y);
  }

  /** A version-2 header written from its own fields reads back unchanged,
      whatever follows it. */
  lemma ParseHeaderOf(h: Header, rest: seq<byte>)
    requires h.version == VERSION
    ensures ParseHeader(HeaderBytes(h.version, h.width, h.height, h.x, h.y) + rest) == Ok(h)
  {
    ParseHeaderBytes(h.version, h.width, h.height, h.x, h.y, rest);
  }


  /** The fields of a block head. */
  datatype Head = Head(kind: byte, timestamp: int, size: int)

  /** The 9 bytes of a block head. */
  function HeadBytes(kind: byte, timestamp: int, size: int): (b: seq<byte>)
    ensures |b| == BLOCK_HEAD_SIZE
  {
    [kind] + BE32(timestamp) + BE32(size)
  }

  /** The block-head construction of `pngToWpls` (lines 76-79) and `toBuffer`
      (lines 284-287, 291-294). */
  method NewHead(kind: byte, timestamp: int, size: int) returns (head: seq<byte>)
    ensures head == HeadBytes(kind, timestamp, size)
  {
    var buf := new byte[BLOCK_HEAD_SIZE](_ => 0);
    buf[0] := kind;
    WriteUInt32BE(buf, 1, timestamp);
    assert buf[..5] == [kind] + BE32(timestamp);
    WriteUInt32BE(buf, 5, size);
    head := buf[..];
  }

  /** The head read at `offset` (lines 98-100, 179-181); the timestamp and the
      size are signed, and bytes past the end read as 0. */
  function ReadHead(buf: seq<byte>, offset: nat): Head
    requires offset < |buf|
  {
    Head(buf[offset], ReadUInt32BE(buf, offset + 1), ReadUInt32BE(buf, offset + 5))
  }

  /** A written head reads back as written when its timestamp is a signed
      32-bit value and its size is below 2^31. */
  lemma ReadHeadOfBytes(pre: seq<byte>, kind: byte, timestamp: int, size: int, rest: seq<byte>)
    requires -TWO_31 <= timestamp < TWO_31 && 0 <= size < TWO_31
    ensures ReadHead(pre + HeadBytes(kind, timestamp, size) + rest, |pre|) == Head(kind, timestamp, size)
  {
    var buf := pre + HeadBytes(kind, timestamp, size) + rest;
    var o := |pre|;
    assert buf[o] == kind;
    assert buf[o + 1..o + 5] == BE32(timestamp);
    ReadUInt32BEOfInt32(buf, o + 1, timestamp);
    assert buf[o + 5..o + 9] == BE32(size);
    ReadUInt32BEOfInt32(buf, o + 5, size);
  }

  /** `buf.slice(offset, offset + blockSize)` after the head.  A negative size
      or a payload running past the end of the buffer is rejected. */
  function PayloadAt(buf: seq<byte>, offset: nat, hd: Head): (r: Result<seq<byte>>)
    ensures r.Ok? <==> 0 <= hd.size && offset + BLOCK_HEAD_SIZE + hd.size <= |buf|
    ensures r.Err? ==> r.error == Truncated
  {
    if hd.size < 0 || offset + BLOCK_HEAD_SIZE + hd.size > |buf| then Err(Truncated)
    else Ok(buf[offset + BLOCK_HEAD_SIZE..offset + BLOCK_HEAD_SIZE + hd.size])
  }

  /** A block: its head for the payload's length, then the payload. */
  function BlockBytes(kind: byte, timestamp: int, payload: seq<byte>): (b: seq<byte>)
    ensures |b| == BLOCK_HEAD_SIZE + |payload|
  {
    HeadBytes(kind, timestamp, |payload|) + payload
  }

  /** A written block reads back as its head and its payload, and the next
      block starts right after it. */
  lemma BlockOfBytes(pre: seq<byte>, kind: byte, timestamp: int, payload: seq<byte>, rest: seq<byte>)
    requires -TWO_31 <= timestamp < TWO_31 && |payload| < TWO_31
    ensures var buf := pre + BlockBytes(kind, timestamp, payload) + rest;
      && ReadHead(buf, |pre|) == Head(kind, timestamp, |payload|)
      && PayloadAt(buf, |pre|, Head(kind, timestamp, |payload|)) == Ok(payload)
  {
    var buf := pre + BlockBytes(kind, timestamp, payload) + rest;
    assert buf == pre + HeadBytes(kind, timestamp, |payload|) + (payload + rest);
    ReadHeadOfBytes(pre, kind, timestamp, |payload|, payload + rest);
    assert buf[|pre| + BLOCK_HEAD_SIZE..|pre| + BLOCK_HEAD_SIZE + |payload|] == payload;
  }

  /** A block found anywhere in a buffer reads back as its head and its
      payload. */
  lemma BlockAt(buf: seq<byte>, offset: nat, kind: byte, timestamp: int, payload: seq<byte>)
    requires -TWO_31 <= timestamp < TWO_31 && |payload| < TWO_31
    requires offset + |BlockBytes(kind, timestamp, payload)| <= |buf|
    requires buf[offset..offset + |BlockBytes(kind, timestamp, payload)|] == BlockBytes(kind, timestamp, payload)
    ensures offset < |buf| && ReadHead(buf, offset) == Head(kind, timestamp, |payload|)
    ensures PayloadAt(buf, offset, Head(kind, timestamp, |payload|)) == Ok(payload)
  {
    var b := BlockBytes(kind, timestamp, payload);
    var s := buf[offset..offset + BLOCK_HEAD_SIZE + |payload|];
    assert s == [kind] + BE32(timestamp) + BE32(|payload|) + payload;
    assert buf[offset] == s[0] == kind;
    assert s[1..5] == BE32(timestamp);
    SliceOfSlice(buf, offset, offset + BLOCK_HEAD_SIZE + |payload|, 1, 5);
    ReadUInt32BEOfInt32(buf, offset + 1, timestamp);
    assert s[5..9] == BE32(|payload|);
    SliceOfSlice(buf, offset, offset + BLOCK_HEAD_SIZE + |payload|, 5, 9);
    ReadUInt32BEOfInt32(buf, offset + 5, |payload|);
    assert s[BLOCK_HEAD_SIZE..] == payload;
    SliceOfSlice(buf, offset, offset + BLOCK_HEAD_SIZE + |payload|, BLOCK_HEAD_SIZE, BLOCK_HEAD_SIZE + |payload|);
  }

  /** Whether every id of a decoded base is a palette id. */
  predicate AllIds(s: seq<byte>)
  {
    forall i :: 0 <= i < |s| ==> s[i] < PALETTE_SIZE
  }

  /** The base payload: `rleDecode(pako.inflate(compressed))` (lines 106, 190),
      rejected unless it inflates, has one id per cell and holds palette ids
      only. */
  function DecodeBase(payload: seq<byte>, cells: nat): (r: Result<seq<PaletteId>>)
    ensures r.Ok? ==> |r.value| == cells
  {
    match Inflate(payload)
    case None => Err(CorruptPayload)
    case Some(rle) =>
      var ids := Decoded(rle);
      if |ids| != cells then Err(BadBaseSize)
      else if !AllIds(ids) then Err(InvalidId)
      else Ok(ids)
  }

  /** The base decoding of `wplsToPng` and `#parse`, with `rleDecode` run as
      its loop. */
  method ReadBase(payload: seq<byte>, cells: nat) returns (r: Result<seq<PaletteId>>)
    ensures r == DecodeBase(payload, cells)
  {
    var rle := Inflate(payload);
    if rle.None? {
      return Err(CorruptPayload);
    }
    var ids := RleDecode(rle.value);
    if |ids| != cells {
      return Err(BadBaseSize);
    }
    if !AllIds(ids) {
      return Err(InvalidId);
    }
    return Ok(ids);
  }

  /** The delta payload: `new Uint32Array(pako.inflate(compressed).buffer)`
      (lines 106, 191), rejected unless it inflates to whole words. */
  function DecodeDelta(payload: seq<byte>): (r: Result<seq<uint32>>)
  {
    match Inflate(payload)
    case None => Err(CorruptPayload)
    case Some(bytes) =>
      match BytesToWords(bytes)
      case None => Err(CorruptPayload)
      case Some(ws) => Ok(ws)
  }

  /** `pako.deflate(rleEncode(indices))` (lines 67, 271). */
  function BasePayload(ids: seq<PaletteId>): (p: seq<byte>)
  {
    Deflate(Encoded(ids))
  }

  /** `pako.deflate(new Uint8Array(new Uint32Array(diffs).buffer))` (line 289). */
  function DeltaPayload(recs: seq<uint32>): (p: seq<byte>)
    ensures |p| == 4 * |recs| + 2
  {
    InflateDeflate(WordsToBytes(recs));
    Deflate(WordsToBytes(recs))
  }

  /** A base payload is at most twice as long as the grid, plus two. */
  lemma BasePayloadLength(ids: seq<PaletteId>)
    requires |ids| > 0
    ensures |BasePayload(ids)| <= 2 * |ids| + 2
  {
    EncodedShape(ids);
    InflateDeflate(Encoded(ids));
  }

  /** A non-empty grid survives its base payload ... */
  lemma DecodeBaseOfEncoded(ids: seq<PaletteId>)
    requires |ids| > 0
    ensures DecodeBase(BasePayload(ids), |ids|) == Ok(ids)
  {
    InflateDeflate(Encoded(ids));
    DecodeEncode(ids);
  }

  /** ... but an empty grid does not: its encoding [1, 0] decodes to one id. */
  lemma DecodeBaseOfEmpty()
    ensures DecodeBase(BasePayload([]), 0) == Err(BadBaseSize)
  {
    InflateDeflate(Encoded([]));
    DecodeEncodeEmpty();
  }

  /** Every record list survives its delta payload. */
  lemma DecodeDeltaOfEncoded(recs: seq<uint32>)
    ensures DecodeDelta(DeltaPayload(recs)) == Ok(recs)
  {
    InflateDeflate(WordsToBytes(recs));
    WordsOfBytes(recs);
  }
}
