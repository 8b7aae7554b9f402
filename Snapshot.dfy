/** The single-snapshot writer `pngToWpls` (wpls.js lines 54-81) and the
    reader `wplsToPng` (lines 84-129), which replays a file's blocks up to a
    cutoff timestamp and renders the result. */
module Snapshot {
  import opened Bytes
  import opened Errors
  import opened Palette
  import opened Rle
  import opened Compress
  import opened Records
  import opened Blocks
  import opened Log

  /** `new Uint8Array(n)`: a grid of `n` zero ids. */
  function Blank(n: nat): (g: seq<PaletteId>)
    ensures |g| == n && forall i :: 0 <= i < n ==> g[i] == 0
  {
    seq(n, _ => 0)
  }

  /** The bytes `pngToWpls` returns: a version-2 header and one base block
      holding the image's ids, or the error of the first unknown colour. */
  function WriteSnapshot(data: seq<byte>, width: nat, height: nat, x: int, y: int, timestamp: int): (r: Result<seq<byte>>)
    requires 4 * (width * height) <= |data|
  {
    match ImageIds(data, width * height)
    case Err(e) => Err(e)
    case Ok(ids) => Ok(HeaderBytes(VERSION, width, height, x, y) + BaseBlock(timestamp, ids))
  }

  /** `pngToWpls(data, info, x, y, timestamp)`. */
  method PngToWpls(data: seq<byte>, width: nat, height: nat, x: int, y: int, timestamp: int) returns (res: Result<seq<byte>>)
    requires 4 * (width * height) <= |data|
    ensures res == WriteSnapshot(data, width, height, x, y, timestamp)
  {
    var ids := ConvertPixels(data, width * height);
    if ids.Err? {
      return Err(ids.error);
    }
    var encoded := RleEncode(ids.value);
    var compressed := Deflate(encoded);
    var header := NewHeader(VERSION, width, height, x, y);
    var head := NewHead(BASE_BLOCK, timestamp, |compressed|);
    var out := ConcatBuffers([header, head, compressed]);
    assert out == HeaderBytes(VERSION, width, height, x, y) + BaseBlock(timestamp, ids.value) by {
      FlattenThree(header, head, compressed);
      assert compressed == BasePayload(ids.value);
    }
    return Ok(out);
  }

  /** What `wplsToPng` returns. */
  datatype Image = Image(width: uint16, height: uint16, x: uint16, y: uint16, timestamp: int, indices: seq<PaletteId>, pixels: seq<byte>)

  /** The reader's running state: the grid and the last processed timestamp. */
  datatype View = View(indices: seq<PaletteId>, timestamp: int)

  /** What one block does to the grid: a base replaces it, a delta applies its
      records. */
  function ApplyBlock(kind: byte, payload: seq<byte>, width: nat, cells: nat, g: seq<PaletteId>): (r: Result<seq<PaletteId>>)
    requires kind == BASE_BLOCK || kind == DELTA_BLOCK
    ensures |g| == cells && r.Ok? ==> |r.value| == cells
  {
    if kind == BASE_BLOCK then DecodeBase(payload, cells)
    else
      match DecodeDelta(payload)
      case Err(e) => Err(e)
      case Ok(recs) => Ok(ApplyRecords(g, width, recs))
  }

  /** The block loop of `wplsToPng` (lines 97-117) from `offset`: it stops at
      the end of the buffer, and otherwise reads the block there. */
  function Replay(buf: seq<byte>, width: nat, cells: nat, cutoff: Option<int>, offset: nat, v: View): (r: Result<View>)
    ensures |v.indices| == cells && r.Ok? ==> |r.value.indices| == cells
    decreases |buf| - offset, 1
  {
    if offset >= |buf| then Ok(v)
    else ReplayBlock(buf, width, cells, cutoff, offset, v)
  }

  /** One turn of the block loop: it stops before a block past the cutoff,
      fails on an unknown block type or a bad payload, and otherwise applies
      the block and goes on after it. */
  function ReplayBlock(buf: seq<byte>, width: nat, cells: nat, cutoff: Option<int>, offset: nat, v: View): (r: Result<View>)
    requires offset < |buf|
    ensures |v.indices| == cells && r.Ok? ==> |r.value.indices| == cells
    decreases |buf| - offset, 0
  {
    var hd := ReadHead(buf, offset);
    if PastCutoff(hd.timestamp, cutoff) then Ok(v)
    else if hd.kind != BASE_BLOCK && hd.kind != DELTA_BLOCK then Err(UnknownBlockType(hd.kind))
    else
      match PayloadAt(buf, offset, hd)
      case Err(e) => Err(e)
      case Ok(payload) =>
        match ApplyBlock(hd.kind, payload, width, cells, v.indices)
        case Err(e) => Err(e)
        case Ok(g) => Replay(buf, width, cells, cutoff, offset + BLOCK_HEAD_SIZE + hd.size, View(g, hd.timestamp))
  }

  /** What `wplsToPng(buf, cutoff)` returns: the header's fields, the replayed
      grid, the timestamp of the last block processed (0 if none) and the
      rendered pixels. */
  function ReadSnapshot(buf: seq<byte>, cutoff: Option<int>): (r: Result<Image>)
    ensures r.Ok? ==> |r.value.indices| == r.value.width * r.value.height
    ensures r.Ok? ==> r.value.pixels == Render(r.value.indices)
  {
    match ParseHeader(buf)
    case Err(e) => Err(e)
    case Ok(h) =>
      var cells := h.width * h.height;
      match Replay(buf, h.width, cells, cutoff, HEADER_SIZE, View(Blank(cells), 0))
      case Err(e) => Err(e)
      case Ok(v) => Ok(Image(h.width, h.height, h.x, h.y, v.timestamp, v.indices, Render(v.indices)))
  }

  /** `wplsToPng(buf, cutoffTs)`. */
  method WplsToPng(buf: seq<byte>, cutoff: Option<int>) returns (res: Result<Image>)
    ensures res == ReadSnapshot(buf, cutoff)
  {
    var header := ParseHeader(buf);
    if header.Err? {
      return Err(header.error);
    }
    var h := header.value;
    var width, cells := h.width, h.width * h.height;
    var offset := HEADER_SIZE;
    var indices := new PaletteId[cells](_ => 0);
    var latest := 0;
    assert indices[..] == Blank(cells);
    ghost var goal := Replay(buf, width, cells, cutoff, HEADER_SIZE, View(Blank(cells), 0));
    while offset < |buf|
      invariant fresh(indices) && indices.Length == cells
      invariant Replay(buf, width, cells, cutoff, offset, View(indices[..], latest)) == goal
      decreases |buf| - offset
    {
      ghost var v := View(indices[..], latest);
      var hd := ReadHead(buf, offset);
      if PastCutoff(hd.timestamp, cutoff) {
        ReplayStopsAt(buf, width, cells, cutoff, offset, v);
        break;
      }
      if hd.kind != BASE_BLOCK && hd.kind != DELTA_BLOCK {
        ReplayAtUnknown(buf, width, cells, cutoff, offset, v);
        return Err(UnknownBlockType(hd.kind));
      }
      var payload := PayloadAt(buf, offset, hd);
      if payload.Err? {
        ReplayFailsAt(buf, width, cells, cutoff, offset, v, payload.error);
        return Err(payload.error);
      }
      if hd.kind == BASE_BLOCK {
        var base := ReadBase(payload.value, cells);
        if base.Err? {
          ReplayFailsAt(buf, width, cells, cutoff, offset, v, base.error);
          return Err(base.error);
        }
        var ids := base.value;
        indices := new PaletteId[cells](i requires 0 <= i < cells => ids[i]);
        assert indices[..] == ids;
      } else {
        var recs := DecodeDelta(payload.value);
        if recs.Err? {
          ReplayFailsAt(buf, width, cells, cutoff, offset, v, recs.error);
          return Err(recs.error);
        }
        ApplyRecordsInPlace(indices, width, recs.value);
      }
      ReplayStepsAt(buf, width, cells, cutoff, offset, v, indices[..]);
      latest := hd.timestamp;
      offset := offset + BLOCK_HEAD_SIZE + hd.size;
    }
    var pixels := RenderIndices(indices[..]);
    return Ok(Image(h.width, h.height, h.x, h.y, latest, indices[..], pixels));
  }

  /** A block past the cutoff ends the replay with the grid as it is. */
  lemma ReplayStopsAt(buf: seq<byte>, width: nat, cells: nat, cutoff: Option<int>, offset: nat, v: View)
    requires offset < |buf| && PastCutoff(ReadHead(buf, offset).timestamp, cutoff)
    ensures Replay(buf, width, cells, cutoff, offset, v) == Ok(v)
  {
  }

  /** A block not past the cutoff whose payload is cut short or does not
      decode ends the replay with that error. */
  lemma ReplayFailsAt(buf: seq<byte>, width: nat, cells: nat, cutoff: Option<int>, offset: nat, v: View, e: Error)
    requires offset < |buf|
    requires var hd := ReadHead(buf, offset);
      && !PastCutoff(hd.timestamp, cutoff) && (hd.kind == BASE_BLOCK || hd.kind == DELTA_BLOCK)
      && (PayloadAt(buf, offset, hd) == Err(e)
          || (PayloadAt(buf, offset, hd).Ok? && ApplyBlock(hd.kind, PayloadAt(buf, offset, hd).value, width, cells, v.indices) == Err(e)))
    ensures Replay(buf, width, cells, cutoff, offset, v) == Err(e)
  {
  }

  /** A block not past the cutoff that applies to the grid hands on to the
      next block with the new grid and the block's timestamp. */
  lemma ReplayStepsAt(buf: seq<byte>, width: nat, cells: nat, cutoff: Option<int>, offset: nat, v: View, g: seq<PaletteId>)
    requires offset < |buf|
    requires var hd := ReadHead(buf, offset);
      && !PastCutoff(hd.timestamp, cutoff) && (hd.kind == BASE_BLOCK || hd.kind == DELTA_BLOCK)
      && PayloadAt(buf, offset, hd).Ok?
      && ApplyBlock(hd.kind, PayloadAt(buf, offset, hd).value, width, cells, v.indices) == Ok(g)
    ensures var hd := ReadHead(buf, offset);
      Replay(buf, width, cells, cutoff, offset, v) == Replay(buf, width, cells, cutoff, offset + BLOCK_HEAD_SIZE + hd.size, View(g, hd.timestamp))
  {
  }

  /** At a delta block the replay stops if the block is past the cutoff and
      otherwise applies the block's records and moves past it. */
  lemma ReplayAtDelta(buf: seq<byte>, width: nat, cells: nat, cutoff: Option<int>, offset: nat, v: View, d: Delta)
    requires offset < |buf| && |v.indices| == cells
    requires ReadHead(buf, offset) == Head(DELTA_BLOCK, d.timestamp, |DeltaPayload(d.records)|)
    requires PayloadAt(buf, offset, ReadHead(buf, offset)) == Ok(DeltaPayload(d.records))
    ensures PastCutoff(d.timestamp, cutoff) ==> Replay(buf, width, cells, cutoff, offset, v) == Ok(v)
    ensures !PastCutoff(d.timestamp, cutoff) ==>
      Replay(buf, width, cells, cutoff, offset, v) == Replay(buf, width, cells, cutoff, offset + |DeltaBlock(d)|, View(ApplyRecords(v.indices, width, d.records), d.timestamp))
  {
    DecodeDeltaOfEncoded(d.records);
  }

  /** A delta block not past the cutoff hands on whatever the replay after it
      gives. */
  lemma ReplayThroughDelta(buf: seq<byte>, width: nat, cells: nat, cutoff: Option<int>, offset: nat, v: View, d: Delta, r: Result<View>)
    requires DeltaAt(buf, offset, d) && |v.indices| == cells && !PastCutoff(d.timestamp, cutoff)
    requires Replay(buf, width, cells, cutoff, offset + |DeltaBlock(d)|, View(ApplyRecords(v.indices, width, d.records), d.timestamp)) == r
    ensures Replay(buf, width, cells, cutoff, offset, v) == r
  {
    ReplayAtDelta(buf, width, cells, cutoff, offset, v, d);
  }

  /** The tail of a writable log is writable. */
  lemma WritableTail(ds: seq<Delta>)
    requires |ds| > 0 && Writable(ds)
    ensures Writable(ds[1..])
  {
    forall i | 0 <= i < |ds[1..]|
      ensures -TWO_31 <= ds[1..][i].timestamp < TWO_31 && 4 * |ds[1..][i].records| + 2 < TWO_31
    {
      assert ds[1..][i] == ds[i + 1];
    }
  }

  /** The head and payload of an entry's delta block read back at `offset`. */
  predicate DeltaAt(buf: seq<byte>, offset: nat, d: Delta)
  {
    && offset < |buf|
    && ReadHead(buf, offset) == Head(DELTA_BLOCK, d.timestamp, |DeltaPayload(d.records)|)
    && PayloadAt(buf, offset, ReadHead(buf, offset)) == Ok(DeltaPayload(d.records))
  }

  /** The delta blocks of a log read back one after the other from `offset`. */
  predicate DeltasAt(buf: seq<byte>, offset: nat, ds: seq<Delta>)
    decreases |ds|
  {
    |ds| == 0 || (DeltaAt(buf, offset, ds[0]) && DeltasAt(buf, offset + |DeltaBlock(ds[0])|, ds[1..]))
  }

  /** Written delta blocks read back. */
  lemma {:induction false} DeltasAtOfBytes(buf: seq<byte>, offset: nat, ds: seq<Delta>, rest: seq<byte>)
    requires Writable(ds)
    requires offset <= |buf| && buf[offset..] == DeltaBlocks(ds) + rest
    ensures DeltasAt(buf, offset, ds)
    decreases |ds|
  {
    if |ds| > 0 {
      var d := ds[0];
      var db := DeltaBlock(d);
      var tail := DeltaBlocks(ds[1..]);
      assert DeltaBlocks(ds) + rest == db + (tail + rest);
      SplitAt(buf, offset, db, tail + rest);
      BlockAt(buf, offset, DELTA_BLOCK, d.timestamp, DeltaPayload(d.records));
      WritableTail(ds);
      DeltasAtOfBytes(buf, offset + |db|, ds[1..], rest);
    }
  }

  /** The delta blocks at the end of a buffer, replayed from `v`, apply the
      entries up to the cutoff and report the last of their timestamps. */
  lemma {:induction false} ReplayDeltas(buf: seq<byte>, offset: nat, ds: seq<Delta>, width: nat, cells: nat, cutoff: Option<int>, v: View)
    requires |v.indices| == cells
    requires DeltasAt(buf, offset, ds) && offset + |DeltaBlocks(ds)| == |buf|
    ensures var up := DeltasUpTo(ds, cutoff);
      Replay(buf, width, cells, cutoff, offset, v) == Ok(View(ApplyDeltas(v.indices, width, up), LastTimestamp(v.timestamp, up)))
    decreases |ds|
  {
    var up := DeltasUpTo(ds, cutoff);
    if |ds| == 0 {
      assert up == [];
    } else {
      var d := ds[0];
      ReplayAtDelta(buf, width, cells, cutoff, offset, v, d);
      if PastCutoff(d.timestamp, cutoff) {
        assert up == [];
      } else {
        var v' := View(ApplyRecords(v.indices, width, d.records), d.timestamp);
        var up' := DeltasUpTo(ds[1..], cutoff);
        assert DeltaBlocks(ds) == DeltaBlock(d) + DeltaBlocks(ds[1..]);
        ReplayDeltas(buf, offset + |DeltaBlock(d)|, ds[1..], width, cells, cutoff, v');
        assert up == [d] + up';
        ApplyDeltasCons(v.indices, width, d, up');
      }
    }
  }

  /** At a base block of a non-empty grid the replay stops if the block is
      past the cutoff and otherwise replaces the grid and moves past it. */
  lemma ReplayAtBase(buf: seq<byte>, width: nat, cells: nat, cutoff: Option<int>, offset: nat, v: View, timestamp: int, base: seq<PaletteId>)
    requires offset < |buf| && |v.indices| == cells && |base| == cells > 0
    requires ReadHead(buf, offset) == Head(BASE_BLOCK, timestamp, |BasePayload(base)|)
    requires PayloadAt(buf, offset, ReadHead(buf, offset)) == Ok(BasePayload(base))
    ensures PastCutoff(timestamp, cutoff) ==> Replay(buf, width, cells, cutoff, offset, v) == Ok(v)
    ensures !PastCutoff(timestamp, cutoff) ==>
      Replay(buf, width, cells, cutoff, offset, v) == Replay(buf, width, cells, cutoff, offset + |BaseBlock(timestamp, base)|, View(base, timestamp))
  {
    DecodeBaseOfEncoded(base);
  }

  /** A base block not past the cutoff hands on whatever the replay after it
      gives. */
  lemma ReplayThroughBase(buf: seq<byte>, width: nat, cells: nat, cutoff: Option<int>, offset: nat, v: View, timestamp: int, base: seq<PaletteId>, r: Result<View>)
    requires offset < |buf| && |v.indices| == cells && |base| == cells > 0
    requires ReadHead(buf, offset) == Head(BASE_BLOCK, timestamp, |BasePayload(base)|)
    requires PayloadAt(buf, offset, ReadHead(buf, offset)) == Ok(BasePayload(base))
    requires !PastCutoff(timestamp, cutoff)
    requires Replay(buf, width, cells, cutoff, offset + |BaseBlock(timestamp, base)|, View(base, timestamp)) == r
    ensures Replay(buf, width, cells, cutoff, offset, v) == r
  {
    ReplayAtBase(buf, width, cells, cutoff, offset, v, timestamp, base);
  }

  /** A base block and then the delta blocks of a log read back from
      `offset` to the end of the buffer. */
  predicate LogAt(buf: seq<byte>, offset: nat, baseTimestamp: int, base: seq<PaletteId>, ds: seq<Delta>)
  {
    var next := offset + |BaseBlock(baseTimestamp, base)|;
    && offset < |buf|
    && ReadHead(buf, offset) == Head(BASE_BLOCK, baseTimestamp, |BasePayload(base)|)
    && PayloadAt(buf, offset, ReadHead(buf, offset)) == Ok(BasePayload(base))
    && DeltasAt(buf, next, ds) && next + |DeltaBlocks(ds)| == |buf|
  }

  /** A written base block and delta blocks read back. */
  lemma LogAtOfBytes(buf: seq<byte>, offset: nat, baseTimestamp: int, base: seq<PaletteId>, ds: seq<Delta>)
    requires |base| > 0
    requires -TWO_31 <= baseTimestamp < TWO_31 && |base| < 0x3fff_ffff && Writable(ds)
    requires offset <= |buf| && buf[offset..] == BaseBlock(baseTimestamp, base) + DeltaBlocks(ds)
    ensures LogAt(buf, offset, baseTimestamp, base, ds)
  {
    var bb := BaseBlock(baseTimestamp, base);
    BasePayloadLength(base);
    SplitAt(buf, offset, bb, DeltaBlocks(ds));
    BlockAt(buf, offset, BASE_BLOCK, baseTimestamp, BasePayload(base));
    DeltasAtOfBytes(buf, offset + |bb|, ds, []);
  }

  /** A base block followed by the delta blocks of a log, at the end of a
      buffer: the replay stops at once if the base is past the cutoff, and
      otherwise shows the base with the entries up to the cutoff applied. */
  lemma ReplayLog(buf: seq<byte>, offset: nat, baseTimestamp: int, base: seq<PaletteId>, ds: seq<Delta>, width: nat, cells: nat, cutoff: Option<int>, v: View)
    requires |base| == cells > 0 && |v.indices| == cells
    requires LogAt(buf, offset, baseTimestamp, base, ds)
    ensures var up := DeltasUpTo(ds, cutoff);
      Replay(buf, width, cells, cutoff, offset, v) ==
        if PastCutoff(baseTimestamp, cutoff) then Ok(v)
        else Ok(View(ApplyDeltas(base, width, up), LastTimestamp(baseTimestamp, up)))
  {
    DecodeBaseOfEncoded(base);
    if PastCutoff(baseTimestamp, cutoff) {
      assert Replay(buf, width, cells, cutoff, offset, v) == Ok(v) by {
        ReplayAtBase(buf, width, cells, cutoff, offset, v, baseTimestamp, base);
      }
    } else {
      var next := offset + |BaseBlock(baseTimestamp, base)|;
      var w := View(base, baseTimestamp);
      assert Replay(buf, width, cells, cutoff, offset, v) == Replay(buf, width, cells, cutoff, next, w) by {
        ReplayAtBase(buf, width, cells, cutoff, offset, v, baseTimestamp, base);
      }
      var up := DeltasUpTo(ds, cutoff);
      assert Replay(buf, width, cells, cutoff, next, w) == Ok(View(ApplyDeltas(base, width, up), LastTimestamp(baseTimestamp, up))) by {
        assert DeltasAt(buf, next, ds) && next + |DeltaBlocks(ds)| == |buf|;
        ReplayDeltas(buf, next, ds, width, cells, cutoff, w);
      }
    }
  }

  /** At a block whose type is neither 0 nor 1 the replay stops if the block
      is past the cutoff, and otherwise fails with that type (line 116). */
  lemma ReplayAtUnknown(buf: seq<byte>, width: nat, cells: nat, cutoff: Option<int>, offset: nat, v: View)
    requires offset < |buf| && buf[offset] != BASE_BLOCK && buf[offset] != DELTA_BLOCK
    ensures Replay(buf, width, cells, cutoff, offset, v) ==
      if PastCutoff(ReadHead(buf, offset).timestamp, cutoff) then Ok(v) else Err(UnknownBlockType(buf[offset]))
  {
  }

  /** Delta blocks followed by a block of another type replay without cutoff
      to that block's rejection. */
  lemma {:induction false} ReplayDeltasUnknown(buf: seq<byte>, offset: nat, ds: seq<Delta>, k: byte, width: nat, cells: nat, v: View)
    requires |v.indices| == cells && DeltasAt(buf, offset, ds)
    requires k != BASE_BLOCK && k != DELTA_BLOCK
    requires offset + |DeltaBlocks(ds)| < |buf| && buf[offset + |DeltaBlocks(ds)|] == k
    ensures Replay(buf, width, cells, None, offset, v) == Err(UnknownBlockType(k))
    decreases |ds|
  {
    if |ds| == 0 {
      ReplayAtUnknown(buf, width, cells, None, offset, v);
    } else {
      var d := ds[0];
      var mid := offset + |DeltaBlock(d)|;
      var v' := View(ApplyRecords(v.indices, width, d.records), d.timestamp);
      assert DeltaAt(buf, offset, d) && DeltasAt(buf, mid, ds[1..]);
      assert mid + |DeltaBlocks(ds[1..])| == offset + |DeltaBlocks(ds)| by {
        assert DeltaBlocks(ds) == DeltaBlock(d) + DeltaBlocks(ds[1..]);
      }
      ReplayDeltasUnknown(buf, mid, ds[1..], k, width, cells, v');
      assert Replay(buf, width, cells, None, offset + |DeltaBlock(d)|, View(ApplyRecords(v.indices, width, d.records), d.timestamp)) == Err(UnknownBlockType(k));
      ReplayThroughDelta(buf, width, cells, None, offset, v, d, Err(UnknownBlockType(k)));
    }
  }

  /** A written log followed by further bytes: the header reads back and
      the blocks, then the further bytes, start at byte 14. */
  lemma LogThenLayout(h: Header, baseTimestamp: int, base: seq<PaletteId>, ds: seq<Delta>, tail: seq<byte>)
    requires h.version == VERSION
    ensures var buf := LogBytes(h, baseTimestamp, base, ds) + tail;
      && ParseHeader(buf) == Ok(h)
      && HEADER_SIZE <= |buf| && buf[HEADER_SIZE..] == BaseBlock(baseTimestamp, base) + (DeltaBlocks(ds) + tail)
  {
    var hb := HeaderBytes(h.version, h.width, h.height, h.x, h.y);
    var rest := BaseBlock(baseTimestamp, base) + (DeltaBlocks(ds) + tail);
    var buf := LogBytes(h, baseTimestamp, base, ds) + tail;
    assert ParseHeader(buf) == Ok(h) by {
      assert buf == hb + rest;
      ParseHeaderOf(h, rest);
    }
    assert buf[HEADER_SIZE..] == rest by {
      assert buf == hb + rest;
      SplitAt(buf, 0, hb, rest);
    }
  }

  /** Written delta blocks followed by a block of another type make the
      replay without cutoff fail at that block. */
  lemma ReplayUnknownAfterDeltas(buf: seq<byte>, offset: nat, ds: seq<Delta>, k: byte, tail: seq<byte>, width: nat, cells: nat, v: View)
    requires |v.indices| == cells && Writable(ds)
    requires k != BASE_BLOCK && k != DELTA_BLOCK
    requires offset <= |buf| && buf[offset..] == DeltaBlocks(ds) + ([k] + tail)
    ensures Replay(buf, width, cells, None, offset, v) == Err(UnknownBlockType(k))
  {
    var end := offset + |DeltaBlocks(ds)|;
    assert end < |buf| && buf[end] == k by {
      SplitAt(buf, offset, DeltaBlocks(ds), [k] + tail);
    }
    DeltasAtOfBytes(buf, offset, ds, [k] + tail);
    ReplayDeltasUnknown(buf, offset, ds, k, width, cells, v);
  }

  /** A written base block and delta blocks followed by a block of another
      type make the replay without cutoff fail at that block. */
  lemma ReplayUnknownAfterBlocks(buf: seq<byte>, offset: nat, baseTimestamp: int, base: seq<PaletteId>, ds: seq<Delta>, k: byte, tail: seq<byte>, width: nat, cells: nat, v: View)
    requires |base| == cells > 0 && |v.indices| == cells
    requires -TWO_31 <= baseTimestamp < TWO_31 && |base| < 0x3fff_ffff && Writable(ds)
    requires k != BASE_BLOCK && k != DELTA_BLOCK
    requires offset <= |buf| && buf[offset..] == BaseBlock(baseTimestamp, base) + (DeltaBlocks(ds) + ([k] + tail))
    ensures Replay(buf, width, cells, None, offset, v) == Err(UnknownBlockType(k))
  {
    var bb := BaseBlock(baseTimestamp, base);
    var next := offset + |bb|;
    BasePayloadLength(base);
    SplitAt(buf, offset, bb, DeltaBlocks(ds) + ([k] + tail));
    ReplayUnknownAfterDeltas(buf, next, ds, k, tail, width, cells, View(base, baseTimestamp));
    BlockAt(buf, offset, BASE_BLOCK, baseTimestamp, BasePayload(base));
    ReplayThroughBase(buf, width, cells, None, offset, v, baseTimestamp, base, Err(UnknownBlockType(k)));
  }

  /** A block of another type after a written log makes the reader fail when
      there is no cutoff: `wplsToPng` rejects it wherever it comes. */
  lemma ReadUnknownAfterLog(h: Header, baseTimestamp: int, base: seq<PaletteId>, ds: seq<Delta>, k: byte, tail: seq<byte>)
    requires h.version == VERSION && |base| == h.width * h.height > 0
    requires -TWO_31 <= baseTimestamp < TWO_31 && |base| < 0x3fff_ffff && Writable(ds)
    requires k != BASE_BLOCK && k != DELTA_BLOCK
    ensures ReadSnapshot(LogBytes(h, baseTimestamp, base, ds) + ([k] + tail), None) == Err(UnknownBlockType(k))
  {
    var cells := h.width * h.height;
    var buf := LogBytes(h, baseTimestamp, base, ds) + ([k] + tail);
    LogThenLayout(h, baseTimestamp, base, ds, [k] + tail);
    ReplayUnknownAfterBlocks(buf, HEADER_SIZE, baseTimestamp, base, ds, k, tail, h.width, cells, View(Blank(cells), 0));
  }

  /** A written log starts with its header and continues with its blocks. */
  lemma LogLayout(h: Header, baseTimestamp: int, base: seq<PaletteId>, ds: seq<Delta>)
    requires h.version == VERSION
    ensures var buf := LogBytes(h, baseTimestamp, base, ds);
      && ParseHeader(buf) == Ok(h)
      && HEADER_SIZE <= |buf| && buf[HEADER_SIZE..] == BaseBlock(baseTimestamp, base) + DeltaBlocks(ds)
  {
    var hb := HeaderBytes(h.version, h.width, h.height, h.x, h.y);
    var rest := BaseBlock(baseTimestamp, base) + DeltaBlocks(ds);
    ParseHeaderBytes(h.version, h.width, h.height, h.x, h.y, rest);
    assert (hb + rest)[HEADER_SIZE..] == rest;
  }

  /** What the reader returns for a buffer whose header parses and whose
      blocks replay. */
  lemma ReadSnapshotOf(buf: seq<byte>, h: Header, cutoff: Option<int>, v: View)
    requires ParseHeader(buf) == Ok(h)
    requires Replay(buf, h.width, h.width * h.height, cutoff, HEADER_SIZE, View(Blank(h.width * h.height), 0)) == Ok(v)
    ensures ReadSnapshot(buf, cutoff) == Ok(Image(h.width, h.height, h.x, h.y, v.timestamp, v.indices, Render(v.indices)))
  {
  }

  /** A written log, read with a cutoff, shows the base with the entries up
      to the cutoff applied and the timestamp of the last block processed; a
      base past the cutoff leaves the blank grid and timestamp 0. */
  lemma ReadLog(h: Header, baseTimestamp: int, base: seq<PaletteId>, ds: seq<Delta>, cutoff: Option<int>)
    requires h.version == VERSION && |base| == h.width * h.height > 0
    requires -TWO_31 <= baseTimestamp < TWO_31 && |base| < 0x3fff_ffff && Writable(ds)
    ensures var cells := h.width * h.height;
      var up := DeltasUpTo(ds, cutoff);
      var g := ApplyDeltas(base, h.width, up);
      ReadSnapshot(LogBytes(h, baseTimestamp, base, ds), cutoff) ==
        if PastCutoff(baseTimestamp, cutoff) then Ok(Image(h.width, h.height, h.x, h.y, 0, Blank(cells), Render(Blank(cells))))
        else Ok(Image(h.width, h.height, h.x, h.y, LastTimestamp(baseTimestamp, up), g, Render(g)))
  {
    var cells := h.width * h.height;
    var buf := LogBytes(h, baseTimestamp, base, ds);
    var up := DeltasUpTo(ds, cutoff);
    LogLayout(h, baseTimestamp, base, ds);
    LogAtOfBytes(buf, HEADER_SIZE, baseTimestamp, base, ds);
    ReplayLog(buf, HEADER_SIZE, baseTimestamp, base, ds, h.width, cells, cutoff, View(Blank(cells), 0));
    if PastCutoff(baseTimestamp, cutoff) {
      ReadSnapshotOf(buf, h, cutoff, View(Blank(cells), 0));
    } else {
      ReadSnapshotOf(buf, h, cutoff, View(ApplyDeltas(base, h.width, up), LastTimestamp(baseTimestamp, up)));
    }
  }

  /** Reading what `pngToWpls` wrote gives back the image: the same header
      fields, ids and pixels, stamped with the written timestamp, unless that
      timestamp is past the cutoff. */
  lemma SnapshotRoundTrip(data: seq<byte>, width: uint16, height: uint16, x: uint16, y: uint16, timestamp: int, cutoff: Option<int>)
    requires 0 < width * height < 0x3fff_ffff && 4 * (width * height) <= |data|
    requires forall i :: 0 <= i < width * height ==> CanonicalPixel(data, i)
    requires -TWO_31 <= timestamp < TWO_31
    ensures WriteSnapshot(data, width, height, x, y, timestamp).Ok?
    ensures var cells := width * height;
      ReadSnapshot(WriteSnapshot(data, width, height, x, y, timestamp).value, cutoff) ==
        if PastCutoff(timestamp, cutoff) then Ok(Image(width, height, x, y, 0, Blank(cells), Render(Blank(cells))))
        else Ok(Image(width, height, x, y, timestamp, ImageIds(data, cells).value, data[..4 * cells]))
  {
    var cells := width * height;
    RenderOfImage(data, cells);
    var ids := ImageIds(data, cells).value;
    var h := Header(VERSION, width, height, x, y);
    assert WriteSnapshot(data, width, height, x, y, timestamp).value == LogBytes(h, timestamp, ids, []);
    ReadLog(h, timestamp, ids, [], cutoff);
  }

  /** The reported timestamp is the last processed block's, not the largest:
      a log whose later entry is older reports the older one. */
  lemma LastNotLatest(h: Header, base: seq<PaletteId>)
    requires h.version == VERSION && |base| == h.width * h.height > 0 && |base| < 0x3fff_ffff
    ensures var ds := [Delta(20, []), Delta(10, [])];
      ReadSnapshot(LogBytes(h, 5, base, ds), None).Ok?
      && ReadSnapshot(LogBytes(h, 5, base, ds), None).value.timestamp == 10
  {
    var ds := [Delta(20, []), Delta(10, [])];
    DeltasUpToAll(ds);
    ReadLog(h, 5, base, ds, None);
  }
}
