/** The `WplsFile` class of wpls.js (lines 143-299): an editable WPLS file
    that holds its header, its base snapshot, its delta log and the grid the
    log has materialised, and that renders, extends and writes itself. */
module Document {
  import opened Bytes
  import opened Errors
  import opened Palette
  import opened Rle
  import opened Compress
  import opened Records
  import opened Blocks
  import opened Log
  import opened Snapshot

  /** `metadata.baseTimestamp` and `baseIndices`, which `#parse` always sets
      together (lines 191-192). */
  datatype Base = Base(timestamp: int, indices: seq<PaletteId>)

  /** What `#parse` builds up while it walks the blocks: the largest
      timestamp so far, the last base, the materialised grid and the log. */
  datatype Parsed = Parsed(latest: int, base: Option<Base>, indices: seq<PaletteId>, deltas: seq<Delta>)

  /** The whole state of a `WplsFile`. */
  datatype FileState = FileState(header: Header, latestTimestamp: int, base: Option<Base>, indices: seq<PaletteId>, deltas: seq<Delta>)

  /** The grid and the base of a partial parse have one id per cell. */
  predicate Sized(p: Parsed, cells: nat)
  {
    |p.indices| == cells && (p.base.Some? ==> |p.base.value.indices| == cells)
  }

  /** The block loop of `#parse` (lines 178-204) from `offset`: it runs to the
      end of the buffer. */
  function ParseBlocks(buf: seq<byte>, width: nat, cells: nat, offset: nat, p: Parsed): (r: Result<Parsed>)
    ensures Sized(p, cells) && r.Ok? ==> Sized(r.value, cells)
    decreases |buf| - offset, 1
  {
    if offset >= |buf| then Ok(p)
    else ParseBlock(buf, width, cells, offset, p)
  }

  /** One turn of that loop: the largest timestamp is updated, a block type
      other than 0 or 1 is rejected, a base replaces the grid and the base, a
      delta applies its records and joins the log. */
  function ParseBlock(buf: seq<byte>, width: nat, cells: nat, offset: nat, p: Parsed): (r: Result<Parsed>)
    requires offset < |buf|
    ensures Sized(p, cells) && r.Ok? ==> Sized(r.value, cells)
    decreases |buf| - offset, 0
  {
    var hd := ReadHead(buf, offset);
    var latest := if hd.timestamp > p.latest then hd.timestamp else p.latest;
    if hd.kind != BASE_BLOCK && hd.kind != DELTA_BLOCK then Err(UnknownBlockType(hd.kind))
    else
      match PayloadAt(buf, offset, hd)
      case Err(e) => Err(e)
      case Ok(payload) =>
        var next := offset + BLOCK_HEAD_SIZE + hd.size;
        if hd.kind == BASE_BLOCK then
          match DecodeBase(payload, cells)
          case Err(e) => Err(e)
          case Ok(g) => ParseBlocks(buf, width, cells, next, Parsed(latest, Some(Base(hd.timestamp, g)), g, p.deltas))
        else
          match DecodeDelta(payload)
          case Err(e) => Err(e)
          case Ok(recs) =>
            ParseBlocks(buf, width, cells, next, Parsed(latest, p.base, ApplyRecords(p.indices, width, recs), p.deltas + [Delta(hd.timestamp, recs)]))
  }

  /** The grids of a state have one id per cell. */
  predicate WellFormed(s: FileState)
  {
    && |s.indices| == s.header.width * s.header.height
    && (s.base.Some? ==> |s.base.value.indices| == s.header.width * s.header.height)
  }

  /** What `new WplsFile(buf)` builds (lines 158-208), or why it throws. */
  function ParseFile(buf: seq<byte>): (r: Result<FileState>)
    ensures r.Ok? ==> WellFormed(r.value) && r.value.header.version == VERSION
  {
    match ParseHeader(buf)
    case Err(e) => Err(e)
    case Ok(h) =>
      var cells := h.width * h.height;
      match ParseBlocks(buf, h.width, cells, HEADER_SIZE, Parsed(0, None, Blank(cells), []))
      case Err(e) => Err(e)
      case Ok(p) => Ok(FileState(h, p.latest, p.base, p.indices, p.deltas))
  }

  /** The class invariant the log is meant to keep: there is a base, and the
      materialised grid is the base with every entry applied in order. */
  predicate Consistent(s: FileState)
  {
    s.base.Some? && s.indices == ApplyDeltas(s.base.value.indices, s.header.width, s.deltas)
  }

  /** What `toPng(cutoff)` returns (lines 210-235): the base with the entries
      up to the cutoff applied, rendered; without a base `baseIndices.slice()`
      throws. */
  function Picture(s: FileState, cutoff: Option<int>): (r: Result<seq<byte>>)
    ensures r.Ok? <==> s.base.Some?
    ensures r.Err? ==> r.error == MissingBase
    ensures r.Ok? ==> |r.value| == 4 * |s.base.value.indices|
    ensures r.Ok? && |s.base.value.indices| == s.header.width * s.header.height ==>
      |r.value| == 4 * (s.header.width * s.header.height)
  {
    match s.base
    case None => Err(MissingBase)
    case Some(b) => Ok(Render(ApplyDeltas(b.indices, s.header.width, DeltasUpTo(s.deltas, cutoff))))
  }

  /** The outcome of `appendPng`: whether an entry was added, and the new
      state. */
  datatype Appended = Appended(changed: bool, state: FileState)

  /** What the model needs of an image appended to a canvas of its own size:
      at most 1024 rows and a full RGBA buffer. An image of another size is
      rejected before any pixel is read, so it needs neither. */
  predicate AppendFits(h: Header, data: seq<byte>, width: nat, height: nat)
  {
    h.width == width && h.height == height ==> 4 * (width * height) <= |data| && height <= 1024
  }

  /** What `appendPng(data, {width, height}, timestamp)` does (lines 237-267):
      it rejects another size and unknown colours, returns false without
      change when no cell differs, and otherwise logs the diff and adopts the
      new grid. */
  function AppendImage(s: FileState, data: seq<byte>, width: nat, height: nat, timestamp: int): (r: Result<Appended>)
    requires |s.indices| == s.header.width * s.header.height
    requires AppendFits(s.header, data, width, height)
  {
    if s.header.width != width || s.header.height != height then Err(DimensionMismatch)
    else
      match ImageIds(data, width * height)
      case Err(e) => Err(e)
      case Ok(g) =>
        GridFits(width, height);
        var d := Diff(s.indices, g, width, width * height);
        if |d| == 0 then Ok(Appended(false, s))
        else Ok(Appended(true, s.(indices := g, deltas := s.deltas + [Delta(timestamp, d)])))
  }

  /** The bytes `toBuffer()` returns (lines 269-298); without a base
      `rleEncode(null)` throws. */
  function FileBytes(s: FileState): (r: Result<seq<byte>>)
    ensures r.Ok? <==> s.base.Some?
    ensures r.Err? ==> r.error == MissingBase
  {
    match s.base
    case None => Err(MissingBase)
    case Some(b) => Ok(LogBytes(s.header, b.timestamp, b.indices, s.deltas))
  }

  /** The work of `appendPng` on a state (lines 238-266): the size check,
      the pixel loop, the diff loop, then the outcome. */
  method Append(s: FileState, data: seq<byte>, width: nat, height: nat, timestamp: int) returns (r: Result<Appended>)
    requires |s.indices| == s.header.width * s.header.height
    requires AppendFits(s.header, data, width, height)
    ensures r == AppendImage(s, data, width, height, timestamp)
  {
    if s.header.width != width || s.header.height != height {
      return Err(DimensionMismatch);
    }
    var newIndices := ConvertPixels(data, width * height);
    if newIndices.Err? {
      return Err(newIndices.error);
    }
    var g := newIndices.value;
    GridFits(width, height);
    var diffs := DiffCells(s.indices, g, width);
    if |diffs| == 0 {
      return Ok(Appended(false, s));
    }
    return Ok(Appended(true, s.(indices := g, deltas := s.deltas + [Delta(timestamp, diffs)])));
  }

  /** The first parts `toBuffer` collects in `out` (line 286): the header and
      the base block's head and payload. */
  function BaseParts(h: Header, b: Base): seq<seq<byte>>
  {
    [HeaderBytes(h.version, h.width, h.height, h.x, h.y), HeadBytes(BASE_BLOCK, b.timestamp, |BasePayload(b.indices)|), BasePayload(b.indices)]
  }

  /** The parts it pushes for the entries (lines 288-295): each entry's head
      and payload, in log order. */
  function DeltaParts(ds: seq<Delta>): seq<seq<byte>>
  {
    if |ds| == 0 then []
    else
      var d := ds[|ds| - 1];
      DeltaParts(ds[..|ds| - 1]) + [HeadBytes(DELTA_BLOCK, d.timestamp, |DeltaPayload(d.records)|), DeltaPayload(d.records)]
  }

  /** The entries' parts laid after any others are their delta blocks. */
  lemma {:induction false} FlattenDeltaParts(parts: seq<seq<byte>>, ds: seq<Delta>)
    ensures Flatten(parts + DeltaParts(ds)) == Flatten(parts) + DeltaBlocks(ds)
  {
    if |ds| == 0 {
      assert parts + DeltaParts(ds) == parts;
      assert DeltaBlocks(ds) == [];
    } else {
      var init, d := ds[..|ds| - 1], ds[|ds| - 1];
      var head, payload := HeadBytes(DELTA_BLOCK, d.timestamp, |DeltaPayload(d.records)|), DeltaPayload(d.records);
      var prefix := parts + DeltaParts(init);
      assert init + [d] == ds;
      calc {
        Flatten(parts + DeltaParts(ds));
        { assert parts + DeltaParts(ds) == prefix + [head] + [payload]; }
        Flatten(prefix + [head] + [payload]);
        { FlattenSnoc(prefix + [head], payload); FlattenSnoc(prefix, head); }
        Flatten(prefix) + head + payload;
        { FlattenDeltaParts(parts, init); }
        Flatten(parts) + DeltaBlocks(init) + head + payload;
        { assert DeltaBlock(d) == head + payload; }
        Flatten(parts) + (DeltaBlocks(init) + DeltaBlock(d));
        { DeltaBlocksSnoc(init, d); }
        Flatten(parts) + DeltaBlocks(ds);
      }
    }
  }

  /** All the parts laid end to end are the file. */
  lemma FlattenLogParts(h: Header, b: Base, ds: seq<Delta>)
    ensures Flatten(BaseParts(h, b) + DeltaParts(ds)) == LogBytes(h, b.timestamp, b.indices, ds)
  {
    FlattenThree(HeaderBytes(h.version, h.width, h.height, h.x, h.y), HeadBytes(BASE_BLOCK, b.timestamp, |BasePayload(b.indices)|), BasePayload(b.indices));
    FlattenDeltaParts(BaseParts(h, b), ds);
  }

  /** The delta loop of `toPng` (lines 212-223): a copy of the base, with the
      entries applied in place in log order until the first one past the
      cutoff. */
  method ApplyUpTo(b: seq<PaletteId>, width: nat, ds: seq<Delta>, cutoff: Option<int>) returns (g: seq<PaletteId>)
    ensures g == ApplyDeltas(b, width, DeltasUpTo(ds, cutoff))
  {
    var grid := new PaletteId[|b|](i requires 0 <= i < |b| => b[i]);
    assert grid[..] == ApplyDeltas(b, width, ds[..0]);
    var i := 0;
    while i < |ds|
      invariant i <= |ds|
      invariant grid[..] == ApplyDeltas(b, width, ds[..i])
      invariant forall j :: 0 <= j < i ==> !PastCutoff(ds[j].timestamp, cutoff)
    {
      if PastCutoff(ds[i].timestamp, cutoff) {
        break;
      }
      ApplyRecordsInPlace(grid, width, ds[i].records);
      ApplyDeltasSnoc(b, width, ds[..i], ds[i]);
      assert ds[..i + 1] == ds[..i] + [ds[i]];
      i := i + 1;
    }
    DeltasUpToIs(ds, cutoff, i);
    g := grid[..];
  }

  /** An open WPLS file. */
  class WplsFile {
    var header: Header
    var latestTimestamp: int
    var base: Option<Base>
    var indices: seq<PaletteId>
    var deltas: seq<Delta>

    /** The fields as one value. */
    function State(): FileState
      reads this
    {
      FileState(header, latestTimestamp, base, indices, deltas)
    }

    /** A file holding the given state. */
    constructor (s: FileState)
      ensures State() == s
    {
      header, latestTimestamp, base, indices, deltas := s.header, s.latestTimestamp, s.base, s.indices, s.deltas;
    }

    /** `new WplsFile(buf)`: the header checks, then the block loop of
        `#parse` over an `offset` cursor, writing the records of each delta
        into the grid in place. */
    static method Open(buf: seq<byte>) returns (r: Result<WplsFile>)
      ensures r.Ok? <==> ParseFile(buf).Ok?
      ensures r.Err? ==> r.error == ParseFile(buf).error
      ensures r.Ok? ==> fresh(r.value) && r.value.State() == ParseFile(buf).value
    {
      var parsedHeader := ParseHeader(buf);
      if parsedHeader.Err? {
        return Err(parsedHeader.error);
      }
      var h := parsedHeader.value;
      var width, cells := h.width, h.width * h.height;
      var offset := HEADER_SIZE;
      var grid := new PaletteId[cells](_ => 0);
      var latest := 0;
      var base: Option<Base> := None;
      var deltas: seq<Delta> := [];
      assert grid[..] == Blank(cells);
      ghost var goal := ParseBlocks(buf, width, cells, HEADER_SIZE, Parsed(0, None, Blank(cells), []));
      while offset < |buf|
        invariant fresh(grid) && grid.Length == cells
        invariant ParseBlocks(buf, width, cells, offset, Parsed(latest, base, grid[..], deltas)) == goal
        decreases |buf| - offset
      {
        var hd := ReadHead(buf, offset);
        if hd.timestamp > latest {
          latest := hd.timestamp;
        }
        if hd.kind != BASE_BLOCK && hd.kind != DELTA_BLOCK {
          return Err(UnknownBlockType(hd.kind));
        }
        var payload := PayloadAt(buf, offset, hd);
        if payload.Err? {
          return Err(payload.error);
        }
        if hd.kind == BASE_BLOCK {
          var g := ReadBase(payload.value, cells);
          if g.Err? {
            return Err(g.error);
          }
          var ids := g.value;
          grid := new PaletteId[cells](i requires 0 <= i < cells => ids[i]);
          assert grid[..] == ids;
          base := Some(Base(hd.timestamp, ids));
        } else {
          var recs := DecodeDelta(payload.value);
          if recs.Err? {
            return Err(recs.error);
          }
          ApplyRecordsInPlace(grid, width, recs.value);
          deltas := deltas + [Delta(hd.timestamp, recs.value)];
        }
        offset := offset + BLOCK_HEAD_SIZE + hd.size;
      }
      var file := new WplsFile(FileState(h, latest, base, grid[..], deltas));
      return Ok(file);
    }

    /** `toPng(cutoff)`: a copy of the base, the entries applied in place
        until the first one past the cutoff, then the render loop. */
    method ToPng(cutoff: Option<int>) returns (res: Result<seq<byte>>)
      ensures res == Picture(State(), cutoff)
    {
      if base.None? {
        return Err(MissingBase);
      }
      var grid := ApplyUpTo(base.value.indices, header.width, deltas, cutoff);
      var pixels := RenderIndices(grid);
      return Ok(pixels);
    }

    /** `appendPng(data, {width, height}, timestamp)`: the pixel loop, the
        diff loop, then the new entry and the new grid. */
    method AppendPng(data: seq<byte>, width: nat, height: nat, timestamp: int) returns (res: Result<bool>)
      requires |indices| == header.width * header.height
      requires AppendFits(header, data, width, height)
      modifies this
      ensures var a := AppendImage(old(State()), data, width, height, timestamp);
        && (a.Err? ==> res == Err(a.error) && State() == old(State()))
        && (a.Ok? ==> res == Ok(a.value.changed) && State() == a.value.state)
    {
      var a := Append(State(), data, width, height, timestamp);
      if a.Err? {
        return Err(a.error);
      }
      deltas, indices := a.value.state.deltas, a.value.state.indices;
      return Ok(a.value.changed);
    }

    /** `toBuffer()`: the header, the base block and one delta block per
        entry, collected as parts and joined by `concatBuffers`. */
    method ToBuffer() returns (res: Result<seq<byte>>)
      ensures res == FileBytes(State())
    {
      if base.None? {
        return Err(MissingBase);
      }
      var h, b, ds := header, base.value, deltas;
      var encoded := RleEncode(b.indices);
      var baseCompressed := Deflate(encoded);
      var head := NewHeader(h.version, h.width, h.height, h.x, h.y);
      var blockHead := NewHead(BASE_BLOCK, b.timestamp, |baseCompressed|);
      var out := [head, blockHead, baseCompressed];
      for i := 0 to |ds|
        invariant out == BaseParts(h, b) + DeltaParts(ds[..i])
      {
        var d := ds[i];
        var compressed := Deflate(WordsToBytes(d.records));
        var block := NewHead(DELTA_BLOCK, d.timestamp, |compressed|);
        assert ds[..i + 1][..i] == ds[..i];
        assert BaseParts(h, b) + DeltaParts(ds[..i + 1]) == out + [block, compressed];
        out := out + [block, compressed];
      }
      assert ds[..|ds|] == ds;
      FlattenLogParts(h, b, ds);
      var bytes := ConcatBuffers(out);
      return Ok(bytes);
    }
  }

  /** At a delta block the parse applies the block's records, logs the entry
      and moves past it. */
  lemma ParseAtDelta(buf: seq<byte>, width: nat, cells: nat, offset: nat, p: Parsed, d: Delta)
    requires DeltaAt(buf, offset, d)
    ensures ParseBlocks(buf, width, cells, offset, p) ==
      ParseBlocks(buf, width, cells, offset + |DeltaBlock(d)|,
        Parsed(if d.timestamp > p.latest then d.timestamp else p.latest, p.base, ApplyRecords(p.indices, width, d.records), p.deltas + [d]))
  {
    DecodeDeltaOfEncoded(d.records);
  }

  /** The delta blocks at the end of a buffer are parsed into the same
      entries, applied in order, with the largest timestamp kept. */
  lemma {:induction false} ParseDeltas(buf: seq<byte>, offset: nat, ds: seq<Delta>, width: nat, cells: nat, p: Parsed)
    requires DeltasAt(buf, offset, ds) && offset + |DeltaBlocks(ds)| == |buf|
    ensures ParseBlocks(buf, width, cells, offset, p) ==
      Ok(Parsed(MaxTimestamp(p.latest, ds), p.base, ApplyDeltas(p.indices, width, ds), p.deltas + ds))
    decreases |ds|
  {
    if |ds| == 0 {
      assert p.deltas + ds == p.deltas;
    } else {
      var d := ds[0];
      ParseAtDelta(buf, width, cells, offset, p, d);
      var p' := Parsed(if d.timestamp > p.latest then d.timestamp else p.latest, p.base, ApplyRecords(p.indices, width, d.records), p.deltas + [d]);
      assert DeltaBlocks(ds) == DeltaBlock(d) + DeltaBlocks(ds[1..]);
      ParseDeltas(buf, offset + |DeltaBlock(d)|, ds[1..], width, cells, p');
      assert [d] + ds[1..] == ds;
      ApplyDeltasCons(p.indices, width, d, ds[1..]);
      assert p.deltas + [d] + ds[1..] == p.deltas + ds;
    }
  }

  /** A base block that decodes replaces the base and the grid, and the
      parse goes on after it. */
  lemma ParseBaseStep(buf: seq<byte>, width: nat, cells: nat, offset: nat, p: Parsed, payload: seq<byte>, g: seq<PaletteId>)
    requires offset < |buf| && ReadHead(buf, offset).kind == BASE_BLOCK
    requires PayloadAt(buf, offset, ReadHead(buf, offset)) == Ok(payload) && DecodeBase(payload, cells) == Ok(g)
    ensures var hd := ReadHead(buf, offset);
      ParseBlocks(buf, width, cells, offset, p) ==
        ParseBlocks(buf, width, cells, offset + BLOCK_HEAD_SIZE + hd.size,
          Parsed(if hd.timestamp > p.latest then hd.timestamp else p.latest, Some(Base(hd.timestamp, g)), g, p.deltas))
  {
  }

  /** At the base block of a non-empty grid the parse adopts it as the base
      and as the grid, and moves past it. */
  lemma ParseAtBase(buf: seq<byte>, width: nat, cells: nat, offset: nat, p: Parsed, timestamp: int, base: seq<PaletteId>)
    requires offset < |buf| && |base| == cells > 0
    requires ReadHead(buf, offset) == Head(BASE_BLOCK, timestamp, |BasePayload(base)|)
    requires PayloadAt(buf, offset, ReadHead(buf, offset)) == Ok(BasePayload(base))
    ensures ParseBlocks(buf, width, cells, offset, p) ==
      ParseBlocks(buf, width, cells, offset + |BaseBlock(timestamp, base)|,
        Parsed(if timestamp > p.latest then timestamp else p.latest, Some(Base(timestamp, base)), base, p.deltas))
  {
    DecodeBaseOfEncoded(base);
    ParseBaseStep(buf, width, cells, offset, p, BasePayload(base), base);
  }

  /** A base block and the delta blocks of a log, at the end of a buffer,
      parse into that base, that log and the base with the log applied. */
  lemma ParseLogAt(buf: seq<byte>, offset: nat, baseTimestamp: int, base: seq<PaletteId>, ds: seq<Delta>, width: nat, cells: nat, p: Parsed)
    requires |base| == cells > 0
    requires LogAt(buf, offset, baseTimestamp, base, ds)
    ensures ParseBlocks(buf, width, cells, offset, p) ==
      Ok(Parsed(MaxTimestamp(if baseTimestamp > p.latest then baseTimestamp else p.latest, ds), Some(Base(baseTimestamp, base)), ApplyDeltas(base, width, ds), p.deltas + ds))
  {
    ParseAtBase(buf, width, cells, offset, p, baseTimestamp, base);
    var p' := Parsed(if baseTimestamp > p.latest then baseTimestamp else p.latest, Some(Base(baseTimestamp, base)), base, p.deltas);
    ParseDeltas(buf, offset + |BaseBlock(baseTimestamp, base)|, ds, width, cells, p');
  }

  /** What the constructor builds from a buffer whose header parses and whose
      blocks parse. */
  lemma ParseFileOf(buf: seq<byte>, h: Header, p: Parsed)
    requires ParseHeader(buf) == Ok(h)
    requires ParseBlocks(buf, h.width, h.width * h.height, HEADER_SIZE, Parsed(0, None, Blank(h.width * h.height), [])) == Ok(p)
    ensures ParseFile(buf) == Ok(FileState(h, p.latest, p.base, p.indices, p.deltas))
  {
  }

  /** Parsing a written log gives back its header, its base and base
      timestamp and its entries; the grid is the base with every entry
      applied, and the latest timestamp is the largest block timestamp (at
      least 0). */
  lemma ParseLog(h: Header, baseTimestamp: int, base: seq<PaletteId>, ds: seq<Delta>)
    requires h.version == VERSION && |base| == h.width * h.height > 0
    requires -TWO_31 <= baseTimestamp < TWO_31 && |base| < 0x3fff_ffff && Writable(ds)
    ensures ParseFile(LogBytes(h, baseTimestamp, base, ds)) ==
      Ok(FileState(h, MaxTimestamp(if baseTimestamp > 0 then baseTimestamp else 0, ds), Some(Base(baseTimestamp, base)), ApplyDeltas(base, h.width, ds), ds))
    ensures Consistent(ParseFile(LogBytes(h, baseTimestamp, base, ds)).value)
  {
    var cells := h.width * h.height;
    var buf := LogBytes(h, baseTimestamp, base, ds);
    var p := Parsed(0, None, Blank(cells), []);
    LogLayout(h, baseTimestamp, base, ds);
    LogAtOfBytes(buf, HEADER_SIZE, baseTimestamp, base, ds);
    ParseLogAt(buf, HEADER_SIZE, baseTimestamp, base, ds, h.width, cells, p);
    assert p.deltas + ds == ds;
    ParseFileOf(buf, h, Parsed(MaxTimestamp(if baseTimestamp > 0 then baseTimestamp else 0, ds), Some(Base(baseTimestamp, base)), ApplyDeltas(base, h.width, ds), ds));
  }

  /** The states `toBuffer` can write so that they read back: a version-2
      header, a non-empty base of signed 32-bit timestamp, and entries whose
      blocks read back. */
  predicate Serializable(s: FileState)
  {
    && s.header.version == VERSION
    && s.base.Some? && |s.base.value.indices| == s.header.width * s.header.height > 0
    && -TWO_31 <= s.base.value.timestamp < TWO_31 && |s.base.value.indices| < 0x3fff_ffff
    && Writable(s.deltas)
  }

  /** Writing a file and opening the bytes gives back its header, base and
      log; the grid is recomputed from them, and so is the latest timestamp,
      which `appendPng` does not maintain.  A consistent state whose latest
      timestamp is up to date comes back whole. */
  lemma BufferRoundTrip(s: FileState)
    requires Serializable(s)
    ensures FileBytes(s).Ok?
    ensures var b := s.base.value;
      ParseFile(FileBytes(s).value) ==
        Ok(s.(latestTimestamp := MaxTimestamp(if b.timestamp > 0 then b.timestamp else 0, s.deltas), indices := ApplyDeltas(b.indices, s.header.width, s.deltas)))
    ensures Consistent(s) && s.latestTimestamp == MaxTimestamp(if s.base.value.timestamp > 0 then s.base.value.timestamp else 0, s.deltas) ==>
      ParseFile(FileBytes(s).value) == Ok(s)
  {
    var b := s.base.value;
    ParseLog(s.header, b.timestamp, b.indices, s.deltas);
  }

  /** The header checks of the constructor: a buffer that does not start with
      "WPLS" is rejected as not a WPLS file, and one whose version is not 2
      as unsupported. */
  lemma HeaderChecks(buf: seq<byte>)
    ensures !(|buf| >= 4 && buf[..4] == MAGIC) ==> ParseFile(buf) == Err(BadMagic)
    ensures |buf| >= 4 && buf[..4] == MAGIC && ReadUInt16BE(buf, 4) != VERSION ==>
      ParseFile(buf) == Err(UnsupportedVersion(ReadUInt16BE(buf, 4)))
  {
    MagicIff(buf);
  }

  /** A first block whose type is neither 0 nor 1 is rejected. */
  lemma UnknownBlockRejected(buf: seq<byte>)
    requires ParseHeader(buf).Ok? && HEADER_SIZE < |buf|
    requires buf[HEADER_SIZE] != BASE_BLOCK && buf[HEADER_SIZE] != DELTA_BLOCK
    ensures ParseFile(buf) == Err(UnknownBlockType(buf[HEADER_SIZE]))
  {
    var h := ParseHeader(buf).value;
    var cells := h.width * h.height;
    assert ParseBlock(buf, h.width, cells, HEADER_SIZE, Parsed(0, None, Blank(cells), [])) == Err(UnknownBlockType(buf[HEADER_SIZE]));
  }

  /** A block whose type is neither 0 nor 1 is rejected wherever the parse
      reaches it. */
  lemma ParseAtUnknown(buf: seq<byte>, width: nat, cells: nat, offset: nat, p: Parsed)
    requires offset < |buf| && buf[offset] != BASE_BLOCK && buf[offset] != DELTA_BLOCK
    ensures ParseBlocks(buf, width, cells, offset, p) == Err(UnknownBlockType(buf[offset]))
  {
  }

  /** A delta block hands on whatever the parse after it gives. */
  lemma ParseThroughDelta(buf: seq<byte>, width: nat, cells: nat, offset: nat, p: Parsed, d: Delta, r: Result<Parsed>)
    requires DeltaAt(buf, offset, d)
    requires ParseBlocks(buf, width, cells, offset + |DeltaBlock(d)|,
      Parsed(if d.timestamp > p.latest then d.timestamp else p.latest, p.base, ApplyRecords(p.indices, width, d.records), p.deltas + [d])) == r
    ensures ParseBlocks(buf, width, cells, offset, p) == r
  {
    ParseAtDelta(buf, width, cells, offset, p, d);
  }

  /** The base block of a non-empty grid hands on whatever the parse after it
      gives. */
  lemma ParseThroughBase(buf: seq<byte>, width: nat, cells: nat, offset: nat, p: Parsed, timestamp: int, base: seq<PaletteId>, r: Result<Parsed>)
    requires offset < |buf| && |base| == cells > 0
    requires ReadHead(buf, offset) == Head(BASE_BLOCK, timestamp, |BasePayload(base)|)
    requires PayloadAt(buf, offset, ReadHead(buf, offset)) == Ok(BasePayload(base))
    requires ParseBlocks(buf, width, cells, offset + |BaseBlock(timestamp, base)|,
      Parsed(if timestamp > p.latest then timestamp else p.latest, Some(Base(timestamp, base)), base, p.deltas)) == r
    ensures ParseBlocks(buf, width, cells, offset, p) == r
  {
    ParseAtBase(buf, width, cells, offset, p, timestamp, base);
  }

  /** Delta blocks followed by a block of another type parse to that block's
      rejection. */
  lemma {:induction false} ParseDeltasUnknown(buf: seq<byte>, offset: nat, ds: seq<Delta>, k: byte, width: nat, cells: nat, p: Parsed)
    requires DeltasAt(buf, offset, ds)
    requires k != BASE_BLOCK && k != DELTA_BLOCK
    requires offset + |DeltaBlocks(ds)| < |buf| && buf[offset + |DeltaBlocks(ds)|] == k
    ensures ParseBlocks(buf, width, cells, offset, p) == Err(UnknownBlockType(k))
    decreases |ds|
  {
    if |ds| == 0 {
      ParseAtUnknown(buf, width, cells, offset, p);
    } else {
      var d := ds[0];
      var p' := Parsed(if d.timestamp > p.latest then d.timestamp else p.latest, p.base, ApplyRecords(p.indices, width, d.records), p.deltas + [d]);
      assert offset + |DeltaBlock(d)| + |DeltaBlocks(ds[1..])| == offset + |DeltaBlocks(ds)| by {
        assert DeltaBlocks(ds) == DeltaBlock(d) + DeltaBlocks(ds[1..]);
      }
      ParseDeltasUnknown(buf, offset + |DeltaBlock(d)|, ds[1..], k, width, cells, p');
      ParseThroughDelta(buf, width, cells, offset, p, d, Err(UnknownBlockType(k)));
    }
  }

  /** Written delta blocks followed by a block of another type parse to that
      block's rejection. */
  lemma ParseUnknownAfterDeltas(buf: seq<byte>, offset: nat, ds: seq<Delta>, k: byte, tail: seq<byte>, width: nat, cells: nat, p: Parsed)
    requires Writable(ds) && k != BASE_BLOCK && k != DELTA_BLOCK
    requires offset <= |buf| && buf[offset..] == DeltaBlocks(ds) + ([k] + tail)
    ensures ParseBlocks(buf, width, cells, offset, p) == Err(UnknownBlockType(k))
  {
    assert offset + |DeltaBlocks(ds)| < |buf| && buf[offset + |DeltaBlocks(ds)|] == k by {
      SplitAt(buf, offset, DeltaBlocks(ds), [k] + tail);
    }
    DeltasAtOfBytes(buf, offset, ds, [k] + tail);
    ParseDeltasUnknown(buf, offset, ds, k, width, cells, p);
  }

  /** A written base block and delta blocks followed by a block of another
      type parse to that block's rejection. */
  lemma ParseUnknownAfterBlocks(buf: seq<byte>, offset: nat, baseTimestamp: int, base: seq<PaletteId>, ds: seq<Delta>, k: byte, tail: seq<byte>, width: nat, cells: nat, p: Parsed)
    requires |base| == cells > 0
    requires -TWO_31 <= baseTimestamp < TWO_31 && |base| < 0x3fff_ffff && Writable(ds)
    requires k != BASE_BLOCK && k != DELTA_BLOCK
    requires offset <= |buf| && buf[offset..] == BaseBlock(baseTimestamp, base) + (DeltaBlocks(ds) + ([k] + tail))
    ensures ParseBlocks(buf, width, cells, offset, p) == Err(UnknownBlockType(k))
  {
    var bb := BaseBlock(baseTimestamp, base);
    var p' := Parsed(if baseTimestamp > p.latest then baseTimestamp else p.latest, Some(Base(baseTimestamp, base)), base, p.deltas);
    BasePayloadLength(base);
    SplitAt(buf, offset, bb, DeltaBlocks(ds) + ([k] + tail));
    ParseUnknownAfterDeltas(buf, offset + |bb|, ds, k, tail, width, cells, p');
    BlockAt(buf, offset, BASE_BLOCK, baseTimestamp, BasePayload(base));
    ParseThroughBase(buf, width, cells, offset, p, baseTimestamp, base, Err(UnknownBlockType(k)));
  }

  /** A block of another type after a written log makes the constructor
      throw, however many blocks come before it. */
  lemma UnknownBlockAfterLog(h: Header, baseTimestamp: int, base: seq<PaletteId>, ds: seq<Delta>, k: byte, tail: seq<byte>)
    requires h.version == VERSION && |base| == h.width * h.height > 0
    requires -TWO_31 <= baseTimestamp < TWO_31 && |base| < 0x3fff_ffff && Writable(ds)
    requires k != BASE_BLOCK && k != DELTA_BLOCK
    ensures ParseFile(LogBytes(h, baseTimestamp, base, ds) + ([k] + tail)) == Err(UnknownBlockType(k))
  {
    var cells := h.width * h.height;
    var buf := LogBytes(h, baseTimestamp, base, ds) + ([k] + tail);
    LogThenLayout(h, baseTimestamp, base, ds, [k] + tail);
    ParseUnknownAfterBlocks(buf, HEADER_SIZE, baseTimestamp, base, ds, k, tail, h.width, cells, Parsed(0, None, Blank(cells), []));
  }

  /** For a consistent file `toPng()` draws the materialised grid. */
  lemma PictureOfConsistent(s: FileState)
    requires Consistent(s)
    ensures Picture(s, None) == Ok(Render(s.indices))
  {
    DeltasUpToAll(s.deltas);
  }

  /** `toPng(cutoff)` of a file draws what `wplsToPng(toBuffer(), cutoff)`
      draws, unless the base itself is past the cutoff (the reader then
      draws a blank canvas). */
  lemma PictureMatchesReader(s: FileState, cutoff: Option<int>)
    requires Serializable(s) && !PastCutoff(s.base.value.timestamp, cutoff)
    ensures FileBytes(s).Ok? && ReadSnapshot(FileBytes(s).value, cutoff).Ok?
    ensures Picture(s, cutoff) == Ok(ReadSnapshot(FileBytes(s).value, cutoff).value.pixels)
  {
    var b := s.base.value;
    ReadLog(s.header, b.timestamp, b.indices, s.deltas, cutoff);
  }

  /** The outcomes of `appendPng`: another size is a dimension mismatch, an
      unknown colour is the error of the first pixel that has one, and
      otherwise the call reports whether the new grid differs from the
      materialised one, changing nothing when it does not. */
  lemma AppendOutcome(s: FileState, data: seq<byte>, width: nat, height: nat, timestamp: int)
    requires |s.indices| == s.header.width * s.header.height
    requires AppendFits(s.header, data, width, height)
    ensures s.header.width != width || s.header.height != height ==>
      AppendImage(s, data, width, height, timestamp) == Err(DimensionMismatch)
    ensures s.header.width == width && s.header.height == height && ImageIds(data, width * height).Err? ==>
      AppendImage(s, data, width, height, timestamp) == Err(ImageIds(data, width * height).error)
    ensures var a := AppendImage(s, data, width, height, timestamp);
      s.header.width == width && s.header.height == height && ImageIds(data, width * height).Ok? ==>
        && a.Ok?
        && (a.value.changed <==> ImageIds(data, width * height).value != s.indices)
        && (!a.value.changed ==> a.value.state == s)
  {
    if s.header.width == width && s.header.height == height && ImageIds(data, width * height).Ok? {
      var g := ImageIds(data, width * height).value;
      GridFits(width, height);
      DiffEmpty(s.indices, g, width, width * height);
      assert s.indices[..width * height] == s.indices && g[..width * height] == g;
    }
  }

  /** A changed grid is logged as one new entry at the end, stamped with the
      given timestamp, with one record per changed cell, carrying its new id,
      in ascending cell order; the grid becomes the new one, and the header,
      the base and the latest timestamp stay as they were. */
  lemma AppendEntry(s: FileState, data: seq<byte>, width: nat, height: nat, timestamp: int)
    requires |s.indices| == s.header.width * s.header.height && 0 < width <= 1024
    requires AppendFits(s.header, data, width, height)
    requires AppendImage(s, data, width, height, timestamp).Ok? && AppendImage(s, data, width, height, timestamp).value.changed
    ensures var t := AppendImage(s, data, width, height, timestamp).value.state;
      var g := ImageIds(data, width * height).value;
      && t.header == s.header && t.base == s.base && t.latestTimestamp == s.latestTimestamp
      && t.indices == g
      && |t.deltas| == |s.deltas| + 1 && t.deltas[..|s.deltas|] == s.deltas
      && t.deltas[|s.deltas|].timestamp == timestamp
      && NamesChangedCells(s.indices, g, width, width * height, t.deltas[|s.deltas|].records)
      && AscendingCells(t.deltas[|s.deltas|].records, width)
      && CoversChangedCells(s.indices, g, width, width * height, t.deltas[|s.deltas|].records)
  {
    var g := ImageIds(data, width * height).value;
    GridFits(width, height);
    var d := Diff(s.indices, g, width, width * height);
    DiffRecordsSound(s.indices, g, width, width * height);
    DiffRecordsComplete(s.indices, g, width, width * height);
    var t := AppendImage(s, data, width, height, timestamp).value.state;
    assert t.deltas == s.deltas + [Delta(timestamp, d)];
    assert t.deltas[..|s.deltas|] == s.deltas;
  }

  /** `appendPng` keeps the class invariant on canvases at most 1024 cells
      wide: the new grid is the base with the grown log applied. */
  lemma AppendKeepsConsistent(s: FileState, data: seq<byte>, width: nat, height: nat, timestamp: int)
    requires |s.indices| == s.header.width * s.header.height && width <= 1024
    requires AppendFits(s.header, data, width, height)
    requires Consistent(s) && AppendImage(s, data, width, height, timestamp).Ok?
    ensures Consistent(AppendImage(s, data, width, height, timestamp).value.state)
    ensures WellFormed(s) ==> WellFormed(AppendImage(s, data, width, height, timestamp).value.state)
  {
    var a := AppendImage(s, data, width, height, timestamp).value;
    if a.changed {
      var g := ImageIds(data, width * height).value;
      GridFits(width, height);
      var d := Diff(s.indices, g, width, width * height);
      ApplyDiff(s.indices, g, width);
      ApplyDeltasSnoc(s.base.value.indices, width, s.deltas, Delta(timestamp, d));
    }
  }
}
