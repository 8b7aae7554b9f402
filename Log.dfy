/** The delta log of a WPLS file: its entries, the grid they produce from a
    base, the prefix a cutoff timestamp selects, and the bytes a log is
    written as (a header, one base block, then one delta block per entry, as
    `toBuffer` emits them, wpls.js lines 269-298). */
module Log {
  import opened Bytes
  import opened Errors
  import opened Palette
  import opened Records
  import opened Blocks

  /** One entry of `deltas`: a timestamp and its change records. */
  datatype Delta = Delta(timestamp: int, records: seq<uint32>)

  /** The grid of a base with the deltas' records applied in log order. */
  function ApplyDeltas(g: seq<PaletteId>, width: nat, ds: seq<Delta>): (r: seq<PaletteId>)
    ensures |r| == |g|
  {
    if |ds| == 0 then g
    else ApplyRecords(ApplyDeltas(g, width, ds[..|ds| - 1]), width, ds[|ds| - 1].records)
  }

  /** One more entry applies its records to the grid built so far. */
  lemma ApplyDeltasSnoc(g: seq<PaletteId>, width: nat, ds: seq<Delta>, d: Delta)
    ensures ApplyDeltas(g, width, ds + [d]) == ApplyRecords(ApplyDeltas(g, width, ds), width, d.records)
  {
    assert (ds + [d])[..|ds|] == ds;
  }

  /** The first entry applies its records to the base before the rest. */
  lemma {:induction false} ApplyDeltasCons(g: seq<PaletteId>, width: nat, d: Delta, ds: seq<Delta>)
    ensures ApplyDeltas(g, width, [d] + ds) == ApplyDeltas(ApplyRecords(g, width, d.records), width, ds)
    decreases |ds|
  {
    if |ds| == 0 {
      assert [d] + ds == [] + [d];
      ApplyDeltasSnoc(g, width, [], d);
    } else {
      var init := ds[..|ds| - 1];
      ApplyDeltasCons(g, width, d, init);
      assert [d] + ds == ([d] + init) + [ds[|ds| - 1]];
      assert ds == init + [ds[|ds| - 1]];
      ApplyDeltasSnoc(g, width, [d] + init, ds[|ds| - 1]);
      ApplyDeltasSnoc(ApplyRecords(g, width, d.records), width, init, ds[|ds| - 1]);
    }
  }

  /** An entry with no records changes nothing. */
  lemma ApplyEmptyDelta(g: seq<PaletteId>, width: nat, ds: seq<Delta>, t: int)
    ensures ApplyDeltas(g, width, ds + [Delta(t, [])]) == ApplyDeltas(g, width, ds)
  {
    ApplyDeltasSnoc(g, width, ds, Delta(t, []));
  }

  /** `timestamp > cutoffTs`; no cutoff stands for `Infinity`, which no
      timestamp exceeds. */
  predicate PastCutoff(timestamp: int, cutoff: Option<int>)
  {
    cutoff.Some? && timestamp > cutoff.value
  }

  /** The entries `toPng` applies (lines 214-215): the log up to, and not
      including, its first entry past the cutoff. */
  function DeltasUpTo(ds: seq<Delta>, cutoff: Option<int>): (r: seq<Delta>)
    ensures |r| <= |ds| && r == ds[..|r|]
    ensures forall i :: 0 <= i < |r| ==> !PastCutoff(ds[i].timestamp, cutoff)
    ensures |r| < |ds| ==> PastCutoff(ds[|r|].timestamp, cutoff)
  {
    if |ds| == 0 || PastCutoff(ds[0].timestamp, cutoff) then []
    else [ds[0]] + DeltasUpTo(ds[1..], cutoff)
  }

  /** The prefix `toPng` reaches by walking the log until an entry is past the
      cutoff is the one `DeltasUpTo` names. */
  lemma DeltasUpToIs(ds: seq<Delta>, cutoff: Option<int>, n: nat)
    requires n <= |ds|
    requires forall j :: 0 <= j < n ==> !PastCutoff(ds[j].timestamp, cutoff)
    requires n < |ds| ==> PastCutoff(ds[n].timestamp, cutoff)
    ensures DeltasUpTo(ds, cutoff) == ds[..n]
  {
  }

  /** Without a cutoff every entry is applied. */
  lemma DeltasUpToAll(ds: seq<Delta>)
    ensures DeltasUpTo(ds, None) == ds
  {
  }

  /** The timestamp of the last entry, or `t` for an empty list. */
  function LastTimestamp(t: int, ds: seq<Delta>): int
  {
    if |ds| == 0 then t else ds[|ds| - 1].timestamp
  }

  /** The running maximum `if (timestamp > latestTs) latestTs = timestamp`
      (line 185), started at `m`. */
  function MaxTimestamp(m: int, ds: seq<Delta>): (r: int)
    ensures r >= m && forall i :: 0 <= i < |ds| ==> r >= ds[i].timestamp
    ensures r == m || exists i :: 0 <= i < |ds| && r == ds[i].timestamp
    decreases |ds|
  {
    if |ds| == 0 then m
    else MaxTimestamp(if ds[0].timestamp > m then ds[0].timestamp else m, ds[1..])
  }

  /** The entries whose blocks read back as written: signed 32-bit timestamps
      and payload lengths below 2^31. */
  predicate Writable(ds: seq<Delta>)
  {
    forall i :: 0 <= i < |ds| ==> -TWO_31 <= ds[i].timestamp < TWO_31 && 4 * |ds[i].records| + 2 < TWO_31
  }

  /** The delta block of one entry (lines 288-295). */
  function DeltaBlock(d: Delta): seq<byte>
  {
    BlockBytes(DELTA_BLOCK, d.timestamp, DeltaPayload(d.records))
  }

  /** The delta blocks of a log, in order. */
  function DeltaBlocks(ds: seq<Delta>): seq<byte>
  {
    if |ds| == 0 then [] else DeltaBlock(ds[0]) + DeltaBlocks(ds[1..])
  }

  /** Writing one more entry appends its block. */
  lemma {:induction false} DeltaBlocksSnoc(ds: seq<Delta>, d: Delta)
    ensures DeltaBlocks(ds + [d]) == DeltaBlocks(ds) + DeltaBlock(d)
    decreases |ds|
  {
    if |ds| == 0 {
      assert ds + [d] == [d] && [d][1..] == [];
    } else {
      var e := ds + [d];
      assert e[0] == ds[0] && e[1..] == ds[1..] + [d];
      calc {
        DeltaBlocks(e);
        DeltaBlock(ds[0]) + DeltaBlocks(ds[1..] + [d]);
        { DeltaBlocksSnoc(ds[1..], d); }
        DeltaBlock(ds[0]) + (DeltaBlocks(ds[1..]) + DeltaBlock(d));
        DeltaBlock(ds[0]) + DeltaBlocks(ds[1..]) + DeltaBlock(d);
      }
    }
  }

  /** The base block (lines 284-287 and 76-79). */
  function BaseBlock(timestamp: int, base: seq<PaletteId>): seq<byte>
  {
    BlockBytes(BASE_BLOCK, timestamp, BasePayload(base))
  }

  /** The whole file `toBuffer` writes. */
  function LogBytes(h: Header, baseTimestamp: int, base: seq<PaletteId>, ds: seq<Delta>): seq<byte>
  {
    HeaderBytes(h.version, h.width, h.height, h.x, h.y) + (BaseBlock(baseTimestamp, base) + DeltaBlocks(ds))
  }
}
