/** The change records of a delta block: one unsigned 32-bit word per changed
    cell, packed as `(dx << 16) | (dy << 6) | id` (wpls.js line 258) and
    unpacked with `& 0x3f`, `(p >> 6) & 0x3ff` and `(p >> 16) & 0x3ff`
    (lines 110-113, 196-199, 217-220); their application to an index grid,
    the diff `appendPng` computes (lines 252-260), and the little-endian byte
    view of a `Uint32Array` that carries them (lines 108, 194, 289). */
module Records {
  import opened Bytes
  import opened Errors
  import opened Palette

  /** One unpacked record: column, row and the new palette id. */
  datatype Cell = Cell(dx: nat, dy: nat, id: PaletteId)

  /** The record for a cell.  With `dy` below 1024 the three fields occupy
      disjoint bits, so the bitwise or is their sum; the word is kept as its
      unsigned pattern, which is what a `Uint32Array` stores and what the
      shifts and masks read back (a column from 32768 on makes the JavaScript
      number negative, with the same 32 bits). */
  function Pack(dx: nat, dy: nat, id: PaletteId): (p: uint32)
    requires dx < TWO_16 && dy < 1024
    ensures p % 64 == id
    ensures (p / 64) % 1024 == dy
    ensures p / TWO_16 == dx
  {
    var p := dx * TWO_16 + dy * 64 + id;
    assert p / 64 == dx * 1024 + dy;
    p
  }

  /** The three fields a reader extracts from a record. */
  function Unpack(p: uint32): Cell
  {
    Cell((p / TWO_16) % 1024, (p / 64) % 1024, p % 64)
  }

  /** Unpacking a packed record gives back its fields when the column is below
      1024; a wider column keeps only its low ten bits. */
  lemma UnpackPack(dx: nat, dy: nat, id: PaletteId)
    requires dx < TWO_16 && dy < 1024
    ensures Unpack(Pack(dx, dy, id)) == Cell(dx % 1024, dy, id)
    ensures dx < 1024 ==> Unpack(Pack(dx, dy, id)) == Cell(dx, dy, id)
  {
  }

  /** A column of 1024 aliases column 0 of the same row. */
  lemma WideColumnAliases()
    ensures Unpack(Pack(1024, 3, 5)) == Unpack(Pack(0, 3, 5)) == Cell(0, 3, 5)
  {
    UnpackPack(1024, 3, 5);
    UnpackPack(0, 3, 5);
  }

  /** The grid index `dy * width + dx` a record writes to. */
  function CellIndex(p: uint32, width: nat): nat
  {
    Unpack(p).dy * width + Unpack(p).dx
  }

  /** `indices[dy * width + dx] = id`: a write past the end of a typed array
      is ignored. */
  function ApplyRecord(g: seq<PaletteId>, width: nat, p: uint32): (r: seq<PaletteId>)
    ensures |r| == |g|
  {
    var k := CellIndex(p, width);
    if k < |g| then g[k := Unpack(p).id] else g
  }

  /** The records applied in order. */
  function ApplyRecords(g: seq<PaletteId>, width: nat, recs: seq<uint32>): (r: seq<PaletteId>)
    ensures |r| == |g|
  {
    if |recs| == 0 then g
    else ApplyRecord(ApplyRecords(g, width, recs[..|recs| - 1]), width, recs[|recs| - 1])
  }

  /** Applying two batches of records one after the other applies their
      concatenation. */
  lemma {:induction false} ApplyRecordsAppend(g: seq<PaletteId>, width: nat, a: seq<uint32>, b: seq<uint32>)
    ensures ApplyRecords(ApplyRecords(g, width, a), width, b) == ApplyRecords(g, width, a + b)
    decreases |b|
  {
    if |b| > 0 {
      ApplyRecordsAppend(g, width, a, b[..|b| - 1]);
      assert (a + b)[..|a + b| - 1] == a + b[..|b| - 1];
    } else {
      assert a + b == a;
    }
  }

  /** Only the cells named by some record can change. */
  lemma {:induction false} ApplyRecordsUntouched(g: seq<PaletteId>, width: nat, recs: seq<uint32>, k: nat)
    requires k < |g|
    requires forall j :: 0 <= j < |recs| ==> CellIndex(recs[j], width) != k
    ensures ApplyRecords(g, width, recs)[k] == g[k]
  {
    if |recs| > 0 {
      ApplyRecordsUntouched(g, width, recs[..|recs| - 1], k);
    }
  }

  /** The record loop of `wplsToPng` (lines 109-115), `#parse` (lines 195-201)
      and `toPng` (lines 216-222), writing into the grid in place. */
  method ApplyRecordsInPlace(a: array<PaletteId>, width: nat, recs: seq<uint32>)
    modifies a
    ensures a[..] == ApplyRecords(old(a[..]), width, recs)
  {
    for i := 0 to |recs|
      invariant a[..] == ApplyRecords(old(a[..]), width, recs[..i])
    {
      var packed := recs[i];
      var id, dy, dx := packed % 64, (packed / 64) % 1024, (packed / TWO_16) % 1024;
      var k := dy * width + dx;
      if k < a.Length {
        a[k] := id;
      }
      assert recs[..i + 1][..i] == recs[..i];
    }
    assert recs[..|recs|] == recs;
  }

  /** The bytes of a `Uint32Array` element, least significant first. */
  function WordBytes(w: uint32): (b: seq<byte>)
    ensures |b| == 4
  {
    [w % 0x100, (w / 0x100) % 0x100, (w / TWO_16) % 0x100, w / TWO_24]
  }

  /** `new Uint8Array(new Uint32Array(ws).buffer)`. */
  function WordsToBytes(ws: seq<uint32>): (b: seq<byte>)
    ensures |b| == 4 * |ws|
  {
    if |ws| == 0 then [] else WordBytes(ws[0]) + WordsToBytes(ws[1..])
  }

  /** The word stored in four bytes, least significant first. */
  function WordOf(b0: byte, b1: byte, b2: byte, b3: byte): uint32
  {
    b0 + b1 * 0x100 + b2 * TWO_16 + b3 * TWO_24
  }

  /** The words of a byte buffer whose length is a multiple of four. */
  function Words(b: seq<byte>): (ws: seq<uint32>)
    requires |b| % 4 == 0
    ensures |ws| == |b| / 4
  {
    if |b| == 0 then [] else [WordOf(b[0], b[1], b[2], b[3])] + Words(b[4..])
  }

  /** `new Uint32Array(b.buffer)`: the constructor throws a `RangeError` when
      the length is not a multiple of four. */
  function BytesToWords(b: seq<byte>): (r: Option<seq<uint32>>)
    ensures r.None? <==> |b| % 4 != 0
  {
    if |b| % 4 != 0 then None else Some(Words(b))
  }

  lemma WordOfBytes(w: uint32)
    ensures var b := WordBytes(w); WordOf(b[0], b[1], b[2], b[3]) == w
  {
    var q1 := w / 0x100;
    var q2 := q1 / 0x100;
    assert w == q1 * 0x100 + w % 0x100;
    assert q1 == q2 * 0x100 + q1 % 0x100;
    assert q2 == w / TWO_16;
    assert q2 / 0x100 == w / TWO_24;
    assert q2 == (q2 / 0x100) * 0x100 + q2 % 0x100;
  }

  lemma BytesOfWord(b0: byte, b1: byte, b2: byte, b3: byte)
    ensures WordBytes(WordOf(b0, b1, b2, b3)) == [b0, b1, b2, b3]
  {
    var w := WordOf(b0, b1, b2, b3);
    assert w / 0x100 == b1 + b2 * 0x100 + b3 * TWO_16;
    assert w / TWO_16 == b2 + b3 * 0x100;
    assert w / TWO_24 == b3;
  }

  /** Viewing the bytes of a word array as words gives the words back ... */
  lemma {:induction false} WordsOfBytes(ws: seq<uint32>)
    ensures BytesToWords(WordsToBytes(ws)) == Some(ws)
  {
    if |ws| > 0 {
      WordsOfBytes(ws[1..]);
      WordOfBytes(ws[0]);
      var b := WordsToBytes(ws);
      assert b[4..] == WordsToBytes(ws[1..]);
      assert ws == [ws[0]] + ws[1..];
    }
  }

  /** ... and a buffer that views as words is the bytes of those words. */
  lemma {:induction false} BytesOfWords(b: seq<byte>)
    requires |b| % 4 == 0
    ensures WordsToBytes(Words(b)) == b
    decreases |b|
  {
    if |b| > 0 {
      BytesOfWords(b[4..]);
      BytesOfWord(b[0], b[1], b[2], b[3]);
      var ws := Words(b);
      assert ws[1..] == Words(b[4..]);
      assert b == [b[0], b[1], b[2], b[3]] + b[4..];
    }
  }

  /** Every cell below `width * 1024` lies in one of the first 1024 rows. */
  lemma RowBelow1024(i: nat, width: nat)
    requires 0 < width && i < width * 1024
    ensures 0 <= i / width < 1024 && 0 <= i % width < width
  {
  }

  /** The grids the diff can pack: rows below 1024 and columns below 65536. */
  predicate DiffFits(width: nat, n: nat)
  {
    n == 0 || (0 < width < TWO_16 && n <= width * 1024)
  }

  /** A canvas at most 1024 rows high fits the diff. */
  lemma GridFits(width: nat, height: nat)
    requires width < TWO_16 && height <= 1024
    ensures DiffFits(width, width * height)
  {
    if width > 0 {
      assert width * height <= width * 1024 by {
        MulLeft(width, height, 1024);
      }
    }
  }

  /** Multiplying by the same factor keeps the order. */
  lemma MulLeft(a: nat, b: nat, c: nat)
    requires b <= c
    ensures a * b <= a * c
  {
  }

  /** The records `appendPng` collects for the first `n` cells: one for each
      cell whose id changes, in cell order, with `dx = i % width` and
      `dy = floor(i / width)`. */
  function Diff(oldG: seq<PaletteId>, newG: seq<PaletteId>, width: nat, n: nat): (d: seq<uint32>)
    requires n <= |oldG| && n <= |newG| && DiffFits(width, n)
    ensures |d| <= n
  {
    if n == 0 then []
    else
      var d := Diff(oldG, newG, width, n - 1);
      if newG[n - 1] != oldG[n - 1] then d + [RecordFor(n - 1, width, newG[n - 1])] else d
  }

  /** The record of cell `i`: column `i % width`, row `floor(i / width)`. */
  function RecordFor(i: nat, width: nat, id: PaletteId): uint32
    requires 0 < width < TWO_16 && i < width * 1024
  {
    var dx, dy := i % width, i / width;
    RowBelow1024(i, width);
    Pack(dx, dy, id)
  }

  /** The diff loop of `appendPng` (lines 252-260). */
  method DiffCells(oldG: seq<PaletteId>, newG: seq<PaletteId>, width: nat) returns (diffs: seq<uint32>)
    requires |oldG| == |newG| && DiffFits(width, |newG|)
    ensures diffs == Diff(oldG, newG, width, |newG|)
  {
    diffs := [];
    for i := 0 to |newG|
      invariant diffs == Diff(oldG, newG, width, i)
    {
      if newG[i] != oldG[i] {
        diffs := diffs + [RecordFor(i, width, newG[i])];
      }
    }
  }

  /** The record packed for cell `i` of a grid at most 1024 wide names cell `i`. */
  lemma CellOfPack(i: nat, width: nat, id: PaletteId)
    requires 0 < width <= 1024 && i < width * 1024
    ensures CellIndex(RecordFor(i, width, id), width) == i
    ensures Unpack(RecordFor(i, width, id)).id == id
  {
    RowBelow1024(i, width);
    UnpackPack(i % width, i / width, id);
  }

  /** Applying the diff of the first `n` cells to the old grid gives the new
      grid on those cells and the old one after them. */
  lemma {:induction false} ApplyDiffPrefix(oldG: seq<PaletteId>, newG: seq<PaletteId>, width: nat, n: nat)
    requires |oldG| == |newG| && n <= |newG| && DiffFits(width, n) && width <= 1024
    ensures ApplyRecords(oldG, width, Diff(oldG, newG, width, n)) == newG[..n] + oldG[n..]
  {
    if n > 0 {
      var i := n - 1;
      var d := Diff(oldG, newG, width, i);
      ApplyDiffPrefix(oldG, newG, width, i);
      var g := ApplyRecords(oldG, width, d);
      if newG[i] != oldG[i] {
        var p := RecordFor(i, width, newG[i]);
        CellOfPack(i, width, newG[i]);
        assert (d + [p])[..|d|] == d;
        assert ApplyRecords(oldG, width, d + [p]) == ApplyRecord(g, width, p);
        assert g[i := newG[i]] == newG[..n] + oldG[n..];
      } else {
        assert newG[..i] + oldG[i..] == newG[..n] + oldG[n..];
      }
    }
  }

  /** Applying the whole diff to the old grid gives the new grid, for canvases
      at most 1024 cells wide. */
  lemma ApplyDiff(oldG: seq<PaletteId>, newG: seq<PaletteId>, width: nat)
    requires |oldG| == |newG| && DiffFits(width, |newG|) && width <= 1024
    ensures ApplyRecords(oldG, width, Diff(oldG, newG, width, |newG|)) == newG
  {
    ApplyDiffPrefix(oldG, newG, width, |newG|);
    assert newG[..|newG|] + oldG[|newG|..] == newG;
  }

  /** The diff is empty exactly when no cell changes. */
  lemma {:induction false} DiffEmpty(oldG: seq<PaletteId>, newG: seq<PaletteId>, width: nat, n: nat)
    requires n <= |oldG| && n <= |newG| && DiffFits(width, n)
    ensures Diff(oldG, newG, width, n) == [] <==> oldG[..n] == newG[..n]
  {
    if n > 0 {
      DiffEmpty(oldG, newG, width, n - 1);
      assert oldG[..n] == oldG[..n - 1] + [oldG[n - 1]];
      assert newG[..n] == newG[..n - 1] + [newG[n - 1]];
      if oldG[..n] == newG[..n] {
        assert oldG[n - 1] == oldG[..n][n - 1];
        assert oldG[..n - 1] == oldG[..n][..n - 1];
        assert newG[..n - 1] == newG[..n][..n - 1];
      }
    }
  }

  /** Every record names a changed cell below `n` and carries its new id. */
  ghost predicate NamesChangedCells(oldG: seq<PaletteId>, newG: seq<PaletteId>, width: nat, n: nat, d: seq<uint32>)
    requires n <= |oldG| && n <= |newG|
  {
    forall j :: 0 <= j < |d| ==>
      CellIndex(d[j], width) < n && oldG[CellIndex(d[j], width)] != newG[CellIndex(d[j], width)]
      && Unpack(d[j]).id == newG[CellIndex(d[j], width)]
  }

  /** The records name their cells in strictly ascending order. */
  ghost predicate AscendingCells(d: seq<uint32>, width: nat)
  {
    forall a, b :: 0 <= a < b < |d| ==> CellIndex(d[a], width) < CellIndex(d[b], width)
  }

  /** Every changed cell below `n` is named by some record. */
  ghost predicate CoversChangedCells(oldG: seq<PaletteId>, newG: seq<PaletteId>, width: nat, n: nat, d: seq<uint32>)
    requires n <= |oldG| && n <= |newG|
  {
    forall i :: 0 <= i < n && oldG[i] != newG[i] ==> exists j :: 0 <= j < |d| && CellIndex(d[j], width) == i
  }

  /** Every record of the diff names a changed cell and carries its new id,
      in strictly ascending cell order. */
  lemma {:induction false} DiffRecordsSound(oldG: seq<PaletteId>, newG: seq<PaletteId>, width: nat, n: nat)
    requires n <= |oldG| && n <= |newG| && 0 < width <= 1024 && n <= width * 1024
    ensures NamesChangedCells(oldG, newG, width, n, Diff(oldG, newG, width, n))
    ensures AscendingCells(Diff(oldG, newG, width, n), width)
  {
    if n > 0 {
      var i := n - 1;
      DiffRecordsSound(oldG, newG, width, i);
      var d := Diff(oldG, newG, width, i);
      if newG[i] != oldG[i] {
        var p := RecordFor(i, width, newG[i]);
        CellOfPack(i, width, newG[i]);
        var e := d + [p];
        assert e[|d|] == p;
        assert forall j :: 0 <= j < |d| ==> e[j] == d[j];
      }
    }
  }

  /** Every changed cell has a record in the diff. */
  lemma {:induction false} DiffRecordsComplete(oldG: seq<PaletteId>, newG: seq<PaletteId>, width: nat, n: nat)
    requires n <= |oldG| && n <= |newG| && 0 < width <= 1024 && n <= width * 1024
    ensures CoversChangedCells(oldG, newG, width, n, Diff(oldG, newG, width, n))
  {
    if n > 0 {
      var i := n - 1;
      DiffRecordsComplete(oldG, newG, width, i);
      var d := Diff(oldG, newG, width, i);
      if newG[i] != oldG[i] {
        var p := RecordFor(i, width, newG[i]);
        CellOfPack(i, width, newG[i]);
        var e := d + [p];
        assert e[|d|] == p;
        forall k | 0 <= k < n && oldG[k] != newG[k]
          ensures exists j :: 0 <= j < |e| && CellIndex(e[j], width) == k
        {
          if k < i {
            var j :| 0 <= j < |d| && CellIndex(d[j], width) == k;
            assert e[j] == d[j];
          } else {
            assert CellIndex(e[|d|], width) == k;
          }
        }
      }
    }
  }
}
