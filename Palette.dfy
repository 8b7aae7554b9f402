/** The fixed 64-colour palette, the reverse lookup `paletteMap` and the
    conversions between RGBA pixels and palette ids (wpls.js lines 1-6, the pixel
    loops of `pngToWpls` and `appendPng`, and the render loops of `wplsToPng` and
    `toPng`). */
module Palette {
  import opened Bytes
  import opened Errors

  datatype Rgb = Rgb(r: byte, g: byte, b: byte)

  const PALETTE_SIZE: int := 64
  type PaletteId = x: int | 0 <= x < 64

  /** `PALETTE[id]`.  Entries 0 and 1 are both black: id 0 is what a transparent
      pixel becomes, id 1 is opaque black. */
  function Palette(id: PaletteId): Rgb
  {
    match id
    case 0 => Rgb(0, 0, 0)
    case 1 => Rgb(0, 0, 0)
    case 2 => Rgb(60, 60, 60)
    case 3 => Rgb(120, 120, 120)
    case 4 => Rgb(210, 210, 210)
    case 5 => Rgb(255, 255, 255)
    case 6 => Rgb(96, 0, 24)
    case 7 => Rgb(237, 28, 36)
    case 8 => Rgb(255, 127, 39)
    case 9 => Rgb(246, 170, 9)
    case 10 => Rgb(249, 221, 59)
    case 11 => Rgb(255, 250, 188)
    case 12 => Rgb(14, 185, 104)
    case 13 => Rgb(19, 230, 123)
    case 14 => Rgb(135, 255, 94)
    case 15 => Rgb(12, 129, 110)
    case 16 => Rgb(16, 174, 166)
    case 17 => Rgb(19, 225, 190)
    case 18 => Rgb(40, 80, 158)
    case 19 => Rgb(64, 147, 228)
    case 20 => Rgb(96, 247, 242)
    case 21 => Rgb(107, 80, 246)
    case 22 => Rgb(153, 177, 251)
    case 23 => Rgb(120, 12, 153)
    case 24 => Rgb(170, 56, 185)
    case 25 => Rgb(224, 159, 249)
    case 26 => Rgb(203, 0, 122)
    case 27 => Rgb(236, 31, 128)
    case 28 => Rgb(243, 141, 169)
    case 29 => Rgb(104, 70, 52)
    case 30 => Rgb(149, 104, 42)
    case 31 => Rgb(248, 178, 119)
    case 32 => Rgb(170, 170, 170)
    case 33 => Rgb(165, 14, 30)
    case 34 => Rgb(250, 128, 114)
    case 35 => Rgb(228, 92, 26)
    case 36 => Rgb(214, 181, 148)
    case 37 => Rgb(156, 132, 49)
    case 38 => Rgb(197, 173, 49)
    case 39 => Rgb(232, 212, 95)
    case 40 => Rgb(74, 107, 58)
    case 41 => Rgb(90, 148, 74)
    case 42 => Rgb(132, 197, 115)
    case 43 => Rgb(15, 121, 159)
    case 44 => Rgb(187, 250, 242)
    case 45 => Rgb(125, 199, 255)
    case 46 => Rgb(77, 49, 184)
    case 47 => Rgb(74, 66, 132)
    case 48 => Rgb(122, 113, 196)
    case 49 => Rgb(181, 174, 241)
    case 50 => Rgb(219, 164, 99)
    case 51 => Rgb(209, 128, 81)
    case 52 => Rgb(255, 197, 165)
    case 53 => Rgb(155, 82, 73)
    case 54 => Rgb(209, 128, 120)
    case 55 => Rgb(250, 182, 164)
    case 56 => Rgb(123, 99, 82)
    case 57 => Rgb(156, 132, 107)
    case 58 => Rgb(51, 57, 65)
    case 59 => Rgb(109, 117, 141)
    case 60 => Rgb(179, 185, 209)
    case 61 => Rgb(109, 100, 63)
    case 62 => Rgb(148, 140, 107)
    case _ => Rgb(205, 197, 158)  // id 63
  }

  /** Apart from the duplicated black at position 0, the palette has no
      repeated colour. */
  lemma PaletteDistinct()
    ensures Palette(0) == Palette(1) == Rgb(0, 0, 0)
    ensures forall i: PaletteId, j: PaletteId :: 1 <= i < j ==> Palette(i) != Palette(j)
  {
  }

  /** The first `n` entries of `PALETTE`, as an array. */
  function PaletteUpTo(n: nat): (pal: seq<Rgb>)
    requires n <= PALETTE_SIZE
    ensures |pal| == n
  {
    if n == 0 then [] else PaletteUpTo(n - 1) + [Palette(n - 1)]
  }

  /** Entry `i` of the array is `PALETTE[i]`. */
  lemma {:induction false} PaletteUpToAt(n: nat, i: nat)
    requires i < n <= PALETTE_SIZE
    ensures PaletteUpTo(n)[i] == Palette(i)
  {
    if i < n - 1 {
      PaletteUpToAt(n - 1, i);
    }
  }

  /** `PALETTE`: the 64 colours, indexed by palette id. */
  function PaletteArray(): (pal: seq<Rgb>)
    ensures |pal| == PALETTE_SIZE
  {
    PaletteUpTo(PALETTE_SIZE)
  }

  /** Ids 0 and 1 are both black ... */
  lemma PaletteArrayBlack()
    ensures PaletteArray()[0] == PaletteArray()[1] == Rgb(0, 0, 0)
  {
    PaletteUpToAt(PALETTE_SIZE, 0);
    PaletteUpToAt(PALETTE_SIZE, 1);
    PaletteDistinct();
  }

  /** ... and any two other ids have different colours. */
  lemma PaletteArrayDistinct(i: PaletteId, j: PaletteId)
    requires 1 <= i && 1 <= j && i != j
    ensures PaletteArray()[i] != PaletteArray()[j]
  {
    PaletteUpToAt(PALETTE_SIZE, i);
    PaletteUpToAt(PALETTE_SIZE, j);
    PaletteDistinct();
  }

  /** What `paletteMap.get(c)` holds once the first `n` entries of `pal` have
      been entered by the loop at lines 3-6, which runs `set` in id order. */
  function LastIndexBelow(pal: seq<Rgb>, c: Rgb, n: nat): (r: Option<PaletteId>)
    requires n <= |pal| <= PALETTE_SIZE
  {
    if n == 0 then None
    else if pal[n - 1] == c then Some(n - 1)
    else LastIndexBelow(pal, c, n - 1)
  }

  /** A colour the search finds sits at the id found, ... */
  lemma {:induction false} LastIndexBelowFound(pal: seq<Rgb>, c: Rgb, n: nat)
    requires n <= |pal| <= PALETTE_SIZE
    ensures var r := LastIndexBelow(pal, c, n); r.Some? ==> r.value < n && pal[r.value] == c
  {
    if n > 0 && pal[n - 1] != c {
      LastIndexBelowFound(pal, c, n - 1);
    }
  }

  /** ... which is the LAST id below `n` holding it, since a later `set` with
      the same key overwrites an earlier one ... */
  lemma {:induction false} LastIndexBelowIsLast(pal: seq<Rgb>, c: Rgb, n: nat)
    requires n <= |pal| <= PALETTE_SIZE
    ensures var r := LastIndexBelow(pal, c, n); r.Some? ==> forall j :: r.value < j < n ==> pal[j] != c
  {
    if n > 0 && pal[n - 1] != c {
      LastIndexBelowIsLast(pal, c, n - 1);
    }
  }

  /** ... and nothing is found exactly when no entry below `n` is the colour. */
  lemma {:induction false} LastIndexBelowNone(pal: seq<Rgb>, c: Rgb, n: nat)
    requires n <= |pal| <= PALETTE_SIZE
    ensures LastIndexBelow(pal, c, n).None? <==> forall j :: 0 <= j < n ==> pal[j] != c
  {
    if n > 0 && pal[n - 1] != c {
      LastIndexBelowNone(pal, c, n - 1);
    }
  }

  /** `paletteMap.get(c)` for the finished map. */
  function Lookup(c: Rgb): Option<PaletteId>
  {
    LastIndexBelow(PaletteArray(), c, PALETTE_SIZE)
  }

  /** The loop at lines 3-6 that fills `paletteMap`: its keys are the palette
      colours, each mapped to the last id holding it. */
  method BuildPaletteMap() returns (m: map<Rgb, PaletteId>)
    ensures forall c :: c in m <==> Lookup(c).Some?
    ensures forall c :: c in m ==> m[c] == Lookup(c).value
  {
    var pal := PaletteArray();
    m := map[];
    for id := 0 to PALETTE_SIZE
      invariant forall c :: c in m <==> LastIndexBelow(pal, c, id).Some?
      invariant forall c :: c in m ==> m[c] == LastIndexBelow(pal, c, id).value
    {
      m := m[pal[id] := id];
    }
  }

  /** A colour is looked up exactly when it is in the palette, and then as an
      id whose entry it is. */
  lemma LookupFinds(c: Rgb)
    ensures Lookup(c).Some? <==> c in PaletteArray()
    ensures Lookup(c).Some? ==> PaletteArray()[Lookup(c).value] == c
  {
    LastIndexBelowNone(PaletteArray(), c, PALETTE_SIZE);
    LastIndexBelowFound(PaletteArray(), c, PALETTE_SIZE);
  }

  /** Every palette colour other than the duplicated black is looked up as its own id. */
  lemma LookupOfPalette(id: PaletteId)
    requires 1 <= id
    ensures Lookup(PaletteArray()[id]) == Some(id)
  {
    var pal := PaletteArray();
    var c := pal[id];
    LastIndexBelowNone(pal, c, PALETTE_SIZE);
    LastIndexBelowFound(pal, c, PALETTE_SIZE);
    LastIndexBelowIsLast(pal, c, PALETTE_SIZE);
    var v := Lookup(c).value;
    if v != id {
      PaletteArrayDistinct(id, v);
    }
  }

  /** Opaque black gets id 1, the later of its two entries. */
  lemma LookupOpaqueBlack()
    ensures Lookup(Rgb(0, 0, 0)) == Some(1)
  {
    PaletteArrayBlack();
    LookupOfPalette(1);
  }

  /** No colour is ever looked up as id 0, which is reserved for transparency. */
  lemma LookupNeverZero(c: Rgb)
    ensures Lookup(c) != Some(0)
  {
    LastIndexBelowFound(PaletteArray(), c, PALETTE_SIZE);
    if Lookup(c) == Some(0) {
      PaletteArrayBlack();
      LookupOpaqueBlack();
    }
  }

  /** The palette id of one RGBA pixel, as the loops at lines 57-64 and 242-250
      compute it: a transparent pixel becomes 0 whatever its colour, and an
      opaque pixel of unknown colour is an error naming the colour. */
  function PixelId(r: byte, g: byte, b: byte, a: byte): (res: Result<PaletteId>)
    ensures a == 0 ==> res == Ok(0)
    ensures res.Err? ==> a != 0 && res.error == UnknownColor(r, g, b)
  {
    if a == 0 then Ok(0)
    else
      match Lookup(Rgb(r, g, b))
      case None => Err(UnknownColor(r, g, b))
      case Some(id) => Ok(id)
  }

  /** A pixel that is not fully transparent converts exactly when its colour is
      in the palette, and then to a non-zero id whose entry is that colour. */
  lemma PixelIdMeaning(r: byte, g: byte, b: byte, a: byte)
    requires a != 0
    ensures PixelId(r, g, b, a).Ok? <==> Rgb(r, g, b) in PaletteArray()
    ensures PixelId(r, g, b, a).Ok? ==> PixelId(r, g, b, a).value != 0 && PaletteArray()[PixelId(r, g, b, a).value] == Rgb(r, g, b)
  {
    LookupFinds(Rgb(r, g, b));
    LookupNeverZero(Rgb(r, g, b));
  }

  /** The id of pixel `i` of an RGBA buffer. */
  function PixelAt(data: seq<byte>, i: nat): Result<PaletteId>
    requires 4 * i + 4 <= |data|
  {
    PixelId(data[4 * i], data[4 * i + 1], data[4 * i + 2], data[4 * i + 3])
  }

  /** The index grid of the first `n` pixels, or the error of the first pixel
      whose colour is unknown. */
  function ImageIds(data: seq<byte>, n: nat): (res: Result<seq<PaletteId>>)
    requires 4 * n <= |data|
    ensures res.Ok? <==> forall i :: 0 <= i < n ==> PixelAt(data, i).Ok?
    ensures res.Ok? ==> |res.value| == n && forall i :: 0 <= i < n ==> PixelAt(data, i) == Ok(res.value[i])
    ensures res.Err? ==>
      exists i :: 0 <= i < n && PixelAt(data, i) == Err(res.error) && forall j :: 0 <= j < i ==> PixelAt(data, j).Ok?
  {
    if n == 0 then Ok([])
    else
      match ImageIds(data, n - 1)
      case Err(e) => Err(e)
      case Ok(ids) =>
        match PixelAt(data, n - 1)
        case Err(e) => Err(e)
        case Ok(id) => Ok(ids + [id])
  }

  /** The pixel loop of `pngToWpls` (lines 56-65), repeated verbatim in
      `appendPng` (lines 241-250): fills a fresh grid of `n` ids, or stops at the
      first unknown colour. */
  method ConvertPixels(data: seq<byte>, n: nat) returns (res: Result<seq<PaletteId>>)
    requires 4 * n <= |data|
    ensures res == ImageIds(data, n)
  {
    var indices := new PaletteId[n];
    var i := 0;
    while i < n
      invariant i <= n
      invariant ImageIds(data, i) == Ok(indices[..i])
    {
      var id := PixelId(data[4 * i], data[4 * i + 1], data[4 * i + 2], data[4 * i + 3]);
      if id.Err? {
        // pixel i is the first that fails, so it decides the whole image
        assert PixelAt(data, i) == id;
        ghost var whole := ImageIds(data, n);
        ghost var j :| 0 <= j < n && PixelAt(data, j) == Err(whole.error) && forall k :: 0 <= k < j ==> PixelAt(data, k).Ok?;
        assert j == i;
        return Err(id.error);
      }
      indices[i] := id.value;
      assert indices[..i + 1] == indices[..i] + [id.value];
      i := i + 1;
    }
    assert indices[..i] == indices[..];
    res := Ok(indices[..]);
  }

  /** The four RGBA bytes drawn for `id`: its palette colour, opaque unless the
      id is 0, which is drawn fully transparent. */
  function PixelBytes(id: PaletteId): (px: seq<byte>)
  {
    var c := PaletteArray()[id];
    [c.r, c.g, c.b, if id != 0 then 255 else 0]
  }

  /** The RGBA buffer drawn for a grid of ids (`width * height * 4` bytes). */
  function Render(ids: seq<PaletteId>): (px: seq<byte>)
    ensures |px| == 4 * |ids|
  {
    if |ids| == 0 then [] else Render(ids[..|ids| - 1]) + PixelBytes(ids[|ids| - 1])
  }

  /** Pixel `i` of the rendered buffer is drawn from id `i` alone. */
  lemma {:induction false} RenderAt(ids: seq<PaletteId>, i: nat)
    requires i < |ids|
    ensures Render(ids)[4 * i..4 * i + 4] == PixelBytes(ids[i])
  {
    var n := |ids| - 1;
    if i < n {
      RenderAt(ids[..n], i);
      assert ids[..n][i] == ids[i];
      assert Render(ids)[4 * i..4 * i + 4] == Render(ids[..n])[4 * i..4 * i + 4];
    }
  }

  /** The render loop of `wplsToPng` (lines 119-126) and `toPng` (lines 225-233). */
  method RenderIndices(ids: seq<PaletteId>) returns (pixels: seq<byte>)
    ensures pixels == Render(ids)
  {
    var pal := PaletteArray();
    var out := new byte[4 * |ids|];
    var i := 0;
    while i < |ids|
      invariant i <= |ids|
      invariant out[..4 * i] == Render(ids[..i])
    {
      var id := ids[i];
      var rgb := pal[id];
      out[i * 4 + 0] := rgb.r;
      out[i * 4 + 1] := rgb.g;
      out[i * 4 + 2] := rgb.b;
      out[i * 4 + 3] := if id != 0 then 255 else 0;
      assert out[..4 * i + 4] == out[..4 * i] + PixelBytes(id);
      assert ids[..i + 1][..i] == ids[..i];
      i := i + 1;
    }
    assert ids[..i] == ids;
    assert out[..4 * i] == out[..];
    pixels := out[..];
  }

  /** A pixel that survives the conversion to an id and back unchanged: fully
      transparent black, or an opaque palette colour. */
  predicate CanonicalPixel(data: seq<byte>, i: nat)
    requires 4 * i + 4 <= |data|
  {
    (data[4 * i + 3] == 0 && data[4 * i] == 0 && data[4 * i + 1] == 0 && data[4 * i + 2] == 0)
    || (data[4 * i + 3] == 255 && Rgb(data[4 * i], data[4 * i + 1], data[4 * i + 2]) in PaletteArray())
  }

  /** A canonical colour converts, and its id is drawn as the same four
      bytes. */
  lemma ColourRoundTrip(r: byte, g: byte, b: byte, a: byte)
    requires (a == 0 && r == 0 && g == 0 && b == 0) || (a == 255 && Rgb(r, g, b) in PaletteArray())
    ensures PixelId(r, g, b, a).Ok?
    ensures PixelBytes(PixelId(r, g, b, a).value) == [r, g, b, a]
  {
    if a != 0 {
      PixelIdMeaning(r, g, b, a);
    } else {
      PaletteArrayBlack();
    }
  }

  /** A canonical pixel converts, and its id is drawn as the same four bytes. */
  lemma PixelRoundTrip(data: seq<byte>, i: nat)
    requires 4 * i + 4 <= |data| && CanonicalPixel(data, i)
    ensures PixelAt(data, i).Ok?
    ensures PixelBytes(PixelAt(data, i).value) == data[4 * i..4 * i + 4]
  {
    ColourRoundTrip(data[4 * i], data[4 * i + 1], data[4 * i + 2], data[4 * i + 3]);
    assert data[4 * i..4 * i + 4] == [data[4 * i], data[4 * i + 1], data[4 * i + 2], data[4 * i + 3]];
  }

  /** Converting the first `n` canonical pixels to ids and rendering the ids
      gives back those pixels byte for byte. */
  lemma RenderOfImage(data: seq<byte>, n: nat)
    requires 4 * n <= |data|
    requires forall i :: 0 <= i < n ==> CanonicalPixel(data, i)
    ensures ImageIds(data, n).Ok?
    ensures Render(ImageIds(data, n).value) == data[..4 * n]
  {
    forall i | 0 <= i < n
      ensures PixelAt(data, i).Ok? && PixelBytes(PixelAt(data, i).value) == data[4 * i..4 * i + 4]
    {
      PixelRoundTrip(data, i);
    }
    RenderOfPixels(ImageIds(data, n).value, data, n);
  }

  /** Ids each drawn as the matching four bytes of `data` render as the
      first `n` pixels of `data`. */
  lemma {:induction false} RenderOfPixels(ids: seq<PaletteId>, data: seq<byte>, n: nat)
    requires |ids| == n && 4 * n <= |data|
    requires forall i :: 0 <= i < n ==> PixelBytes(ids[i]) == data[4 * i..4 * i + 4]
    ensures Render(ids) == data[..4 * n]
  {
    if n > 0 {
      RenderOfPixels(ids[..n - 1], data, n - 1);
      assert data[..4 * n] == data[..4 * n - 4] + data[4 * n - 4..4 * n];
    }
  }

  /** Every id other than 0 is drawn as an opaque pixel that converts back to
      the same id: drawing then converting loses nothing. */
  lemma PixelOfId(id: PaletteId)
    ensures var px := PixelBytes(id); PixelId(px[0], px[1], px[2], px[3]) == Ok(id)
  {
    if id != 0 {
      LookupOfPalette(id);
    }
  }
}
