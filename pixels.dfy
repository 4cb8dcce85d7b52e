/**
 * The in-place pixel work of a camera picture (640 x 480): the rotation
 * between landscape and portrait layouts, the BGRA to RGBA swap, and the
 * copy of an RGB picture into the rows of a 1024-texel-wide texture.
 */
module PixelOps {
  import opened Wire

  const CAM_WIDTH := 640
  const CAM_HEIGHT := 480
  const CAM_TEX_WIDTH := 1024
  const CAM_TEX_HEIGHT := 512

  /** Offset of pixel `p` in a buffer of `pixel` bytes per pixel (3 or 4). */
  function Bytes(p: int, pixel: int): int
  {
    if pixel == 3 then p * 3 else p * 4
  }

  /** The pixel byte `j` belongs to. */
  function PixelOf(j: int, pixel: int): int
  {
    if pixel == 3 then j / 3 else j / 4
  }

  /** The channel of byte `j` within its pixel. */
  function Channel(j: int, pixel: int): int
  {
    if pixel == 3 then j % 3 else j % 4
  }

  /** Number of bytes of a camera picture of `pixel` bytes per pixel. */
  function PictureLen(pixel: int): int
  {
    Bytes(CAM_WIDTH * CAM_HEIGHT, pixel)
  }

  predicate IsPixelSize(pixel: int)
  {
    pixel == 3 || pixel == 4
  }

  /*
   * Loop coordinates. The rotation loop walks x in [0, W) and y in [0, H);
   * portrait pixel `x * H + y` and landscape pixel `(H - 1 - y) * W + x` are
   * the two ends of one move.
   */

  function PortIndex(x: int, y: int, pixel: int): int
  {
    Bytes(x * CAM_HEIGHT + y, pixel)
  }

  function LandIndex(x: int, y: int, pixel: int): int
  {
    Bytes((CAM_HEIGHT - 1 - y) * CAM_WIDTH + x, pixel)
  }

  /** Where the move of (x, y) writes: portrait when turning landscape to portrait. */
  function DestIndex(land2port: bool, x: int, y: int, pixel: int): int
  {
    if land2port then PortIndex(x, y, pixel) else LandIndex(x, y, pixel)
  }

  /** Where the move of (x, y) reads from. */
  function SrcIndex(land2port: bool, x: int, y: int, pixel: int): int
  {
    if land2port then LandIndex(x, y, pixel) else PortIndex(x, y, pixel)
  }

  /** The loop x of the move that writes byte `j`. */
  function LoopX(land2port: bool, j: int, pixel: int): int
    requires IsPixelSize(pixel)
  {
    var p := PixelOf(j, pixel);
    if land2port then p / CAM_HEIGHT else p % CAM_WIDTH
  }

  /** The loop y of the move that writes byte `j`. */
  function LoopY(land2port: bool, j: int, pixel: int): int
    requires IsPixelSize(pixel)
  {
    var p := PixelOf(j, pixel);
    if land2port then p % CAM_HEIGHT else CAM_HEIGHT - 1 - p / CAM_WIDTH
  }

  /** Byte `j` of the rotated picture: the colour bytes move, the fourth byte stays. */
  function RotatedAt(s: seq<byte>, pixel: int, land2port: bool, j: int): byte
    requires IsPixelSize(pixel) && |s| == PictureLen(pixel) && 0 <= j < |s|
  {
    var c := Channel(j, pixel);
    if c >= 3 then s[j]
    else
      var x, y := LoopX(land2port, j, pixel), LoopY(land2port, j, pixel);
      DecomposeIndex(land2port, j, pixel);
      MoveInRange(land2port, x, y, pixel, c);
      s[SrcIndex(land2port, x, y, pixel) + c]
  }

  /** The picture turned from landscape to portrait (or back when `land2port` is false). */
  function Rotated(s: seq<byte>, pixel: int, land2port: bool): (r: seq<byte>)
    requires IsPixelSize(pixel) && |s| == PictureLen(pixel)
    ensures |r| == |s|
  {
    seq(|s|, j requires 0 <= j < |s| => RotatedAt(s, pixel, land2port, j))
  }

  /** Byte `j` of a picture lies in the move of its loop coordinates. */
  lemma DecomposeIndex(land2port: bool, j: int, pixel: int)
    requires IsPixelSize(pixel) && 0 <= j < PictureLen(pixel)
    ensures 0 <= LoopX(land2port, j, pixel) < CAM_WIDTH && 0 <= LoopY(land2port, j, pixel) < CAM_HEIGHT
    ensures j == DestIndex(land2port, LoopX(land2port, j, pixel), LoopY(land2port, j, pixel), pixel) + Channel(j, pixel)
  {
    var p := PixelOf(j, pixel);
    assert j == Bytes(p, pixel) + Channel(j, pixel);
    assert 0 <= p < CAM_WIDTH * CAM_HEIGHT;
  }

  /** Both ends of the move of (x, y), channel c, lie in the picture, and the destination byte has loop coordinates (x, y). */
  lemma MoveInRange(land2port: bool, x: int, y: int, pixel: int, c: int)
    requires IsPixelSize(pixel) && 0 <= x < CAM_WIDTH && 0 <= y < CAM_HEIGHT && 0 <= c < pixel
    ensures 0 <= DestIndex(land2port, x, y, pixel) + c < PictureLen(pixel)
    ensures 0 <= SrcIndex(land2port, x, y, pixel) + c < PictureLen(pixel)
    ensures SrcIndex(land2port, x, y, pixel) == DestIndex(!land2port, x, y, pixel)
    ensures var j := DestIndex(land2port, x, y, pixel) + c;
      Channel(j, pixel) == c && LoopX(land2port, j, pixel) == x && LoopY(land2port, j, pixel) == y
  {
    PixelBytes(x * CAM_HEIGHT + y, pixel, c);
    PixelBytes((CAM_HEIGHT - 1 - y) * CAM_WIDTH + x, pixel, c);
    PortPixel(x, y);
    LandPixel(x, y);
  }

  /** The three colour bytes of both ends of a move lie in the picture. */
  lemma MoveBounds(land2port: bool, x: int, y: int, pixel: int)
    requires IsPixelSize(pixel) && 0 <= x < CAM_WIDTH && 0 <= y < CAM_HEIGHT
    ensures 0 <= DestIndex(land2port, x, y, pixel) && DestIndex(land2port, x, y, pixel) + 3 <= PictureLen(pixel)
    ensures 0 <= SrcIndex(land2port, x, y, pixel) && SrcIndex(land2port, x, y, pixel) + 3 <= PictureLen(pixel)
  {
    MoveInRange(land2port, x, y, pixel, 0);
    MoveInRange(land2port, x, y, pixel, 2);
  }

  /** Byte c of pixel p is found back as pixel p, channel c, inside the picture. */
  lemma PixelBytes(p: int, pixel: int, c: int)
    requires IsPixelSize(pixel) && 0 <= p < CAM_WIDTH * CAM_HEIGHT && 0 <= c < pixel
    ensures 0 <= Bytes(p, pixel) + c < PictureLen(pixel)
    ensures PixelOf(Bytes(p, pixel) + c, pixel) == p && Channel(Bytes(p, pixel) + c, pixel) == c
  {
  }

  /** Portrait pixel `x * H + y` has column x and row y. */
  lemma PortPixel(x: int, y: int)
    requires 0 <= x < CAM_WIDTH && 0 <= y < CAM_HEIGHT
    ensures var p := x * CAM_HEIGHT + y; 0 <= p < CAM_WIDTH * CAM_HEIGHT && p / CAM_HEIGHT == x && p % CAM_HEIGHT == y
  {
  }

  /** Landscape pixel `(H - 1 - y) * W + x` has column x and row H - 1 - y. */
  lemma LandPixel(x: int, y: int)
    requires 0 <= x < CAM_WIDTH && 0 <= y < CAM_HEIGHT
    ensures var p := (CAM_HEIGHT - 1 - y) * CAM_WIDTH + x;
      0 <= p < CAM_WIDTH * CAM_HEIGHT && p % CAM_WIDTH == x && p / CAM_WIDTH == CAM_HEIGHT - 1 - y
  {
  }

  /** Turning a picture to portrait and back restores every byte. */
  lemma RotationRoundTrip(s: seq<byte>, pixel: int)
    requires IsPixelSize(pixel) && |s| == PictureLen(pixel)
    ensures Rotated(Rotated(s, pixel, true), pixel, false) == s
  {
    var r := Rotated(s, pixel, true);
    var t := Rotated(r, pixel, false);
    forall j | 0 <= j < |s|
      ensures t[j] == s[j]
    {
      var c := Channel(j, pixel);
      if c < 3 {
        var x, y := LoopX(false, j, pixel), LoopY(false, j, pixel);
        DecomposeIndex(false, j, pixel);
        MoveInRange(false, x, y, pixel, c);
        MoveInRange(true, x, y, pixel, c);
        assert t[j] == r[PortIndex(x, y, pixel) + c];
      }
    }
  }

  /** The move of the loop's (x, y) has been done: rows before x, and y' < y in row x. */
  predicate Moved(land2port: bool, j: int, pixel: int, x: int, y: int)
    requires IsPixelSize(pixel)
  {
    var jx, jy := LoopX(land2port, j, pixel), LoopY(land2port, j, pixel);
    Channel(j, pixel) < 3 && (jx < x || (jx == x && jy < y))
  }

  /**
   * Rotates the picture in `buffer` in place, reading from a copy of it:
   * byte c < 3 of every destination pixel takes byte c of its source pixel.
   */
  method Orientation(buffer: array<byte>, pixel: int, land2port: bool)
    requires IsPixelSize(pixel) && buffer.Length == PictureLen(pixel)
    modifies buffer
    ensures buffer[..] == Rotated(old(buffer[..]), pixel, land2port)
  {
    var land := buffer[..];
    var x := 0;
    while x < CAM_WIDTH
      invariant 0 <= x <= CAM_WIDTH
      invariant Progress(buffer[..], land, pixel, land2port, x, 0)
    {
      var y := 0;
      while y < CAM_HEIGHT
        invariant 0 <= y <= CAM_HEIGHT
        invariant Progress(buffer[..], land, pixel, land2port, x, y)
      {
        MoveStep(buffer, land, pixel, land2port, x, y);
        y := y + 1;
      }
      forall j | 0 <= j < buffer.Length
        ensures Moved(land2port, j, pixel, x, CAM_HEIGHT) == Moved(land2port, j, pixel, x + 1, 0)
      {
        DecomposeIndex(land2port, j, pixel);
      }
      x := x + 1;
    }
    forall j | 0 <= j < buffer.Length
      ensures Moved(land2port, j, pixel, CAM_WIDTH, 0) == (Channel(j, pixel) < 3)
    {
      DecomposeIndex(land2port, j, pixel);
    }
  }

  /** Which bytes one move changes: the three colour bytes of the destination pixel of (x, y). */
  lemma MoveStepAt(land: seq<byte>, pixel: int, land2port: bool, x: int, y: int, j: int)
    requires IsPixelSize(pixel) && |land| == PictureLen(pixel)
    requires 0 <= x < CAM_WIDTH && 0 <= y < CAM_HEIGHT && 0 <= j < |land|
    ensures var iDst, iSrc := DestIndex(land2port, x, y, pixel), SrcIndex(land2port, x, y, pixel);
      if iDst <= j < iDst + 3 then
        Moved(land2port, j, pixel, x, y + 1) && 0 <= iSrc + (j - iDst) < |land| &&
        RotatedAt(land, pixel, land2port, j) == land[iSrc + (j - iDst)]
      else
        Moved(land2port, j, pixel, x, y + 1) == Moved(land2port, j, pixel, x, y)
  {
    var iDst := DestIndex(land2port, x, y, pixel);
    DecomposeIndex(land2port, j, pixel);
    if iDst <= j < iDst + 3 {
      MoveInRange(land2port, x, y, pixel, j - iDst);
    }
  }

  /** Every byte already moved holds its rotated value; every other byte its original one. */
  ghost predicate Progress(b: seq<byte>, land: seq<byte>, pixel: int, land2port: bool, x: int, y: int)
    requires IsPixelSize(pixel) && |land| == PictureLen(pixel)
  {
    |b| == |land| &&
    forall j :: 0 <= j < |b| ==> b[j] == Partial(land, pixel, land2port, x, y, j)
  }

  /** Byte `j` once the moves before (x, y) are done. */
  function Partial(land: seq<byte>, pixel: int, land2port: bool, x: int, y: int, j: int): byte
    requires IsPixelSize(pixel) && |land| == PictureLen(pixel) && 0 <= j < |land|
  {
    if Moved(land2port, j, pixel, x, y) then RotatedAt(land, pixel, land2port, j) else land[j]
  }

  /** The three writes of the move of (x, y), seen from one byte `j`. */
  lemma ProgressStepAt(b: seq<byte>, land: seq<byte>, pixel: int, land2port: bool, x: int, y: int, j: int)
    requires IsPixelSize(pixel) && |land| == PictureLen(pixel)
    requires 0 <= x < CAM_WIDTH && 0 <= y < CAM_HEIGHT && 0 <= j < |b|
    requires Progress(b, land, pixel, land2port, x, y)
    ensures var iDst, iSrc := DestIndex(land2port, x, y, pixel), SrcIndex(land2port, x, y, pixel);
      0 <= iDst && iDst + 3 <= |b| && 0 <= iSrc && iSrc + 3 <= |b| &&
      (if iDst <= j < iDst + 3 then land[iSrc + (j - iDst)] else b[j]) == Partial(land, pixel, land2port, x, y + 1, j)
  {
    MoveInRange(land2port, x, y, pixel, 0);
    MoveInRange(land2port, x, y, pixel, 2);
    MoveStepAt(land, pixel, land2port, x, y, j);
  }

  /** The three writes of the move of (x, y) advance the progress by one pixel. */
  lemma ProgressStep(b: seq<byte>, land: seq<byte>, pixel: int, land2port: bool, x: int, y: int)
    requires IsPixelSize(pixel) && |land| == PictureLen(pixel)
    requires 0 <= x < CAM_WIDTH && 0 <= y < CAM_HEIGHT
    requires Progress(b, land, pixel, land2port, x, y)
    ensures var iDst, iSrc := DestIndex(land2port, x, y, pixel), SrcIndex(land2port, x, y, pixel);
      0 <= iDst && iDst + 3 <= |b| && 0 <= iSrc && iSrc + 3 <= |b| &&
      Progress(b[iDst := land[iSrc]][iDst + 1 := land[iSrc + 1]][iDst + 2 := land[iSrc + 2]],
               land, pixel, land2port, x, y + 1)
  {
    var iDst, iSrc := DestIndex(land2port, x, y, pixel), SrcIndex(land2port, x, y, pixel);
    MoveBounds(land2port, x, y, pixel);
    var b': seq<byte> := b[iDst := land[iSrc]][iDst + 1 := land[iSrc + 1]][iDst + 2 := land[iSrc + 2]];
    forall j | 0 <= j < |b'|
      ensures b'[j] == Partial(land, pixel, land2port, x, y + 1, j)
    {
      ProgressStepAt(b, land, pixel, land2port, x, y, j);
      assert b'[j] == if iDst <= j < iDst + 3 then land[iSrc + (j - iDst)] else b[j];
    }
  }

  /** One move of the rotation loop: the three colour bytes of pixel (x, y). */
  method MoveStep(buffer: array<byte>, land: seq<byte>, pixel: int, land2port: bool, x: int, y: int)
    requires IsPixelSize(pixel) && |land| == PictureLen(pixel)
    requires 0 <= x < CAM_WIDTH && 0 <= y < CAM_HEIGHT
    requires Progress(buffer[..], land, pixel, land2port, x, y)
    modifies buffer
    ensures Progress(buffer[..], land, pixel, land2port, x, y + 1)
  {
    var iDst, iSrc := DestIndex(land2port, x, y, pixel), SrcIndex(land2port, x, y, pixel);
    ProgressStep(buffer[..], land, pixel, land2port, x, y);
    ghost var b: seq<byte> := buffer[..];
    buffer[iDst + 0] := land[iSrc + 0];
    buffer[iDst + 1] := land[iSrc + 1];
    buffer[iDst + 2] := land[iSrc + 2];
    assert buffer[..] == b[iDst := land[iSrc]][iDst + 1 := land[iSrc + 1]][iDst + 2 := land[iSrc + 2]];
  }

  /** Byte `j` of an RGBA picture decoded from BGRA: bytes 0 and 2 of each pixel trade places. */
  function SwapRedBlueAt(s: seq<byte>, j: int): byte
    requires |s| % 4 == 0 && 0 <= j < |s|
  {
    match j % 4
    case 0 => s[j + 2]
    case 2 => s[j - 2]
    case _ => s[j]
  }

  function SwapRedBlue(s: seq<byte>): (r: seq<byte>)
    requires |s| % 4 == 0
    ensures |r| == |s|
  {
    seq(|s|, j requires 0 <= j < |s| => SwapRedBlueAt(s, j))
  }

  /** The swap is its own inverse. */
  lemma SwapRedBlueInvolution(s: seq<byte>)
    requires |s| % 4 == 0
    ensures SwapRedBlue(SwapRedBlue(s)) == s
  {
  }

  /** The BGRA to RGBA conversion loop into a new buffer. */
  method BgraToRgba(data: array<byte>) returns (rgba: array<byte>)
    requires data.Length == PictureLen(4)
    ensures fresh(rgba) && rgba.Length == data.Length
    ensures rgba[..] == SwapRedBlue(data[..])
  {
    rgba := new byte[PictureLen(4)];
    var y, pix := 0, 0;
    while y < CAM_HEIGHT
      invariant 0 <= y <= CAM_HEIGHT && pix == y * CAM_WIDTH * 4
      invariant forall j :: 0 <= j < pix ==> rgba[j] == SwapRedBlueAt(data[..], j)
    {
      var x := 0;
      while x < CAM_WIDTH
        invariant 0 <= x <= CAM_WIDTH && pix == (y * CAM_WIDTH + x) * 4
        invariant forall j :: 0 <= j < pix ==> rgba[j] == SwapRedBlueAt(data[..], j)
      {
        SwapPixel(rgba, data, pix);
        x, pix := x + 1, pix + 4;
      }
      y := y + 1;
    }
  }

  /** One pixel of the conversion: red and blue trade places, green and alpha stay. */
  method SwapPixel(rgba: array<byte>, data: array<byte>, pix: int)
    requires rgba != data && rgba.Length == data.Length && data.Length % 4 == 0
    requires 0 <= pix && pix + 4 <= data.Length && pix % 4 == 0
    requires forall j :: 0 <= j < pix ==> rgba[j] == SwapRedBlueAt(data[..], j)
    modifies rgba
    ensures forall j :: 0 <= j < pix + 4 ==> rgba[j] == SwapRedBlueAt(data[..], j)
  {
    rgba[pix] := data[pix + 2];
    rgba[pix + 1] := data[pix + 1];
    rgba[pix + 2] := data[pix];
    rgba[pix + 3] := data[pix + 3];
    assert (pix + 1) % 4 == 1 && (pix + 2) % 4 == 2 && (pix + 3) % 4 == 3;
  }

  /** Texture byte of RGB byte `k`: rows keep their x, widened to 1024 texels. */
  function TexIndex(k: int): int
  {
    var p := k / 3;
    ((p / CAM_WIDTH) * CAM_TEX_WIDTH + p % CAM_WIDTH) * 3 + k % 3
  }

  /** Whether texture byte `j` holds a camera pixel, and which RGB byte. */
  predicate IsTexel(j: int)
  {
    0 <= j && (j / 3) % CAM_TEX_WIDTH < CAM_WIDTH && (j / 3) / CAM_TEX_WIDTH < CAM_HEIGHT
  }

  function RgbIndex(j: int): int
  {
    var p := j / 3;
    ((p / CAM_TEX_WIDTH) * CAM_WIDTH + p % CAM_TEX_WIDTH) * 3 + j % 3
  }

  lemma TexelIndexes(k: int)
    requires 0 <= k < PictureLen(3)
    ensures IsTexel(TexIndex(k)) && RgbIndex(TexIndex(k)) == k && 0 <= TexIndex(k) < CAM_TEX_WIDTH * CAM_TEX_HEIGHT * 3
  {
    var p := k / 3;
    var t := (p / CAM_WIDTH) * CAM_TEX_WIDTH + p % CAM_WIDTH;
    assert TexIndex(k) / 3 == t && TexIndex(k) % 3 == k % 3;
    assert t / CAM_TEX_WIDTH == p / CAM_WIDTH && t % CAM_TEX_WIDTH == p % CAM_WIDTH;
  }

  lemma RgbIndexes(j: int)
    requires IsTexel(j)
    ensures 0 <= RgbIndex(j) < PictureLen(3) && TexIndex(RgbIndex(j)) == j
  {
    var p := j / 3;
    var q := (p / CAM_TEX_WIDTH) * CAM_WIDTH + p % CAM_TEX_WIDTH;
    assert RgbIndex(j) / 3 == q && RgbIndex(j) % 3 == j % 3;
    assert q / CAM_WIDTH == p / CAM_TEX_WIDTH && q % CAM_WIDTH == p % CAM_TEX_WIDTH;
  }

  /** The texture after the copy: camera texels from `rgb`, padding bytes unchanged. */
  function Padded(tex: seq<byte>, rgb: seq<byte>): (r: seq<byte>)
    requires |tex| == CAM_TEX_WIDTH * CAM_TEX_HEIGHT * 3 && |rgb| == PictureLen(3)
    ensures |r| == |tex|
  {
    seq(|tex|, j requires 0 <= j < |tex| =>
      if IsTexel(j) then (RgbIndexes(j); rgb[RgbIndex(j)]) else tex[j])
  }

  /** Reading the camera texels back out of the padded texture gives the RGB picture. */
  lemma PaddedTexels(tex: seq<byte>, rgb: seq<byte>, k: int)
    requires |tex| == CAM_TEX_WIDTH * CAM_TEX_HEIGHT * 3 && |rgb| == PictureLen(3)
    requires 0 <= k < |rgb|
    ensures Padded(tex, rgb)[TexIndex(k)] == rgb[k]
  {
    TexelIndexes(k);
  }

  /** Which texture bytes the copy of RGB bytes [i, i + 3) changes. */
  lemma PadStepAt(i: int, j: int)
    requires 0 <= i && i + 3 <= PictureLen(3) && i % 3 == 0 && 0 <= j
    ensures (IsTexel(j) && i <= RgbIndex(j) < i + 3) <==> (TexIndex(i) <= j < TexIndex(i) + 3)
    ensures TexIndex(i) <= j < TexIndex(i) + 3 ==> RgbIndex(j) == i + (j - TexIndex(i))
  {
    TexelIndexes(i);
    if IsTexel(j) && i <= RgbIndex(j) < i + 3 {
      RgbIndexes(j);
      TexAdjacent(i, RgbIndex(j) - i);
    }
    if TexIndex(i) <= j < TexIndex(i) + 3 {
      TexAdjacent(i, j - TexIndex(i));
      TexelIndexes(i + (j - TexIndex(i)));
    }
  }

  /** The three bytes of one pixel stay adjacent in the texture. */
  lemma TexAdjacent(i: int, c: int)
    requires 0 <= i && i % 3 == 0 && 0 <= c < 3
    ensures TexIndex(i + c) == TexIndex(i) + c
  {
    assert (i + c) / 3 == i / 3 && (i + c) % 3 == c;
  }

  /** The texture byte of RGB byte i of row y is i shifted by the padding of the rows above. */
  lemma RowLag(y: int, x: int)
    requires 0 <= y < CAM_HEIGHT && 0 <= x < CAM_WIDTH
    ensures TexIndex((y * CAM_WIDTH + x) * 3) == (y * CAM_WIDTH + x) * 3 + y * (CAM_TEX_WIDTH - CAM_WIDTH) * 3
  {
    var p := y * CAM_WIDTH + x;
    assert p * 3 / 3 == p && p * 3 % 3 == 0;
    assert p / CAM_WIDTH == y && p % CAM_WIDTH == x;
  }

  /** Texture byte `j` once the first `done` RGB bytes are copied. */
  function PartialTex(tex: seq<byte>, rgb: seq<byte>, done: int, j: int): byte
    requires |rgb| == PictureLen(3) && 0 <= j < |tex|
  {
    if IsTexel(j) && RgbIndex(j) < done then (RgbIndexes(j); rgb[RgbIndex(j)]) else tex[j]
  }

  ghost predicate TexProgress(d: seq<byte>, tex: seq<byte>, rgb: seq<byte>, done: int)
    requires |rgb| == PictureLen(3)
  {
    |d| == |tex| && forall j :: 0 <= j < |d| ==> d[j] == PartialTex(tex, rgb, done, j)
  }

  /** Copying RGB bytes [i, i + 3) to their texels advances the copy by one pixel. */
  lemma TexProgressStep(d: seq<byte>, tex: seq<byte>, rgb: seq<byte>, i: int)
    requires |rgb| == PictureLen(3) && |tex| == CAM_TEX_WIDTH * CAM_TEX_HEIGHT * 3
    requires 0 <= i && i + 3 <= PictureLen(3) && i % 3 == 0
    requires TexProgress(d, tex, rgb, i)
    ensures var t := TexIndex(i);
      0 <= t && t + 3 <= |d| && TexProgress(d[t := rgb[i]][t + 1 := rgb[i + 1]][t + 2 := rgb[i + 2]], tex, rgb, i + 3)
  {
    var t := TexIndex(i);
    TexelIndexes(i);
    TexelIndexes(i + 2);
    TexAdjacent(i, 2);
    var d': seq<byte> := d[t := rgb[i]][t + 1 := rgb[i + 1]][t + 2 := rgb[i + 2]];
    forall j | 0 <= j < |d'|
      ensures d'[j] == PartialTex(tex, rgb, i + 3, j)
    {
      PadStepAt(i, j);
      assert d'[j] == if t <= j < t + 3 then rgb[i + (j - t)] else d[j];
    }
  }

  /** One step of the texture copy: the three bytes of RGB pixel `i / 3`, shifted by `xLag`. */
  method CopyTexel(data: array<byte>, rgb: array<byte>, ghost tex: seq<byte>, i: int, xLag: int)
    requires rgb.Length == PictureLen(3) && |tex| == CAM_TEX_WIDTH * CAM_TEX_HEIGHT * 3 && data != rgb
    requires 0 <= i && i + 3 <= PictureLen(3) && i % 3 == 0 && TexIndex(i) == i + xLag
    requires TexProgress(data[..], tex, rgb[..], i)
    modifies data
    ensures TexProgress(data[..], tex, rgb[..], i + 3)
  {
    TexProgressStep(data[..], tex, rgb[..], i);
    ghost var d: seq<byte> := data[..];
    data[i + xLag + 0] := rgb[i + 0];
    data[i + xLag + 1] := rgb[i + 1];
    data[i + xLag + 2] := rgb[i + 2];
    assert data[..] == d[i + xLag := rgb[i]][i + xLag + 1 := rgb[i + 1]][i + xLag + 2 := rgb[i + 2]];
  }

  /** The copy of a 640-pixel-wide RGB picture into the 1024-texel-wide texture, row by row. */
  method PadToTexture(data: array<byte>, rgb: array<byte>)
    requires data.Length == CAM_TEX_WIDTH * CAM_TEX_HEIGHT * 3 && rgb.Length == PictureLen(3)
    requires data != rgb
    modifies data
    ensures data[..] == Padded(old(data[..]), rgb[..])
  {
    ghost var tex := data[..];
    var xLag := 0;
    var y := 0;
    while y < CAM_HEIGHT
      invariant 0 <= y <= CAM_HEIGHT && xLag == y * (CAM_TEX_WIDTH - CAM_WIDTH) * 3
      invariant TexProgress(data[..], tex, rgb[..], y * CAM_WIDTH * 3)
    {
      var x := 0;
      while x < CAM_WIDTH
        invariant 0 <= x <= CAM_WIDTH
        invariant TexProgress(data[..], tex, rgb[..], (y * CAM_WIDTH + x) * 3)
      {
        var i := (y * CAM_WIDTH + x) * 3;
        RowLag(y, x);
        CopyTexel(data, rgb, tex, i, xLag);
        x := x + 1;
      }
      xLag := xLag + (CAM_TEX_WIDTH - CAM_WIDTH) * 3;
      y := y + 1;
    }
    TexProgressDone(data[..], tex, rgb[..]);
  }

  /** Once every RGB byte is copied, the texture is the padded picture. */
  lemma TexProgressDone(d: seq<byte>, tex: seq<byte>, rgb: seq<byte>)
    requires |rgb| == PictureLen(3) && |tex| == CAM_TEX_WIDTH * CAM_TEX_HEIGHT * 3
    requires TexProgress(d, tex, rgb, CAM_HEIGHT * CAM_WIDTH * 3)
    ensures d == Padded(tex, rgb)
  {
    forall j | 0 <= j < |d|
      ensures d[j] == Padded(tex, rgb)[j]
    {
      if IsTexel(j) {
        RgbIndexes(j);
      }
    }
  }
}
