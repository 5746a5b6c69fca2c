/** The in-memory pixel grid the codec works on (what np.array(image) yields),
    and the channel slots each scheme reads and writes, in row-major order. */
module Grid {
  import opened Bits

  /** One 8-bit channel value. */
  type Byte = x: int | 0 <= x < 256

  /** The channel values of one pixel: R, G, B and, in RGBA mode, alpha. */
  type Pixel = seq<Byte>

  datatype Mode = RGB | RGBA

  function Min(a: int, b: int): (r: int)
    ensures r <= a && r <= b && (r == a || r == b)
  {
    if a < b then a else b
  }

  function Channels(mode: Mode): (r: nat)
    ensures 3 <= r <= 4
  {
    if mode == RGB then 3 else 4
  }

  /** A decoded image: pixel (i, j) of the height x width grid is
      pixels[i * width + j]. */
  datatype Image = Image(width: nat, height: nat, mode: Mode, pixels: seq<Pixel>)

  predicate WellFormed(img: Image)
  {
    && |img.pixels| == img.height * img.width
    && forall q :: 0 <= q < |img.pixels| ==> |img.pixels[q]| == Channels(img.mode)
  }

  /** Every pixel has at least the channels R, G and B. */
  predicate HasRgb(px: seq<Pixel>)
  {
    forall q :: 0 <= q < |px| ==> |px[q]| >= 3
  }

  /** Every pixel has exactly the channels R, G, B and alpha. */
  predicate AllRgba(px: seq<Pixel>)
  {
    forall q :: 0 <= q < |px| ==> |px[q]| == 4
  }

  lemma WellFormedChannels(img: Image)
    requires WellFormed(img)
    ensures HasRgb(img.pixels)
    ensures img.mode == RGBA ==> AllRgba(img.pixels)
  {
  }

  /** Row i, column j of a height x width grid lies inside the flat pixel sequence. */
  lemma RowMajorIndex(i: nat, j: nat, width: nat, height: nat)
    requires i < height && j < width
    ensures i * width + j < height * width
  {
    assert (i + 1) * width <= height * width by {
      MulMonotone(i + 1, height, width);
    }
  }

  /** Row i of a height x width grid starts inside the flat pixel sequence. */
  lemma RowStart(i: nat, width: nat, height: nat)
    requires i <= height
    ensures i * width <= height * width
  {
    MulMonotone(i, height, width);
  }

  lemma MulMonotone(a: nat, b: nat, c: nat)
    requires a <= b
    ensures a * c <= b * c
  {
  }

  /** image.convert('RGBA') on an RGB or RGBA grid: an RGB pixel gains an
      opaque alpha channel (255); an RGBA image is returned as it is. */
  function ToRgba(img: Image): (r: Image)
    requires WellFormed(img)
    ensures WellFormed(r) && r.mode == RGBA
    ensures r.width == img.width && r.height == img.height
    ensures img.mode == RGBA ==> r == img
    ensures forall q :: 0 <= q < |img.pixels| ==> r.pixels[q][..3] == img.pixels[q][..3]
    ensures img.mode == RGB ==> forall q :: 0 <= q < |r.pixels| ==> r.pixels[q][3] == 255
  {
    if img.mode == RGBA then img
    else
      var px := img.pixels;
      var px' := seq(|px|, q requires 0 <= q < |px| => px[q] + [255]);
      assert forall q :: 0 <= q < |px| ==> px'[q][..3] == px[q][..3];
      img.(mode := RGBA, pixels := px')
  }

  // ---------------------------------------------------------------------
  // LSB over R, G, B: slot 3 * q + c is channel c < 3 of pixel q.

  /** (v & ~1) | b: the value with its lowest bit replaced by b. */
  function SetLowBit(v: Byte, b: Bit): (r: Byte)
    ensures r / 2 == v / 2 && r % 2 == b
  {
    v - v % 2 + b
  }

  /** The low bits of channels R, G, B of every pixel, in row-major slot order. */
  function LsbStream(px: seq<Pixel>): (r: seq<Bit>)
    requires HasRgb(px)
    ensures |r| == 3 * |px|
  {
    seq(3 * |px|, s requires 0 <= s < 3 * |px| => px[s / 3][s % 3] % 2)
  }

  lemma LsbSlot(px: seq<Pixel>, q: nat, c: nat)
    requires HasRgb(px) && q < |px| && c < 3
    ensures 3 * q + c < 3 * |px| && LsbStream(px)[3 * q + c] == px[q][c] % 2
  {
    assert (3 * q + c) / 3 == q && (3 * q + c) % 3 == c;
  }

  /** Pixel q with the low bit of each channel c < 3 set to bits[3 * q + c],
      where that slot holds a bit. */
  function EmbedLsbPixel(pix: Pixel, q: nat, bits: seq<Bit>): (r: Pixel)
    ensures |r| == |pix|
  {
    seq(|pix|, c requires 0 <= c < |pix| =>
      if c < 3 && 3 * q + c < |bits| then SetLowBit(pix[c], bits[3 * q + c]) else pix[c])
  }

  /** The grid after the first |bits| R, G, B slots receive the bits in order;
      bits beyond the last slot are not written. */
  function EmbedLsb(px: seq<Pixel>, bits: seq<Bit>): (r: seq<Pixel>)
    ensures |r| == |px|
    ensures forall q :: 0 <= q < |px| ==> |r[q]| == |px[q]|
    ensures forall q, c :: 0 <= q < |px| && 0 <= c < |px[q]| ==> r[q][c] / 2 == px[q][c] / 2
    ensures forall q, c :: 0 <= q < |px| && 0 <= c < |px[q]| && (3 <= c || |bits| <= 3 * q + c) ==>
      r[q][c] == px[q][c]
    ensures forall q, c :: 0 <= q < |px| && 0 <= c < |px[q]| && c < 3 && 3 * q + c < |bits| ==>
      r[q][c] % 2 == bits[3 * q + c]
  {
    seq(|px|, q requires 0 <= q < |px| => EmbedLsbPixel(px[q], q, bits))
  }

  /** The grid with the low bit of channel c of pixel q replaced by b. */
  function SetSlot(px: seq<Pixel>, q: nat, c: nat, b: Bit): (r: seq<Pixel>)
    requires q < |px| && c < |px[q]|
    ensures |r| == |px| && |r[q]| == |px[q]|
  {
    var pix: Pixel := px[q][c := SetLowBit(px[q][c], b)];
    px[q := pix]
  }

  /** Embedding no bits leaves the grid as it is. */
  lemma EmbedLsbNothing(px: seq<Pixel>)
    ensures EmbedLsb(px, []) == px
  {
    forall q | 0 <= q < |px|
      ensures EmbedLsb(px, [])[q] == px[q]
    {
    }
  }

  /** Writing bit number 3 * p + k into its slot (channel k of pixel p) turns
      the grid holding the bits before it into the grid holding one bit more. */
  lemma EmbedLsbStep(px: seq<Pixel>, bits: seq<Bit>, p: nat, k: nat)
    requires p < |px| && k < 3 && k < |px[p]| && 3 * p + k < |bits|
    ensures EmbedLsb(px, bits[..3 * p + k + 1])
      == SetSlot(EmbedLsb(px, bits[..3 * p + k]), p, k, bits[3 * p + k])
  {
    var n := 3 * p + k;
    var after := EmbedLsb(px, bits[..n + 1]);
    var expected := SetSlot(EmbedLsb(px, bits[..n]), p, k, bits[n]);
    forall q | 0 <= q < |px|
      ensures after[q] == expected[q]
    {
      if q == p {
        forall c | 0 <= c < |px[p]|
          ensures after[p][c] == expected[p][c]
        {
          if c != k {
            assert EmbedLsbPixel(px[p], p, bits[..n + 1])[c] == EmbedLsbPixel(px[p], p, bits[..n])[c];
          }
        }
      } else {
        assert EmbedLsbPixel(px[q], q, bits[..n + 1]) == EmbedLsbPixel(px[q], q, bits[..n]);
      }
    }
  }

  /** Reading back the R, G, B low bits of an embedded grid gives the bits
      written, then the slots left as they were; bits past the last slot are lost. */
  lemma LsbStreamAfterEmbed(px: seq<Pixel>, bits: seq<Bit>)
    requires HasRgb(px)
    ensures HasRgb(EmbedLsb(px, bits))
    ensures |bits| <= 3 * |px| ==> LsbStream(EmbedLsb(px, bits)) == bits + LsbStream(px)[|bits|..]
    ensures |bits| > 3 * |px| ==> LsbStream(EmbedLsb(px, bits)) == bits[..3 * |px|]
  {
    var e := EmbedLsb(px, bits);
    var n := 3 * |px|;
    forall s | 0 <= s < n
      ensures LsbStream(e)[s] == if s < |bits| then bits[s] else LsbStream(px)[s]
    {
      LsbSlot(e, s / 3, s % 3);
      LsbSlot(px, s / 3, s % 3);
    }
  }

  // ---------------------------------------------------------------------
  // LSB over alpha: slot q is the alpha channel of pixel q.

  /** The low bit of the alpha channel of every pixel, in row-major order. */
  function AlphaStream(px: seq<Pixel>): (r: seq<Bit>)
    requires AllRgba(px)
    ensures |r| == |px|
  {
    seq(|px|, q requires 0 <= q < |px| => px[q][3] % 2)
  }

  /** The grid after the alpha channels of the first |bits| pixels receive the
      bits in order as their low bit. */
  function EmbedAlpha(px: seq<Pixel>, bits: seq<Bit>): (r: seq<Pixel>)
    requires AllRgba(px)
    ensures |r| == |px| && AllRgba(r)
    ensures forall q, c :: 0 <= q < |px| && 0 <= c < 4 ==> r[q][c] / 2 == px[q][c] / 2
    ensures forall q, c :: 0 <= q < |px| && 0 <= c < 4 && (c < 3 || |bits| <= q) ==> r[q][c] == px[q][c]
    ensures forall q :: 0 <= q < |px| && q < |bits| ==> r[q][3] % 2 == bits[q]
  {
    seq(|px|, q requires 0 <= q < |px| =>
      if q < |bits| then px[q][3 := SetLowBit(px[q][3], bits[q])] else px[q])
  }

  lemma AlphaStreamAfterEmbed(px: seq<Pixel>, bits: seq<Bit>)
    requires AllRgba(px) && |bits| <= |px|
    ensures AlphaStream(EmbedAlpha(px, bits)) == bits + AlphaStream(px)[|bits|..]
  {
  }

  lemma EmbedAlphaNothing(px: seq<Pixel>)
    requires AllRgba(px)
    ensures EmbedAlpha(px, []) == px
  {
  }

  /** Writing bit number p into the alpha of pixel p turns the grid holding
      the bits before it into the grid holding one bit more. */
  lemma EmbedAlphaStep(px: seq<Pixel>, bits: seq<Bit>, p: nat)
    requires AllRgba(px) && p < |px| && p < |bits|
    ensures EmbedAlpha(px, bits[..p + 1]) == SetSlot(EmbedAlpha(px, bits[..p]), p, 3, bits[p])
  {
    var after := EmbedAlpha(px, bits[..p + 1]);
    var expected := SetSlot(EmbedAlpha(px, bits[..p]), p, 3, bits[p]);
    forall q | 0 <= q < |px|
      ensures after[q] == expected[q]
    {
    }
  }

  // ---------------------------------------------------------------------
  // Direct alpha: the alpha channel of pixel q holds a whole character code.

  /** The grid after the alpha of pixel q becomes m[q] for q < |m| and 255 for
      every later pixel. */
  function DirectAlphaPixels(px: seq<Pixel>, m: seq<nat>): (r: seq<Pixel>)
    requires AllRgba(px) && IsByteText(m)
    ensures |r| == |px| && AllRgba(r)
    ensures forall q :: 0 <= q < |px| ==> r[q][..3] == px[q][..3]
  {
    seq(|px|, q requires 0 <= q < |px| => px[q][3 := if q < |m| then m[q] else 255])
  }

  /** decode_direct_alpha: the alpha values read in row-major order up to the
      first 255, exclusive. */
  function DirectAlphaDecode(px: seq<Pixel>): (r: seq<nat>)
    requires AllRgba(px)
    ensures |r| <= |px|
  {
    if px == [] || px[0][3] == 255 then [] else [px[0][3]] + DirectAlphaDecode(px[1..])
  }

  /** One step of decode_direct_alpha at pixel p: stop at an alpha of 255,
      otherwise keep the alpha and go on with the next pixel. */
  lemma DirectAlphaDecodeAt(px: seq<Pixel>, p: nat)
    requires AllRgba(px) && p < |px|
    ensures DirectAlphaDecode(px[p..])
      == if px[p][3] == 255 then [] else [px[p][3]] + DirectAlphaDecode(px[p + 1..])
  {
    assert px[p..][0] == px[p];
    assert px[p..][1..] == px[p + 1..];
  }

  /** The decoded codes are the leading alphas, none of them 255, and the
      alpha right after them, if any, is 255. */
  lemma {:induction false} DirectAlphaDecodeStops(px: seq<Pixel>)
    requires AllRgba(px)
    ensures var r := DirectAlphaDecode(px);
      && (forall k :: 0 <= k < |r| ==> r[k] == px[k][3] && r[k] != 255)
      && (|r| < |px| ==> px[|r|][3] == 255)
  {
    if px != [] && px[0][3] != 255 {
      DirectAlphaDecodeStops(px[1..]);
    }
  }

  /** The grid with the alpha of pixel q set to v. */
  function SetAlpha(px: seq<Pixel>, q: nat, v: Byte): (r: seq<Pixel>)
    requires q < |px| && |px[q]| == 4
    ensures |r| == |px|
  {
    var pix: Pixel := px[q][3 := v];
    px[q := pix]
  }

  /** The codes that the first n pixels receive are byte values. */
  predicate WrittenCodesFit(m: seq<nat>, n: nat)
  {
    forall q :: 0 <= q < n && q < |m| ==> m[q] < 256
  }

  /** The grid part way through the direct-alpha loop: pixels before n have
      their alpha set (to m[q], or 255 past the end of m), later ones are as
      they were. */
  function DirectAlphaPartial(px: seq<Pixel>, m: seq<nat>, n: nat): (r: seq<Pixel>)
    requires AllRgba(px) && WrittenCodesFit(m, n)
    ensures |r| == |px|
  {
    seq(|px|, q requires 0 <= q < |px| =>
      if q < n then px[q][3 := if q < |m| then m[q] else 255] else px[q])
  }

  lemma DirectAlphaPartialNone(px: seq<Pixel>, m: seq<nat>)
    requires AllRgba(px)
    ensures WrittenCodesFit(m, 0) && DirectAlphaPartial(px, m, 0) == px
  {
  }

  /** One more pixel through the loop: its alpha becomes the next code, or 255. */
  lemma DirectAlphaPartialStep(px: seq<Pixel>, m: seq<nat>, n: nat)
    requires AllRgba(px) && n < |px| && WrittenCodesFit(m, n) && (n < |m| ==> m[n] < 256)
    ensures WrittenCodesFit(m, n + 1)
    ensures DirectAlphaPartial(px, m, n + 1)
      == SetAlpha(DirectAlphaPartial(px, m, n), n, if n < |m| then m[n] else 255)
  {
  }

  /** With every pixel through the loop the grid is the finished encoding. */
  lemma DirectAlphaPartialAll(px: seq<Pixel>, m: seq<nat>)
    requires AllRgba(px) && IsByteText(m)
    ensures WrittenCodesFit(m, |px|) && DirectAlphaPartial(px, m, |px|) == DirectAlphaPixels(px, m)
  {
  }

  /** Alphas that spell out t, none of them 255, followed by an alpha of 255
      or by the end of the grid, decode to exactly t. */
  lemma DirectAlphaDecodeExact(px: seq<Pixel>, t: seq<nat>)
    requires AllRgba(px) && |t| <= |px|
    requires forall k :: 0 <= k < |t| ==> px[k][3] == t[k] && t[k] != 255
    requires |t| < |px| ==> px[|t|][3] == 255
    ensures DirectAlphaDecode(px) == t
  {
    DirectAlphaDecodeStops(px);
  }

  /** The R, G, B low bits depend only on the R, G, B values. */
  lemma LsbStreamRgbOnly(px: seq<Pixel>, px': seq<Pixel>)
    requires HasRgb(px) && HasRgb(px') && |px| == |px'|
    requires forall q :: 0 <= q < |px| ==> px[q][..3] == px'[q][..3]
    ensures LsbStream(px) == LsbStream(px')
  {
    forall s | 0 <= s < 3 * |px|
      ensures LsbStream(px)[s] == LsbStream(px')[s]
    {
      LsbSlot(px, s / 3, s % 3);
      LsbSlot(px', s / 3, s % 3);
      assert px[s / 3][..3][s % 3] == px'[s / 3][..3][s % 3];
    }
  }

  /** Bits past the last R, G, B slot are never written. */
  lemma EmbedLsbCapacity(px: seq<Pixel>, bits: seq<Bit>)
    requires 3 * |px| <= |bits|
    ensures EmbedLsb(px, bits[..3 * |px|]) == EmbedLsb(px, bits)
  {
    forall q | 0 <= q < |px|
      ensures EmbedLsb(px, bits[..3 * |px|])[q] == EmbedLsb(px, bits)[q]
    {
    }
  }
}
