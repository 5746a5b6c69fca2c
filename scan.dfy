/** The row-major loops over the image array that the encode and decode
    operations run: i over rows, j over columns, k over channels, pixel (i, j)
    at a[i * width + j]. Each loop is proved against the Grid function that
    describes its result. */
module Scan {
  import opened Bits
  import opened Grid

  /** The embedding loop of encode_lsb and _apply_lsb_encoding on the image
      array: rows, then columns, then channels R, G, B, writing bit `index` into
      each slot while bits remain. */
  method ApplyLsbEncoding(a: array<Pixel>, bits: seq<Bit>, height: nat, width: nat)
    requires a.Length == height * width && HasRgb(a[..])
    modifies a
    ensures a[..] == EmbedLsb(old(a[..]), bits)
  {
    ghost var px := a[..];
    EmbedLsbNothing(px);
    assert bits[..0] == [];
    var index := 0;
    for i := 0 to height
      invariant i * width <= |px|
      invariant index == Min(3 * (i * width), |bits|)
      invariant a[..] == EmbedLsb(px, bits[..index])
    {
      var rowStart := i * width;
      RowStart(i + 1, width, height);
      assert rowStart + width == (i + 1) * width <= |px|;
      for j := 0 to width
        invariant index == Min(3 * (rowStart + j), |bits|)
        invariant a[..] == EmbedLsb(px, bits[..index])
      {
        var p := rowStart + j;
        for k := 0 to 3
          invariant index == Min(3 * p + k, |bits|)
          invariant a[..] == EmbedLsb(px, bits[..index])
        {
          if index < |bits| {
            EmbedLsbStep(px, bits, p, k);
            ghost var before := a[..];
            a[p] := a[p][k := SetLowBit(a[p][k], bits[index])];
            assert a[..] == SetSlot(before, p, k, bits[index]);
            index := index + 1;
          }
        }
      }
    }
    if index < |bits| {
      EmbedLsbCapacity(px, bits);
    } else {
      assert bits[..index] == bits;
    }
  }

  /** The embedding loop of encode_alpha: the alpha of pixel (i, j) receives
      bit `index` as its low bit while bits remain. */
  method ApplyAlphaEncoding(a: array<Pixel>, bits: seq<Bit>, height: nat, width: nat)
    requires a.Length == height * width && AllRgba(a[..]) && |bits| <= height * width
    modifies a
    ensures a[..] == EmbedAlpha(old(a[..]), bits)
  {
    ghost var px := a[..];
    EmbedAlphaNothing(px);
    assert bits[..0] == [];
    var index := 0;
    for i := 0 to height
      invariant i * width <= |px|
      invariant index == Min(i * width, |bits|)
      invariant a[..] == EmbedAlpha(px, bits[..index])
    {
      var rowStart := i * width;
      RowStart(i + 1, width, height);
      assert rowStart + width == (i + 1) * width <= |px|;
      for j := 0 to width
        invariant index == Min(rowStart + j, |bits|)
        invariant a[..] == EmbedAlpha(px, bits[..index])
      {
        if index < |bits| {
          var p := rowStart + j;
          EmbedAlphaStep(px, bits, p);
          ghost var before := a[..];
          a[p] := a[p][3 := SetLowBit(a[p][3], bits[index])];
          assert a[..] == SetSlot(before, p, 3, bits[index]);
          index := index + 1;
        }
      }
    }
    assert bits[..index] == bits;
  }

  /** The loop of encode_direct_alpha: the alpha of pixel (i, j) becomes the
      next code, or 255 once the codes are used up; the first code above 255
      stops the loop with `false`. */
  method ApplyDirectAlpha(a: array<Pixel>, m: seq<nat>, height: nat, width: nat) returns (ok: bool)
    requires a.Length == height * width && AllRgba(a[..]) && |m| <= height * width
    modifies a
    ensures ok <==> IsByteText(m)
    ensures ok ==> a[..] == DirectAlphaPixels(old(a[..]), m)
  {
    ghost var px := a[..];
    DirectAlphaPartialNone(px, m);
    var index := 0;
    for i := 0 to height
      invariant i * width <= |px|
      invariant index == Min(i * width, |m|)
      invariant WrittenCodesFit(m, i * width)
      invariant a[..] == DirectAlphaPartial(px, m, i * width)
    {
      var rowStart := i * width;
      RowStart(i + 1, width, height);
      assert rowStart + width == (i + 1) * width <= |px|;
      for j := 0 to width
        invariant index == Min(rowStart + j, |m|)
        invariant WrittenCodesFit(m, rowStart + j)
        invariant a[..] == DirectAlphaPartial(px, m, rowStart + j)
      {
        var p := rowStart + j;
        if index < |m| {
          var code := m[index];
          if code > 255 {
            assert !(m[index] < 256);
            return false;
          }
          DirectAlphaPartialStep(px, m, p);
          ghost var before := a[..];
          a[p] := a[p][3 := code];
          assert a[..] == SetAlpha(before, p, code);
          index := index + 1;
        } else {
          DirectAlphaPartialStep(px, m, p);
          ghost var before := a[..];
          a[p] := a[p][3 := 255];
          assert a[..] == SetAlpha(before, p, 255);
        }
      }
    }
    assert IsByteText(m);
    DirectAlphaPartialAll(px, m);
    return true;
  }

  /** The collecting loop of decode_lsb: the low bit of channels R, G, B of
      every pixel in turn. The guard against more than height * width * 3 bits
      is kept; it never fires. */
  method CollectLsbBits(px: seq<Pixel>, height: nat, width: nat) returns (bits: seq<Bit>)
    requires |px| == height * width && HasRgb(px)
    ensures bits == LsbStream(px)
  {
    bits := [];
    var maxBits := height * width * 3;
    for i := 0 to height
      invariant i * width <= |px|
      invariant bits == LsbStream(px)[..3 * (i * width)]
    {
      var rowStart := i * width;
      RowStart(i + 1, width, height);
      assert rowStart + width == (i + 1) * width <= |px|;
      for j := 0 to width
        invariant bits == LsbStream(px)[..3 * (rowStart + j)]
      {
        var p := rowStart + j;
        for k := 0 to 3
          invariant bits == LsbStream(px)[..3 * p + k]
        {
          if |bits| >= maxBits {
            break;
          }
          LsbSlot(px, p, k);
          bits := bits + [px[p][k] % 2];
        }
      }
    }
    assert bits == LsbStream(px);
  }

  /** The collecting loop of decode_alpha: the low bit of every alpha in turn. */
  method CollectAlphaBits(px: seq<Pixel>, height: nat, width: nat) returns (bits: seq<Bit>)
    requires |px| == height * width && AllRgba(px)
    ensures bits == AlphaStream(px)
  {
    bits := [];
    for i := 0 to height
      invariant i * width <= |px|
      invariant bits == AlphaStream(px)[..i * width]
    {
      var rowStart := i * width;
      RowStart(i + 1, width, height);
      assert rowStart + width == (i + 1) * width <= |px|;
      for j := 0 to width
        invariant bits == AlphaStream(px)[..rowStart + j]
      {
        bits := bits + [px[rowStart + j][3] % 2];
      }
    }
    assert bits == AlphaStream(px);
  }

  /** The converting loop of decode_lsb: whole groups of eight become codes,
      a shorter last group is dropped and a zero group stops the loop. */
  method ReadUntilNul(bits: seq<Bit>) returns (message: seq<nat>)
    ensures message == DecodeUntilNul(bits)
  {
    message := [];
    var i := 0;
    while i < |bits|
      invariant i <= |bits|
      invariant DecodeUntilNul(bits) == message + DecodeUntilNul(bits[i..])
    {
      if i + 8 > |bits| {
        assert DecodeUntilNul(bits[i..]) == [];
        break;
      }
      var byte := bits[i..i + 8];
      assert bits[i..][..8] == byte;
      assert bits[i..][8..] == bits[i + 8..];
      var c := BitsValue(byte);
      if c == 0 {
        assert DecodeUntilNul(bits[i..]) == [];
        break;
      }
      Associative(message, [c], DecodeUntilNul(bits[i + 8..]));
      message := message + [c];
      i := i + 8;
    }
    assert message == DecodeUntilNul(bits);
  }

  /** The converting loop of decode_alpha: every group of eight, and a shorter
      last group, becomes a code. */
  method ReadGroups(bits: seq<Bit>) returns (message: seq<nat>)
    ensures message == DecodeGroups(bits)
  {
    message := [];
    var i := 0;
    while i < |bits|
      invariant DecodeGroups(bits) == message + DecodeGroups(bits[Min(i, |bits|)..])
    {
      var byte := bits[i..Min(i + 8, |bits|)];
      if i + 8 <= |bits| {
        assert bits[i..][..8] == byte;
        assert bits[i..][8..] == bits[i + 8..];
      } else {
        assert bits[i..] == byte;
      }
      Associative(message, [BitsValue(byte)], DecodeGroups(bits[Min(i + 8, |bits|)..]));
      message := message + [BitsValue(byte)];
      i := i + 8;
    }
    assert bits[Min(i, |bits|)..] == [];
    assert message == DecodeGroups(bits);
  }

  /** The loop of decode_direct_alpha: alphas in row-major order, leaving
      both loops at the first 255. */
  method ReadDirectAlpha(px: seq<Pixel>, height: nat, width: nat) returns (message: seq<nat>)
    requires |px| == height * width && AllRgba(px)
    ensures message == DirectAlphaDecode(px)
  {
    message := [];
    for i := 0 to height
      invariant i * width <= |px|
      invariant DirectAlphaDecode(px) == message + DirectAlphaDecode(px[i * width..])
    {
      var rowStart := i * width;
      RowStart(i + 1, width, height);
      assert rowStart + width == (i + 1) * width <= |px|;
      for j := 0 to width
        invariant DirectAlphaDecode(px) == message + DirectAlphaDecode(px[rowStart + j..])
      {
        var p := rowStart + j;
        var alpha := px[p][3];
        DirectAlphaDecodeAt(px, p);
        if alpha == 255 {
          assert DirectAlphaDecode(px) == message;
          break break;
        }
        Associative(message, [alpha], DirectAlphaDecode(px[p + 1..]));
        message := message + [alpha];
      }
    }
    assert px[height * width..] == [];
    assert DirectAlphaDecode(px) == message;
  }
}
