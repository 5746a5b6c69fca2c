/** ImageEncoder: the four encode/decode schemes over a loaded image.
    Encoders write `encodedImage`, decoders read `image`; the direct-alpha
    paths first replace `image` by its RGBA conversion. */
module Encoder {
  import opened Status
  import opened Bits
  import opened Grid
  import opened Scan

  // ---------------------------------------------------------------------
  // What each encoder produces from the loaded image.

  /** encode_lsb: the message's bits go into the low bits of R, G, B, slot by
      slot in row-major order, provided they fit in height * width * 3 slots. */
  function LsbEncoding(img: Image, m: seq<nat>): (r: Result<Image>)
    requires WellFormed(img)
    ensures r.Success? <==> |MessageBits(m)| <= img.height * img.width * 3
    ensures r.Failure? ==> r.error == MessageTooLarge
    ensures r.Success? ==>
      && WellFormed(r.value)
      && r.value.width == img.width && r.value.height == img.height && r.value.mode == img.mode
      && LsbStream(r.value.pixels) == MessageBits(m) + LsbStream(img.pixels)[|MessageBits(m)|..]
  {
    var bits := MessageBits(m);
    if |bits| > img.height * img.width * 3 then Failure(MessageTooLarge)
    else
      LsbStreamAfterEmbed(img.pixels, bits);
      Success(img.(pixels := EmbedLsb(img.pixels, bits)))
  }

  /** encode_alpha: the message's bits go into the low bit of the alpha
      channel, pixel by pixel, provided the image is RGBA and they fit in
      height * width pixels. */
  function AlphaEncoding(img: Image, m: seq<nat>): (r: Result<Image>)
    requires WellFormed(img)
    ensures img.mode != RGBA ==> r == Failure(NoAlphaChannel)
    ensures img.mode == RGBA ==> (r.Success? <==> |MessageBits(m)| <= img.height * img.width)
    ensures img.mode == RGBA && r.Failure? ==> r.error == MessageTooLarge
    ensures r.Success? ==> img.mode == RGBA && |MessageBits(m)| <= |img.pixels|
    ensures r.Success? ==>
      && AllRgba(img.pixels)
      && WellFormed(r.value) && r.value.mode == RGBA
      && r.value.width == img.width && r.value.height == img.height
      && AlphaStream(r.value.pixels) == MessageBits(m) + AlphaStream(img.pixels)[|MessageBits(m)|..]
  {
    var bits := MessageBits(m);
    if img.mode != RGBA then Failure(NoAlphaChannel)
    else if |bits| > img.height * img.width then Failure(MessageTooLarge)
    else
      AlphaStreamAfterEmbed(img.pixels, bits);
      Success(img.(pixels := EmbedAlpha(img.pixels, bits)))
  }

  /** encode_direct_alpha on an RGBA image: alpha of pixel n becomes the n-th
      code and every later alpha 255; more codes than pixels, or a code above
      255, fail instead. */
  function DirectAlphaEncoding(img: Image, m: seq<nat>): (r: Result<Image>)
    requires WellFormed(img) && img.mode == RGBA
    ensures r.Success? <==> |m| <= img.height * img.width && IsByteText(m)
    ensures |m| > img.height * img.width ==> r == Failure(EncodingFailed(MessageTooLarge))
    ensures |m| <= img.height * img.width && !IsByteText(m) ==>
      r == Failure(EncodingFailed(InvalidCharacter))
    ensures r.Success? ==>
      && WellFormed(r.value) && r.value.mode == RGBA
      && r.value.width == img.width && r.value.height == img.height
      && forall q :: 0 <= q < |img.pixels| ==>
           && r.value.pixels[q][..3] == img.pixels[q][..3]
           && r.value.pixels[q][3] == if q < |m| then m[q] else 255
  {
    if |m| > img.height * img.width then Failure(EncodingFailed(MessageTooLarge))
    else if !IsByteText(m) then Failure(EncodingFailed(InvalidCharacter))
    else
      var px' := DirectAlphaPixels(img.pixels, m);
      Success(img.(pixels := px'))
  }

  /** encode_combined: the LSB pass decides success or failure, then the
      direct-alpha pass runs on the RGBA conversion of the loaded image, not on
      the LSB pass's output, so the result keeps the original R, G, B values. */
  function CombinedEncoding(img: Image, m: seq<nat>): (r: Result<Image>)
    requires WellFormed(img)
    ensures r.Success? <==> |MessageBits(m)| <= img.height * img.width * 3 && IsByteText(m)
    ensures |MessageBits(m)| > img.height * img.width * 3 ==>
      r == Failure(CombinedEncodingFailed(MessageTooLarge))
    ensures |MessageBits(m)| <= img.height * img.width * 3 && !IsByteText(m) ==>
      r == Failure(CombinedEncodingFailed(EncodingFailed(InvalidCharacter)))
    ensures r.Success? ==>
      && WellFormed(r.value) && r.value.mode == RGBA
      && r.value.width == img.width && r.value.height == img.height
      && forall q :: 0 <= q < |img.pixels| ==>
           && r.value.pixels[q][..3] == img.pixels[q][..3]
           && r.value.pixels[q][3] == if q < |m| then m[q] else 255
  {
    match LsbEncoding(img, m)
    case Failure(e) => Failure(CombinedEncodingFailed(e))
    case Success(_) =>
      var rgba := ToRgba(img);
      match DirectAlphaEncoding(rgba, m)
      case Failure(e) => Failure(CombinedEncodingFailed(e))
      case Success(enc) => Success(enc)
  }

  // ---------------------------------------------------------------------
  // Round trips.

  /** decode_lsb after encode_lsb: for codes 1..255 that fit, the decoded text
      starts with the message; what follows is whatever the untouched slots of
      the cover image decode to, since no terminator is written. */
  lemma LsbRoundTrip(img: Image, m: seq<nat>)
    requires WellFormed(img) && IsLsbText(m) && 8 * |m| <= img.height * img.width * 3
    ensures LsbEncoding(img, m).Success?
    ensures DecodeUntilNul(LsbStream(LsbEncoding(img, m).value.pixels))
      == m + DecodeUntilNul(LsbStream(img.pixels)[8 * |m|..])
  {
    DecodeUntilNulPrefix(m, LsbStream(img.pixels)[8 * |m|..]);
  }

  /** decode_alpha after encode_alpha: for byte codes that fit, the decoded
      text starts with the message, followed by what the remaining alpha low
      bits decode to. */
  lemma AlphaRoundTrip(img: Image, m: seq<nat>)
    requires WellFormed(img) && img.mode == RGBA && IsByteText(m) && 8 * |m| <= img.height * img.width
    ensures AlphaEncoding(img, m).Success?
    ensures DecodeGroups(AlphaStream(AlphaEncoding(img, m).value.pixels))
      == m + DecodeGroups(AlphaStream(img.pixels)[8 * |m|..])
  {
    DecodeGroupsPrefix(m, AlphaStream(img.pixels)[8 * |m|..]);
  }

  /** decode_direct_alpha after encode_direct_alpha: with no code equal to 255
      the message comes back exactly, also when it fills every pixel. */
  lemma DirectAlphaRoundTrip(img: Image, m: seq<nat>)
    requires WellFormed(img) && |m| <= img.height * img.width && IsByteText(m) && 255 !in m
    ensures DirectAlphaEncoding(ToRgba(img), m).Success?
    ensures DirectAlphaDecode(DirectAlphaEncoding(ToRgba(img), m).value.pixels) == m
  {
    var enc := DirectAlphaEncoding(ToRgba(img), m).value;
    forall k | 0 <= k < |m|
      ensures enc.pixels[k][3] == m[k] && m[k] != 255
    {
      assert m[k] in m;
    }
    DirectAlphaDecodeExact(enc.pixels, m);
  }

  /** A code 255 in the message acts as the end marker: decode_direct_alpha
      returns only the codes before the first one. */
  lemma DirectAlphaTruncates(img: Image, m: seq<nat>, k: nat)
    requires WellFormed(img) && |m| <= img.height * img.width && IsByteText(m)
    requires k < |m| && m[k] == 255 && 255 !in m[..k]
    ensures DirectAlphaEncoding(ToRgba(img), m).Success?
    ensures DirectAlphaDecode(DirectAlphaEncoding(ToRgba(img), m).value.pixels) == m[..k]
  {
    var enc := DirectAlphaEncoding(ToRgba(img), m).value;
    forall q | 0 <= q < k
      ensures enc.pixels[q][3] == m[..k][q] && m[..k][q] != 255
    {
      assert m[..k][q] in m[..k];
    }
    DirectAlphaDecodeExact(enc.pixels, m[..k]);
  }

  /** After encode_combined, decode_direct_alpha gives the message back
      exactly when no code is 255. */
  lemma CombinedDirectRoundTrip(img: Image, m: seq<nat>)
    requires WellFormed(img) && IsByteText(m) && 255 !in m
    requires |MessageBits(m)| <= img.height * img.width * 3
    ensures CombinedEncoding(img, m).Success?
    ensures DirectAlphaDecode(CombinedEncoding(img, m).value.pixels) == m
  {
    DirectAlphaRoundTrip(img, m);
  }

  // ---------------------------------------------------------------------
  // encode_combined overwrites the LSB pass.

  /** As written, the R, G, B low bits of the combined result are those of the
      cover image: the LSB pass leaves no trace. */
  lemma CombinedKeepsCoverLsb(img: Image, m: seq<nat>)
    requires WellFormed(img) && CombinedEncoding(img, m).Success?
    ensures LsbStream(CombinedEncoding(img, m).value.pixels) == LsbStream(img.pixels)
  {
    LsbStreamRgbOnly(CombinedEncoding(img, m).value.pixels, img.pixels);
  }

  /** A cover whose first eight R, G, B low bits are 0 (a black image, say)
      and any byte message that fits: encode_combined succeeds, yet
      decode_lsb on its output returns the empty text. */
  lemma CombinedLosesLsbMessage(img: Image, m: seq<nat>)
    requires WellFormed(img) && IsByteText(m) && m != []
    requires |MessageBits(m)| <= img.height * img.width * 3
    requires LsbStream(img.pixels)[..8] == Zeros(8)
    ensures CombinedEncoding(img, m).Success?
    ensures DecodeUntilNul(LsbStream(CombinedEncoding(img, m).value.pixels)) == [] != m
  {
    CombinedKeepsCoverLsb(img, m);
    ZerosValue(8);
  }

  /** encode_combined as evidently intended: the direct-alpha pass runs on
      the output of the LSB pass. */
  function LayeredCombinedEncoding(img: Image, m: seq<nat>): (r: Result<Image>)
    requires WellFormed(img)
    ensures r.Success? <==> |MessageBits(m)| <= img.height * img.width * 3 && IsByteText(m)
    ensures r.Success? ==>
      && WellFormed(r.value) && r.value.mode == RGBA
      && r.value.width == img.width && r.value.height == img.height
  {
    match LsbEncoding(img, m)
    case Failure(e) => Failure(CombinedEncodingFailed(e))
    case Success(lsb) =>
      match DirectAlphaEncoding(ToRgba(lsb), m)
      case Failure(e) => Failure(CombinedEncodingFailed(e))
      case Success(enc) => Success(enc)
  }

  /** With the layers stacked, both decoders find the message: decode_lsb
      reads it as a prefix and decode_direct_alpha exactly. */
  lemma LayeredCombinedRoundTrip(img: Image, m: seq<nat>)
    requires WellFormed(img) && IsLsbText(m) && 255 !in m
    requires 8 * |m| <= img.height * img.width * 3
    ensures LayeredCombinedEncoding(img, m).Success?
    ensures DecodeUntilNul(LsbStream(LayeredCombinedEncoding(img, m).value.pixels))
      == m + DecodeUntilNul(LsbStream(img.pixels)[8 * |m|..])
    ensures DirectAlphaDecode(LayeredCombinedEncoding(img, m).value.pixels) == m
  {
    var lsb := LsbEncoding(img, m).value;
    var enc := LayeredCombinedEncoding(img, m).value;
    LsbRoundTrip(img, m);
    assert forall q :: 0 <= q < |enc.pixels| ==> enc.pixels[q][..3] == lsb.pixels[q][..3];
    LsbStreamRgbOnly(enc.pixels, lsb.pixels);
    DirectAlphaRoundTrip(lsb, m);
  }

  // ---------------------------------------------------------------------
  // No LSB encoder writes the terminator its decoder looks for.

  /** A message of codes 1..255 followed, in the cover, by eight R, G, B low
      bits equal to 1 (a white image, say): decode_lsb after encode_lsb returns
      the message and then chr(255) read from the cover. */
  lemma LsbDecodeRunsPastMessage(img: Image, m: seq<nat>)
    requires WellFormed(img) && IsLsbText(m) && 8 * |m| + 8 <= img.height * img.width * 3
    requires LsbStream(img.pixels)[8 * |m|..8 * |m| + 8] == Ones(8)
    ensures LsbEncoding(img, m).Success?
    ensures var decoded := DecodeUntilNul(LsbStream(LsbEncoding(img, m).value.pixels));
      |decoded| > |m| && decoded[..|m|] == m && decoded[|m|] == 255
  {
    LsbRoundTrip(img, m);
    var rest := LsbStream(img.pixels)[8 * |m|..];
    assert rest[..8] == Ones(8);
    DecodeUntilNulOnes(rest);
  }

  /** encode_lsb as evidently intended: the message's bits and then a zero
      byte, the chr(0) terminator both LSB decoders stop at. */
  function TerminatedLsbEncoding(img: Image, m: seq<nat>): (r: Result<Image>)
    requires WellFormed(img)
    ensures r.Success? <==> |MessageBits(m)| + 8 <= img.height * img.width * 3
    ensures r.Failure? ==> r.error == MessageTooLarge
    ensures r.Success? ==>
      && WellFormed(r.value)
      && r.value.width == img.width && r.value.height == img.height && r.value.mode == img.mode
      && LsbStream(r.value.pixels)
        == MessageBits(m) + Zeros(8) + LsbStream(img.pixels)[|MessageBits(m)| + 8..]
  {
    var bits := MessageBits(m) + Zeros(8);
    assert |bits| == |MessageBits(m)| + 8;
    if |bits| > img.height * img.width * 3 then Failure(MessageTooLarge)
    else
      LsbStreamAfterEmbed(img.pixels, bits);
      Success(img.(pixels := EmbedLsb(img.pixels, bits)))
  }

  /** With the terminator written, decode_lsb and _extract_lsb_message both
      return exactly the message. */
  lemma TerminatedLsbRoundTrip(img: Image, m: seq<nat>)
    requires WellFormed(img) && IsLsbText(m) && 8 * |m| + 8 <= img.height * img.width * 3
    ensures TerminatedLsbEncoding(img, m).Success?
    ensures DecodeUntilNul(LsbStream(TerminatedLsbEncoding(img, m).value.pixels)) == m
    ensures ExtractUntilNul(LsbStream(TerminatedLsbEncoding(img, m).value.pixels)) == m
  {
    var tail := Zeros(8) + LsbStream(img.pixels)[8 * |m| + 8..];
    Associative(MessageBits(m), Zeros(8), LsbStream(img.pixels)[8 * |m| + 8..]);
    DecodeUntilNulPrefix(m, tail);
    ExtractUntilNulPrefix(m, tail);
    assert tail[..8] == Zeros(8);
    ZerosValue(8);
  }

  // ---------------------------------------------------------------------
  // The encoder object.

  class ImageEncoder {
    var image: Option<Image>
    var encodedImage: Option<Image>

    ghost predicate Valid()
      reads this
    {
      && (image.Some? ==> WellFormed(image.value))
      && (encodedImage.Some? ==> WellFormed(encodedImage.value))
    }

    constructor ()
      ensures Valid() && image == None && encodedImage == None
    {
      image := None;
      encodedImage := None;
    }

    /** load_image, with the file decoding done by the caller: the decoded
        RGB or RGBA grid becomes the loaded image. */
    method LoadImage(img: Image)
      requires Valid() && WellFormed(img)
      modifies this
      ensures Valid() && image == Some(img) && encodedImage == old(encodedImage)
    {
      image := Some(img);
    }

    /** encode_lsb: the message's bits go into the low bits of R, G, B of each
        pixel in turn. */
    method EncodeLsb(message: seq<nat>) returns (r: Outcome)
      requires Valid()
      modifies this
      ensures Valid() && image == old(image)
      ensures old(image).None? ==> r == Fail(NoImageLoaded) && encodedImage == old(encodedImage)
      ensures old(image).Some? ==>
        match LsbEncoding(old(image).value, message)
        case Success(enc) => r == Pass && encodedImage == Some(enc)
        case Failure(e) => r == Fail(e) && encodedImage == old(encodedImage)
    {
      if image.None? {
        return Fail(NoImageLoaded);
      }
      var img := image.value;
      var binaryMessage := MessageBits(message);
      var messageLength := |binaryMessage|;
      var height, width := img.height, img.width;
      if messageLength > height * width * 3 {
        return Fail(MessageTooLarge);
      }
      var a := new Pixel[|img.pixels|](q requires 0 <= q < |img.pixels| => img.pixels[q]);
      assert a[..] == img.pixels;
      WellFormedChannels(img);
      ApplyLsbEncoding(a, binaryMessage, height, width);
      assert LsbEncoding(img, message) == Success(img.(pixels := a[..]));
      encodedImage := Some(img.(pixels := a[..]));
      r := Pass;
    }

    /** encode_alpha: the message's bits go into the low bit of the alpha
        channel of each pixel in turn. */
    method EncodeAlpha(message: seq<nat>) returns (r: Outcome)
      requires Valid()
      modifies this
      ensures Valid() && image == old(image)
      ensures old(image).None? ==> r == Fail(NoImageLoaded) && encodedImage == old(encodedImage)
      ensures old(image).Some? ==>
        match AlphaEncoding(old(image).value, message)
        case Success(enc) => r == Pass && encodedImage == Some(enc)
        case Failure(e) => r == Fail(e) && encodedImage == old(encodedImage)
    {
      if image.None? {
        return Fail(NoImageLoaded);
      }
      var img := image.value;
      if img.mode != RGBA {
        return Fail(NoAlphaChannel);
      }
      var binaryMessage := MessageBits(message);
      var messageLength := |binaryMessage|;
      var height, width := img.height, img.width;
      if messageLength > height * width {
        return Fail(MessageTooLarge);
      }
      var a := new Pixel[|img.pixels|](q requires 0 <= q < |img.pixels| => img.pixels[q]);
      assert a[..] == img.pixels;
      WellFormedChannels(img);
      ApplyAlphaEncoding(a, binaryMessage, height, width);
      assert AlphaEncoding(img, message) == Success(img.(pixels := a[..]));
      encodedImage := Some(img.(pixels := a[..]));
      r := Pass;
    }

    /** decode_lsb: collect the R, G, B low bits of every pixel, then read
        groups of eight up to the first zero group. */
    method DecodeLsb() returns (r: Result<seq<nat>>)
      requires Valid()
      ensures image.None? ==> r == Failure(NoImageLoaded)
      ensures image.Some? ==> r == Success(DecodeUntilNul(LsbStream(image.value.pixels)))
    {
      if image.None? {
        return Failure(NoImageLoaded);
      }
      var img := image.value;
      WellFormedChannels(img);
      var binaryMessage := CollectLsbBits(img.pixels, img.height, img.width);
      var message := ReadUntilNul(binaryMessage);
      return Success(message);
    }

    /** decode_alpha: collect the alpha low bit of every pixel, then turn
        every group of eight, and a shorter last group, into a code. */
    method DecodeAlpha() returns (r: Result<seq<nat>>)
      requires Valid()
      ensures image.None? ==> r == Failure(NoImageLoaded)
      ensures image.Some? && image.value.mode != RGBA ==> r == Failure(NoAlphaChannel)
      ensures image.Some? && image.value.mode == RGBA ==>
        AllRgba(image.value.pixels) && r == Success(DecodeGroups(AlphaStream(image.value.pixels)))
    {
      if image.None? {
        return Failure(NoImageLoaded);
      }
      var img := image.value;
      if img.mode != RGBA {
        return Failure(NoAlphaChannel);
      }
      WellFormedChannels(img);
      var binaryMessage := CollectAlphaBits(img.pixels, img.height, img.width);
      var message := ReadGroups(binaryMessage);
      return Success(message);
    }

    /** encode_direct_alpha: the loaded image is first replaced by its RGBA
        conversion (also when encoding then fails); each alpha then holds one
        character code, or 255 past the end of the message. */
    method EncodeDirectAlpha(message: seq<nat>) returns (r: Outcome)
      requires Valid()
      modifies this
      ensures Valid()
      ensures old(image).None? ==>
        r == Fail(NoImageLoaded) && image == old(image) && encodedImage == old(encodedImage)
      ensures old(image).Some? ==>
        && image == Some(ToRgba(old(image).value))
        && match DirectAlphaEncoding(ToRgba(old(image).value), message)
           case Success(enc) => r == Pass && encodedImage == Some(enc)
           case Failure(e) => r == Fail(e) && encodedImage == None
    {
      if image.None? {
        return Fail(NoImageLoaded);
      }
      if image.value.mode != RGBA {
        image := Some(ToRgba(image.value));
      }
      var img := image.value;
      var height, width := img.height, img.width;
      if |message| > height * width {
        encodedImage := None;
        return Fail(EncodingFailed(MessageTooLarge));
      }
      var a := new Pixel[|img.pixels|](q requires 0 <= q < |img.pixels| => img.pixels[q]);
      assert a[..] == img.pixels;
      WellFormedChannels(img);
      var ok := ApplyDirectAlpha(a, message, height, width);
      if !ok {
        encodedImage := None;
        return Fail(EncodingFailed(InvalidCharacter));
      }
      assert DirectAlphaEncoding(img, message) == Success(img.(pixels := a[..]));
      encodedImage := Some(img.(pixels := a[..]));
      r := Pass;
    }

    /** decode_direct_alpha: the loaded image is replaced by its RGBA
        conversion; the alphas are read in row-major order up to the first 255. */
    method DecodeDirectAlpha() returns (r: Result<seq<nat>>)
      requires Valid()
      modifies this
      ensures Valid() && encodedImage == old(encodedImage)
      ensures old(image).None? ==> r == Failure(NoImageLoaded) && image == old(image)
      ensures old(image).Some? ==>
        && image == Some(ToRgba(old(image).value))
        && r == Success(DirectAlphaDecode(ToRgba(old(image).value).pixels))
    {
      if image.None? {
        return Failure(NoImageLoaded);
      }
      if image.value.mode != RGBA {
        image := Some(ToRgba(image.value));
      }
      var img := image.value;
      WellFormedChannels(img);
      var message := ReadDirectAlpha(img.pixels, img.height, img.width);
      return Success(message);
    }

    /** encode_combined: encode_lsb first; if it succeeds, the loaded image is
        replaced by its RGBA conversion and encode_direct_alpha runs on it.
        Either failure clears encodedImage and is wrapped. */
    method EncodeCombined(message: seq<nat>) returns (r: Outcome)
      requires Valid()
      modifies this
      ensures Valid()
      ensures old(image).None? ==>
        r == Fail(NoImageLoaded) && image == old(image) && encodedImage == old(encodedImage)
      ensures old(image).Some? ==>
        && image == (if LsbEncoding(old(image).value, message).Success?
                     then Some(ToRgba(old(image).value)) else old(image))
        && match CombinedEncoding(old(image).value, message)
           case Success(enc) => r == Pass && encodedImage == Some(enc)
           case Failure(e) => r == Fail(e) && encodedImage == None
    {
      if image.None? {
        return Fail(NoImageLoaded);
      }
      var lsb := EncodeLsb(message);
      if lsb.Fail? {
        encodedImage := None;
        return Fail(CombinedEncodingFailed(lsb.error));
      }
      if image.value.mode != RGBA {
        image := Some(ToRgba(image.value));
      }
      var direct := EncodeDirectAlpha(message);
      if direct.Fail? {
        encodedImage := None;
        return Fail(CombinedEncodingFailed(direct.error));
      }
      r := Pass;
    }
  }
}
