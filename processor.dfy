/** ImageProcessor: the second LSB codec. It counts capacity in characters,
    refuses an empty message, writes its result back into its own `image`, and
    reads a message back up to a byte-aligned zero group. */
module Processor {
  import opened Status
  import opened Bits
  import opened Grid
  import opened Scan

  /** _calculate_max_message_size: whole characters of eight bits that fit in
      the R, G, B low bits, (width * height * 3) // 8; 0 with no image. */
  function MaxMessageSize(image: Option<Image>): (r: nat)
    ensures image.None? ==> r == 0
    ensures image.Some? ==>
      8 * r <= image.value.width * image.value.height * 3 < 8 * (r + 1)
  {
    if image.None? then 0 else (image.value.width * image.value.height * 3) / 8
  }

  /** What encode_lsb stores in `image` for a loaded image: an empty message
      and one with more characters than MaxMessageSize are refused before any
      pixel is touched; otherwise the message's bits go into the R, G, B low
      bits in row-major order. */
  function ProcessorLsbEncoding(img: Image, m: seq<nat>): (r: Result<Image>)
    requires WellFormed(img)
    ensures r.Success? <==> m != [] && |m| <= MaxMessageSize(Some(img))
    ensures m == [] ==> r == Failure(EmptyMessage)
    ensures m != [] && |m| > MaxMessageSize(Some(img)) ==> r == Failure(MessageTooLarge)
    ensures r.Success? ==>
      && WellFormed(r.value)
      && r.value.width == img.width && r.value.height == img.height && r.value.mode == img.mode
      && r.value.pixels == EmbedLsb(img.pixels, MessageBits(m))
  {
    if m == [] then Failure(EmptyMessage)
    else if |m| > MaxMessageSize(Some(img)) then Failure(MessageTooLarge)
    else Success(img.(pixels := EmbedLsb(img.pixels, MessageBits(m))))
  }

  /** A byte message within the character capacity fits in the slots, so its
      bits are read back first, followed by the cover's remaining low bits. */
  lemma ProcessorLsbStream(img: Image, m: seq<nat>)
    requires WellFormed(img) && IsByteText(m) && ProcessorLsbEncoding(img, m).Success?
    ensures LsbStream(ProcessorLsbEncoding(img, m).value.pixels)
      == MessageBits(m) + LsbStream(img.pixels)[8 * |m|..]
  {
    LsbStreamAfterEmbed(img.pixels, MessageBits(m));
  }

  /** _extract_lsb_message: the R, G, B low bits are collected one at a time;
      when they end in a byte-aligned "00000000" the groups before it are
      returned, otherwise every group, a shorter last one included. */
  method ExtractLsbMessage(px: seq<Pixel>, height: nat, width: nat) returns (message: seq<nat>)
    requires |px| == height * width && HasRgb(px)
    ensures message == ExtractUntilNul(LsbStream(px))
  {
    ghost var stream := LsbStream(px);
    var binaryMessage: seq<Bit> := [];
    for i := 0 to height
      invariant i * width <= |px|
      invariant binaryMessage == stream[..3 * (i * width)]
      invariant NoNulGroup(binaryMessage)
    {
      var rowStart := i * width;
      RowStart(i + 1, width, height);
      assert rowStart + width == (i + 1) * width <= |px|;
      for j := 0 to width
        invariant binaryMessage == stream[..3 * (rowStart + j)]
        invariant NoNulGroup(binaryMessage)
      {
        var p := rowStart + j;
        for k := 0 to 3
          invariant binaryMessage == stream[..3 * p + k]
          invariant NoNulGroup(binaryMessage)
        {
          LsbSlot(px, p, k);
          ghost var before := binaryMessage;
          var bit: Bit := px[p][k] % 2;
          binaryMessage := binaryMessage + [bit];
          PrefixExtend(stream, 3 * p + k);
          var n := |binaryMessage|;
          if n % 8 == 0 && binaryMessage[n - 8..] == Zeros(8) {
            message := ReadGroups(binaryMessage[..n - 8]);
            FoundTerminator(stream, before, n);
            return;
          }
          NoNulAppend(before, bit);
        }
      }
    }
    assert binaryMessage == stream;
    ExtractAllGroups(stream);
    message := ReadGroups(binaryMessage);
  }

  /** The step that ends _extract_lsb_message early: the bits read so far end
      in a zero group and have no earlier one. */
  lemma FoundTerminator(stream: seq<Bit>, before: seq<Bit>, n: nat)
    requires 8 <= n <= |stream| && n % 8 == 0 && before == stream[..n - 1]
    requires NoNulGroup(before) && stream[..n][n - 8..] == Zeros(8)
    ensures ExtractUntilNul(stream) == DecodeGroups(stream[..n][..n - 8])
  {
    var k := n - 8;
    NoNulPrefix(before, k);
    assert before[..k] == stream[..k] == stream[..n][..k];
    ExtractAfterPrefix(stream, k);
    var tail := stream[k..];
    assert tail[..8] == stream[..n][k..];
    ExtractUntilNulAtNul(tail);
  }

  class ImageProcessor {
    var image: Option<Image>

    /** load_image always leaves an RGBA image behind. */
    ghost predicate Valid()
      reads this
    {
      image.Some? ==> WellFormed(image.value) && image.value.mode == RGBA
    }

    constructor ()
      ensures Valid() && image == None
    {
      image := None;
    }

    /** load_image after the file has been opened and its format accepted:
        the grid is converted to RGBA and becomes the loaded image. */
    method LoadImage(img: Image)
      requires WellFormed(img)
      modifies this
      ensures Valid() && image == Some(ToRgba(img))
    {
      image := Some(ToRgba(img));
    }

    /** _calculate_max_message_size on the loaded image. */
    function CalculateMaxMessageSize(): (r: nat)
      reads this
      ensures image.None? ==> r == 0
      ensures image.Some? ==> 8 * r <= image.value.width * image.value.height * 3 < 8 * (r + 1)
    {
      MaxMessageSize(image)
    }

    /** encode_lsb: checks, then _apply_lsb_encoding on a copy of the pixels,
        and the result replaces `image`. */
    method EncodeLsb(message: seq<nat>) returns (r: Outcome)
      requires Valid()
      modifies this
      ensures Valid()
      ensures old(image).None? ==> r == Fail(NoImageLoaded) && image == old(image)
      ensures old(image).Some? ==>
        match ProcessorLsbEncoding(old(image).value, message)
        case Success(enc) => r == Pass && image == Some(enc)
        case Failure(e) => r == Fail(e) && image == old(image)
    {
      if image.None? {
        return Fail(NoImageLoaded);
      }
      if message == [] {
        return Fail(EmptyMessage);
      }
      var maxMessageSize := CalculateMaxMessageSize();
      if |message| > maxMessageSize {
        return Fail(MessageTooLarge);
      }
      var img := image.value;
      var a := new Pixel[|img.pixels|](q requires 0 <= q < |img.pixels| => img.pixels[q]);
      assert a[..] == img.pixels;
      var binaryMessage := MessageBits(message);
      WellFormedChannels(img);
      ApplyLsbEncoding(a, binaryMessage, img.height, img.width);
      assert ProcessorLsbEncoding(img, message) == Success(img.(pixels := a[..]));
      image := Some(img.(pixels := a[..]));
      r := Pass;
    }

    /** decode_lsb: _extract_lsb_message on the loaded image's pixels. */
    method DecodeLsb() returns (r: Result<seq<nat>>)
      requires Valid()
      ensures image.None? ==> r == Failure(NoImageLoaded)
      ensures image.Some? ==> r == Success(ExtractUntilNul(LsbStream(image.value.pixels)))
    {
      if image.None? {
        return Failure(NoImageLoaded);
      }
      var img := image.value;
      WellFormedChannels(img);
      var decoded := ExtractLsbMessage(img.pixels, img.height, img.width);
      return Success(decoded);
    }
  }

  /** encode_lsb on one processor, then decode_lsb on another that is handed
      the first one's image: for a non-empty message of codes 1..255 within
      capacity, the decoded text starts with the message and goes on with
      whatever the cover's remaining low bits extract to. */
  method EncodeThenDecode(img: Image, m: seq<nat>) returns (decoded: Result<seq<nat>>)
    requires WellFormed(img) && IsLsbText(m) && m != [] && |m| <= MaxMessageSize(Some(img))
    ensures decoded == Success(m + ExtractUntilNul(LsbStream(img.pixels)[8 * |m|..]))
  {
    var encoder := new ImageProcessor();
    encoder.LoadImage(img);
    var rgba := ToRgba(img);
    LsbStreamRgbOnly(img.pixels, rgba.pixels);
    var encoded := encoder.EncodeLsb(m);
    ProcessorLsbStream(rgba, m);
    ExtractUntilNulPrefix(m, LsbStream(img.pixels)[8 * |m|..]);
    var decoder := new ImageProcessor();
    decoder.LoadImage(encoder.image.value);
    decoded := decoder.DecodeLsb();
  }

  /** A message of codes 1..255 followed, in the cover, by ten low bits equal
      to 1 and nothing else: decode_lsb returns the message, then chr(255),
      then chr(3) from the two leftover bits. */
  lemma ProcessorDecodeRunsPastMessage(img: Image, m: seq<nat>)
    requires WellFormed(img) && IsLsbText(m) && m != [] && |m| <= MaxMessageSize(Some(img))
    requires LsbStream(img.pixels)[8 * |m|..] == Ones(10)
    ensures ExtractUntilNul(LsbStream(ProcessorLsbEncoding(img, m).value.pixels)) == m + [255, 3]
  {
    ProcessorLsbStream(img, m);
    ExtractUntilNulPrefix(m, Ones(10));
    ExtractUntilNulTenOnes();
  }

  /** A 10 x 10 image holds 37 characters: 37 are accepted, 38 refused. */
  lemma TenByTenCapacity(img: Image, m: seq<nat>)
    requires WellFormed(img) && img.width == 10 && img.height == 10 && m != []
    ensures MaxMessageSize(Some(img)) == 37
    ensures ProcessorLsbEncoding(img, m).Success? <==> |m| <= 37
  {
  }

  /** The encoding the byte-aligned stop of _extract_lsb_message calls for: the
      message's bits followed by eight zero bits, refused unless the terminator
      fits in the R, G, B low bits as well. */
  function TerminatedProcessorEncoding(img: Image, m: seq<nat>): (r: Result<Image>)
    requires WellFormed(img)
    ensures m == [] ==> r == Failure(EmptyMessage)
    ensures r.Success? <==> m != [] && |m| + 1 <= MaxMessageSize(Some(img))
    ensures r.Success? ==>
      && WellFormed(r.value)
      && r.value.width == img.width && r.value.height == img.height && r.value.mode == img.mode
  {
    if m == [] then Failure(EmptyMessage)
    else if |m| + 1 > MaxMessageSize(Some(img)) then Failure(MessageTooLarge)
    else Success(img.(pixels := EmbedLsb(img.pixels, MessageBits(m) + Zeros(8))))
  }

  /** With the terminator written, decode_lsb returns exactly the message,
      whatever the cover held. */
  lemma TerminatedProcessorRoundTrip(img: Image, m: seq<nat>)
    requires WellFormed(img) && IsLsbText(m) && TerminatedProcessorEncoding(img, m).Success?
    ensures ExtractUntilNul(LsbStream(TerminatedProcessorEncoding(img, m).value.pixels)) == m
  {
    var bits := MessageBits(m) + Zeros(8);
    LsbStreamAfterEmbed(img.pixels, bits);
    var rest := LsbStream(img.pixels)[|bits|..];
    ExtractUntilNulPrefix(m, Zeros(8) + rest);
    Associative(MessageBits(m), Zeros(8), rest);
    assert (Zeros(8) + rest)[..8] == Zeros(8);
  }
}
