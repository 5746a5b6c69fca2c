/** The format gate, the per-method capacity formula and the RGBA
    normalisation rule, over what an opened image file reports: its format
    name (absent for an image made in memory), its PIL mode name and its size. */
module ImageUtils {
  import opened Status
  import opened Bits
  import opened Grid
  import Encoder
  import Processor

  /** What Image.open reports about a file. */
  datatype ImageFile = ImageFile(format: Option<string>, mode: string, width: nat, height: nat)

  /** Image.open either yields an image or raises with a reason. */
  datatype Opening = Opened(file: ImageFile) | OpenFailed(reason: string)

  const SupportedFormats: seq<string> := ["PNG", "BMP", "TIFF"]

  /** ', '.join(items) */
  function Join(items: seq<string>, sep: string): (r: string)
  {
    if items == [] then ""
    else if |items| == 1 then items[0]
    else items[0] + sep + Join(items[1..], sep)
  }

  /** The text f"{img.format}" gives: the name, or "None" when absent. */
  function FormatText(format: Option<string>): (r: string)
  {
    if format.Some? then format.value else "None"
  }

  /** The rejection text for a file whose format is not accepted. */
  function UnsupportedMessage(format: Option<string>): (r: string)
  {
    "Unsupported format: " + FormatText(format) + ". Supported formats: " + Join(SupportedFormats, ", ")
  }

  /** The accepted files, stated as one rule: a PNG, BMP or TIFF file of any
      mode, or a WEBP file whose mode is RGB or RGBA. */
  predicate Accepted(f: ImageFile)
  {
    || f.format in {Some("PNG"), Some("BMP"), Some("TIFF")}
    || (f.format == Some("WEBP") && f.mode in {"RGB", "RGBA"})
  }

  /** validate_image_format: (True, None) for an accepted file; otherwise
      (False, reason), the reason naming the rejected format and the supported
      ones, or carrying the error Image.open raised. */
  function ValidateImageFormat(opening: Opening): (r: (bool, Option<string>))
    ensures r.0 <==> opening.Opened? && Accepted(opening.file)
    ensures r.0 ==> r.1 == None
    ensures opening.OpenFailed? ==> r == (false, Some(opening.reason))
    ensures opening.Opened? && !Accepted(opening.file) ==>
      r == (false, Some(UnsupportedMessage(opening.file.format)))
  {
    match opening
    case OpenFailed(reason) => (false, Some(reason))
    case Opened(img) =>
      if img.format == Some("WEBP") && img.mode in ["RGB", "RGBA"] then (true, None)
      else if img.format.None? || img.format.value !in SupportedFormats then
        (false, Some(UnsupportedMessage(img.format)))
      else (true, None)
  }

  /** The rejection text lists the three supported formats in order. */
  lemma UnsupportedMessageText(format: Option<string>)
    ensures UnsupportedMessage(format)
      == "Unsupported format: " + FormatText(format) + ". Supported formats: PNG, BMP, TIFF"
  {
    assert Join(SupportedFormats[2..], ", ") == "TIFF";
    assert Join(SupportedFormats[1..], ", ") == "BMP, TIFF";
  }

  /** A WEBP file of any other mode is refused, and the reason names WEBP. */
  lemma WebpNeedsRgbMode(f: ImageFile)
    requires f.format == Some("WEBP") && f.mode !in {"RGB", "RGBA"}
    ensures ValidateImageFormat(Opened(f)) == (false, Some(UnsupportedMessage(Some("WEBP"))))
  {
    assert "WEBP"[0] != "TIFF"[0];
  }

  /** calculate_max_capacity: characters of eight bits that fit, one bit per R,
      G and B channel for 'lsb', one per alpha channel of an RGBA file for
      'alpha', and 0 for any other method or an 'alpha' file without alpha. */
  function CalculateMaxCapacity(f: ImageFile, encoding: string): (r: nat)
    ensures encoding == "lsb" ==> 8 * r <= f.width * f.height * 3 < 8 * (r + 1)
    ensures encoding == "alpha" && f.mode == "RGBA" ==> 8 * r <= f.width * f.height < 8 * (r + 1)
    ensures encoding != "lsb" && (encoding != "alpha" || f.mode != "RGBA") ==> r == 0
  {
    if encoding == "lsb" then (f.width * f.height * 3) / 8
    else if encoding == "alpha" then
      if f.mode != "RGBA" then 0 else (f.width * f.height) / 8
    else 0
  }

  /** convert_to_rgba: a file already in RGBA comes back as it is; any other is
      converted, and PIL's converted copy reports no format. */
  function ConvertToRgba(f: ImageFile): (r: ImageFile)
    ensures r.mode == "RGBA" && r.width == f.width && r.height == f.height
    ensures f.mode == "RGBA" ==> r == f
    ensures f.mode != "RGBA" ==> r.format == None
  {
    if f.mode != "RGBA" then f.(format := None, mode := "RGBA") else f
  }

  /** Converting twice is converting once. */
  lemma ConvertToRgbaIdempotent(f: ImageFile)
    ensures ConvertToRgba(ConvertToRgba(f)) == ConvertToRgba(f)
  {
  }

  /** The mode name PIL reports for a pixel grid. */
  function ModeName(mode: Mode): (r: string)
  {
    match mode
    case RGB => "RGB"
    case RGBA => "RGBA"
  }

  /** What Image.open would report for a grid saved in a given format. */
  function Describe(img: Image, format: Option<string>): (r: ImageFile)
  {
    ImageFile(format, ModeName(img.mode), img.width, img.height)
  }

  /** The file rule and the grid conversion agree: converting the grid and
      describing it gives the converted description's mode and size. */
  lemma ConvertAgreesWithGrid(img: Image, format: Option<string>)
    requires WellFormed(img)
    ensures Describe(ToRgba(img), format).mode == ConvertToRgba(Describe(img, format)).mode
    ensures img.mode == RGBA ==> Describe(ToRgba(img), format) == ConvertToRgba(Describe(img, format))
  {
  }

  /** The 'lsb' capacity is exact for the encoder's encode_lsb: a byte message
      is accepted exactly when it has at most that many characters. */
  lemma LsbCapacityExact(img: Image, format: Option<string>, m: seq<nat>)
    requires WellFormed(img) && IsByteText(m)
    ensures Encoder.LsbEncoding(img, m).Success? <==> |m| <= CalculateMaxCapacity(Describe(img, format), "lsb")
  {
    var c := CalculateMaxCapacity(Describe(img, format), "lsb");
    var slots := img.width * img.height * 3;
    assert img.height * img.width * 3 == slots;
    if |m| <= c {
      assert 8 * |m| <= 8 * c <= slots;
    } else {
      assert 8 * |m| >= 8 * (c + 1) > slots;
    }
  }

  /** The 'alpha' capacity is exact for encode_alpha on an RGBA grid, and an
      RGB grid has capacity 0 and is refused by encode_alpha outright. */
  lemma AlphaCapacityExact(img: Image, format: Option<string>, m: seq<nat>)
    requires WellFormed(img) && IsByteText(m)
    ensures img.mode == RGBA ==>
      (Encoder.AlphaEncoding(img, m).Success? <==> |m| <= CalculateMaxCapacity(Describe(img, format), "alpha"))
    ensures img.mode == RGB ==>
      CalculateMaxCapacity(Describe(img, format), "alpha") == 0 && Encoder.AlphaEncoding(img, m).Failure?
  {
    var c := CalculateMaxCapacity(Describe(img, format), "alpha");
    var slots := img.width * img.height;
    assert img.height * img.width == slots;
    if img.mode == RGBA {
      if |m| <= c {
        assert 8 * |m| <= 8 * c <= slots;
      } else {
        assert 8 * |m| >= 8 * (c + 1) > slots;
      }
    }
  }

  /** The 'lsb' capacity is the one ImageProcessor enforces in encode_lsb. */
  lemma LsbCapacityMatchesProcessor(img: Image, format: Option<string>)
    requires WellFormed(img)
    ensures CalculateMaxCapacity(Describe(img, format), "lsb") == Processor.MaxMessageSize(Some(img))
  {
  }
}
