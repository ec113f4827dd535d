/**
 * Caption layout: the font size chosen from the frame width, the height of
 * the new white band, the canvas the frame is pasted onto and where the
 * caption text is drawn. `AddCaption` is `Jarvis.add_caption`;
 * `LegacyCaptionFrame` is the per-frame body of the legacy script.
 *
 * Text measurement depends on a font file and is a parameter here:
 * `measure(text, size)` is the (width, height) of `text` at font size
 * `size`. Glyph rasterisation is not modelled: a result holds the canvas as
 * it is before the text is drawn, plus the draw call (`TextDraw`).
 */
module Captioning {
  import opened Results
  import opened Raster
  import opened BandScan

  /** `Jarvis.CAPTION_PADDING`: vertical padding around the new caption. */
  const CaptionPadding: nat := 20

  /** Line spacing passed to `multiline_text` by `add_caption`. */
  const CaptionLineSpacing: nat := 4

  /** The caption the legacy script always draws. */
  const LegacyCaption: string := "fart"

  datatype Extent = Extent(width: nat, height: nat)

  /** A `multiline_text` call: black `text` at origin (x, y). */
  datatype TextDraw = TextDraw(text: string, x: int, y: int, fontSize: nat, spacing: nat)

  /** A recaptioned frame: the canvas, the height of its band, the text drawn into the band. */
  datatype Captioned = Captioned(image: Image, band: nat, text: TextDraw)

  /**
   * `int(width * 0.13)`. The ratio is an IEEE double slightly above 13/100;
   * for any realistic width the truncated product equals the exact floor
   * taken here.
   */
  function FontSize(width: nat): (size: nat)
    ensures 100 * size <= 13 * width < 100 * size + 100
  {
    13 * width / 100
  }

  /**
   * `int(text_height * 1.20 + padding * 2)`: the band height. The double
   * 1.20 is taken as the exact ratio 12/10.
   */
  function BandHeight(textHeight: nat, padding: nat): (band: nat)
    ensures 10 * band <= 12 * textHeight + 20 * padding < 10 * band + 10
    ensures textHeight + 2 * padding <= band
  {
    12 * textHeight / 10 + 2 * padding
  }

  /** Left edge of text `textWidth` wide centred in `width`: `width // 2 - textWidth // 2`. */
  function CentredX(width: nat, textWidth: nat): (x: int)
    ensures (width - x - textWidth) - x == width % 2 - textWidth % 2
    ensures textWidth <= width ==> 0 <= x && x + textWidth <= width
  {
    width / 2 - textWidth / 2
  }

  /**
   * `out` is the frame `img` below a solid white band `band` rows high, at
   * the frame's width.
   */
  ghost predicate BelowBand(out: Image, band: nat, img: Image) {
    && out.Valid()
    && out.width == img.width
    && out.Height() == band + img.Height()
    && (forall y, x :: 0 <= y < band && 0 <= x < out.width ==> out.rows[y][x] == White)
    && out.rows[band..] == img.rows
  }

  /**
   * `Image.new` of the frame's width and `band` more rows, white, with the
   * frame pasted at row `band`.
   */
  function StackBelowBand(img: Image, band: nat): (r: Image)
    requires img.Valid()
    ensures BelowBand(r, band, img)
  {
    var r := Paste(Blank(img.width, img.Height() + band), img, band);
    assert r.rows[band..] == img.rows;
    r
  }

  /** `Jarvis.add_caption(image, caption, padding)`. */
  function AddCaption(img: Image, caption: string, padding: nat, measure: (string, nat) -> Extent): (r: Result<Captioned>)
    requires img.Valid()
    ensures r.Err? <==> measure(caption, FontSize(img.width)).width > img.width
    ensures r.Err? ==> r.error == CaptionTooLong
    ensures r.Ok? ==>
      var ext := measure(caption, FontSize(img.width));
      var out := r.value;
      && BelowBand(out.image, out.band, img)
      && 10 * out.band <= 12 * ext.height + 20 * padding < 10 * out.band + 10
      && out.text.text == caption
      && out.text.fontSize == FontSize(img.width)
      && out.text.spacing == CaptionLineSpacing
      && out.text.y == padding
      && (img.width - out.text.x - ext.width) - out.text.x == img.width % 2 - ext.width % 2
      && 0 <= out.text.x && out.text.x + ext.width <= img.width
      && out.text.y + ext.height <= out.band
  {
    var size := FontSize(img.width);
    var ext := measure(caption, size);
    if ext.width > img.width then
      Err(CaptionTooLong)
    else
      var band := BandHeight(ext.height, padding);
      Ok(Captioned(
        StackBelowBand(img, band),
        band,
        TextDraw(caption, CentredX(img.width, ext.width), padding, size, CaptionLineSpacing)))
  }

  /**
   * The legacy per-frame captioning: a band twice the font size, no width
   * check, the caption drawn at half the text height from the top.
   */
  function LegacyCaptionFrame(img: Image, measure: (string, nat) -> Extent): (r: Captioned)
    requires img.Valid()
    ensures
      var ext := measure(LegacyCaption, FontSize(img.width));
      && BelowBand(r.image, r.band, img)
      && r.band == 2 * FontSize(img.width)
      && r.text.text == LegacyCaption
      && r.text.fontSize == FontSize(img.width)
      && r.text.spacing == 0
      && 2 * r.text.y <= ext.height < 2 * r.text.y + 2
      && (img.width - r.text.x - ext.width) - r.text.x == img.width % 2 - ext.width % 2
  {
    var size := FontSize(img.width);
    var ext := measure(LegacyCaption, size);
    var band := 2 * size;
    Captioned(
      StackBelowBand(img, band),
      band,
      TextDraw(LegacyCaption, CentredX(img.width, ext.width), ext.height / 2, size, 0))
  }

  /** A caption exactly as wide as the frame is accepted; one pixel wider is refused. */
  lemma WidthBoundary(img: Image, caption: string, padding: nat, measure: (string, nat) -> Extent)
    requires img.Valid()
    ensures measure(caption, FontSize(img.width)).width == img.width ==> AddCaption(img, caption, padding, measure).Ok?
    ensures measure(caption, FontSize(img.width)).width == img.width + 1 ==> AddCaption(img, caption, padding, measure) == Err(CaptionTooLong)
  {
  }

  /**
   * Stripping the new band from a recaptioned frame with the same crop
   * gives back the frame that was captioned.
   */
  lemma CropUndoesCaption(img: Image, caption: string, padding: nat, measure: (string, nat) -> Extent)
    requires img.Valid()
    requires AddCaption(img, caption, padding, measure).Ok?
    ensures
      var out := AddCaption(img, caption, padding, measure).value;
      out.band <= out.image.Height() && Crop(out.image, out.band) == img
  {
    var out := AddCaption(img, caption, padding, measure).value;
    assert Crop(out.image, out.band).rows == img.rows;
  }

  /**
   * A white band of `band` rows above a frame moves the end of the
   * embedded band down by exactly `band` rows: a recaptioned frame's own
   * band is what a later crop strips.
   */
  lemma BandEndBelowBand(out: Image, band: nat, img: Image)
    requires img.Valid() && BelowBand(out, band, img)
    ensures CaptionBandEnd(out) ==
      (match CaptionBandEnd(img)
       case Ok(c) => Ok(band + c)
       case Err(e) => Err(e))
  {
    assert forall y :: 0 <= y < img.Height() ==> out.rows[band + y] == out.rows[band..][y];
    match CaptionBandEnd(img)
    case Ok(c) =>
      forall y | 0 <= y < band + c
        ensures out.rows[y][0] == White
      {
        if band <= y {
          assert out.rows[band + (y - band)] == img.rows[y - band];
        }
      }
      CaptionBandEndFinds(out, band + c);
    case Err(e) =>
      if img.width > 0 {
        forall y | 0 <= y < out.Height()
          ensures out.rows[y][0] == White
        {
          if band <= y {
            assert out.rows[band + (y - band)] == img.rows[y - band];
          }
        }
      }
  }

  /**
   * Cropping a frame recaptioned by `AddCaption` finds exactly the new
   * band when the frame itself had none left, and gives the frame back.
   * The text must start right of column 0: a glyph pixel in column 0
   * would end the scan inside the band.
   */
  lemma CropFindsNewBand(img: Image, caption: string, padding: nat, measure: (string, nat) -> Extent)
    requires img.Valid() && BandEndsAt(img, 0)
    requires AddCaption(img, caption, padding, measure).Ok?
    requires CentredX(img.width, measure(caption, FontSize(img.width)).width) > 0
    ensures CropFrame(AddCaption(img, caption, padding, measure).value.image) == Ok(img)
  {
    var out := AddCaption(img, caption, padding, measure).value;
    CaptionBandEndFinds(img, 0);
    BandEndBelowBand(out.image, out.band, img);
    assert Crop(out.image, out.band).rows == img.rows;
  }

  /**
   * The legacy band is twice the font size; cropping it off a legacy
   * frame gives back the frame it was stacked on.
   */
  lemma LegacyCropUndoesCaption(img: Image, measure: (string, nat) -> Extent)
    requires img.Valid()
    ensures
      var out := LegacyCaptionFrame(img, measure);
      2 * FontSize(img.width) <= out.image.Height()
      && Crop(out.image, 2 * FontSize(img.width)) == img
  {
    var out := LegacyCaptionFrame(img, measure);
    assert Crop(out.image, out.band).rows == img.rows;
  }
}
