/**
 * RGB raster frames as the pipeline handles them after decoding: a width and
 * a sequence of rows, row `y` holding the pixels (0, y) .. (width-1, y).
 * Blank, Crop and Paste are the three image operations the recaptioning code
 * uses (`Image.new`, `Image.crop` and `Image.paste`), restricted to the
 * full-width boxes it passes them.
 */
module Raster {

  /** One 8-bit colour channel. */
  type Byte = x: int | 0 <= x < 256

  datatype Pixel = Pixel(r: Byte, g: Byte, b: Byte)

  /** The caption band colour, (255, 255, 255). */
  const White := Pixel(255, 255, 255)

  datatype Image = Image(width: nat, rows: seq<seq<Pixel>>) {

    function Height(): nat {
      |rows|
    }

    /** Every row holds exactly `width` pixels. */
    predicate Valid() {
      forall y :: 0 <= y < |rows| ==> |rows[y]| == width
    }
  }

  function WhiteRow(w: nat): (row: seq<Pixel>)
    ensures |row| == w
    ensures forall x :: 0 <= x < w ==> row[x] == White
  {
    seq(w, _ => White)
  }

  /** `Image.new('RGB', (w, h), (255, 255, 255))`: a solid white canvas. */
  function Blank(w: nat, h: nat): (r: Image)
    ensures r.Valid() && r.width == w && r.Height() == h
    ensures forall y, x :: 0 <= y < h && 0 <= x < w ==> r.rows[y][x] == White
  {
    Image(w, seq(h, _ => WhiteRow(w)))
  }

  /**
   * `img.crop((0, top, width, height))`: the region from row `top` down to
   * the bottom edge, at full width.
   */
  function Crop(img: Image, top: nat): (r: Image)
    requires img.Valid() && top <= img.Height()
    ensures r.Valid() && r.width == img.width
    ensures r.Height() == img.Height() - top
    ensures forall y :: 0 <= y < r.Height() ==> r.rows[y] == img.rows[y + top]
  {
    Image(img.width, img.rows[top..])
  }

  /**
   * `canvas.paste(img, (0, top, width, top + img height))`: the rows of `img`
   * replace the canvas rows from `top` on; every other canvas row is kept.
   */
  function Paste(canvas: Image, img: Image, top: nat): (r: Image)
    requires canvas.Valid() && img.Valid() && img.width == canvas.width
    requires top + img.Height() <= canvas.Height()
    ensures r.Valid() && r.width == canvas.width && r.Height() == canvas.Height()
    ensures forall y :: 0 <= y < img.Height() ==> r.rows[top + y] == img.rows[y]
    ensures forall y :: 0 <= y < top ==> r.rows[y] == canvas.rows[y]
    ensures forall y :: top + img.Height() <= y < canvas.Height() ==> r.rows[y] == canvas.rows[y]
  {
    Image(canvas.width, canvas.rows[..top] + img.rows + canvas.rows[top + img.Height()..])
  }

  /** Cropping at row 0 leaves a frame unchanged. */
  lemma CropAtZero(img: Image)
    requires img.Valid()
    ensures Crop(img, 0) == img
  {
    assert img.rows[0..] == img.rows;
  }

  /**
   * Pasting a frame below a white band of `band` rows and cropping the band
   * off again gives back the frame.
   */
  lemma CropUndoesBand(img: Image, band: nat)
    requires img.Valid()
    ensures Crop(Paste(Blank(img.width, band + img.Height()), img, band), band) == img
  {
    var r := Crop(Paste(Blank(img.width, band + img.Height()), img, band), band);
    assert r.rows == img.rows;
  }
}
