/**
 * Detection and removal of the caption band a source clip already carries:
 * walk down column 0 while the pixel is exactly white, then crop from the
 * first non-white row to the bottom at full width (`Jarvis.crop_frame`).
 */
module BandScan {
  import opened Results
  import opened Raster

  /**
   * Row `c` is where the embedded band ends: its column-0 pixel is not white
   * and every column-0 pixel above it is.
   */
  ghost predicate BandEndsAt(img: Image, c: nat)
    requires img.Valid()
  {
    && img.width > 0
    && c < img.Height()
    && img.rows[c][0] != White
    && forall y :: 0 <= y < c ==> img.rows[y][0] == White
  }

  /**
   * The scan cannot stop inside the frame: there is no column 0 at all, or
   * column 0 is white for the whole height, so `getpixel` is eventually asked
   * for a row past the bottom.
   */
  ghost predicate NoBandEnd(img: Image)
    requires img.Valid()
  {
    img.width == 0 || forall y :: 0 <= y < img.Height() ==> img.rows[y][0] == White
  }

  /** The `while` loop of `crop_frame`, from row `y` on. */
  function ScanFrom(img: Image, y: nat): (r: Result<nat>)
    requires img.Valid() && y <= img.Height()
    requires img.width > 0 ==> forall k :: 0 <= k < y ==> img.rows[k][0] == White
    ensures r.Ok? ==> BandEndsAt(img, r.value) && y <= r.value
    ensures r.Err? ==> r.error == PixelOutOfRange && NoBandEnd(img)
    decreases img.Height() - y
  {
    if img.width == 0 || y == img.Height() then Err(PixelOutOfRange)
    else if img.rows[y][0] != White then Ok(y)
    else ScanFrom(img, y + 1)
  }

  /** The row where the embedded caption band ends (`crop_y`). */
  function CaptionBandEnd(img: Image): (r: Result<nat>)
    requires img.Valid()
    ensures r.Ok? ==> BandEndsAt(img, r.value)
    ensures r.Err? <==> NoBandEnd(img)
    ensures r.Err? ==> r.error == PixelOutOfRange
  {
    ScanFrom(img, 0)
  }

  /** `Jarvis.crop_frame`: strip the embedded caption band. */
  function CropFrame(img: Image): (r: Result<Image>)
    requires img.Valid()
    ensures r.Err? <==> NoBandEnd(img)
    ensures r.Err? ==> r.error == PixelOutOfRange
    ensures r.Ok? ==> r.value.Height() <= img.Height()
    ensures r.Ok? ==>
      var c := img.Height() - r.value.Height();
      && r.value.Valid()
      && r.value.width == img.width
      && BandEndsAt(img, c)
      && r.value.rows == img.rows[c..]
  {
    var c :- CaptionBandEnd(img);
    Ok(Crop(img, c))
  }

  /** At most one row ends the band. */
  lemma BandEndUnique(img: Image, c: nat, d: nat)
    requires img.Valid() && BandEndsAt(img, c) && BandEndsAt(img, d)
    ensures c == d
  {
  }

  /** The scan finds the band end whenever there is one. */
  lemma CaptionBandEndFinds(img: Image, c: nat)
    requires img.Valid() && BandEndsAt(img, c)
    ensures CaptionBandEnd(img) == Ok(c)
  {
    assert img.rows[c][0] != White;
    var r := CaptionBandEnd(img);
    BandEndUnique(img, c, r.value);
  }

  /**
   * Only column 0 is read: frames of the same height whose column-0 pixels
   * agree get the same scan result, whatever their other pixels are.
   */
  lemma ColumnZeroDecides(a: Image, b: Image)
    requires a.Valid() && b.Valid() && a.Height() == b.Height()
    requires (a.width == 0) == (b.width == 0)
    requires a.width > 0 ==> forall k :: 0 <= k < a.Height() ==> a.rows[k][0] == b.rows[k][0]
    ensures CaptionBandEnd(a) == CaptionBandEnd(b)
  {
  }

  /**
   * A cropped frame starts with a non-white column-0 pixel, so cropping it
   * again changes nothing.
   */
  lemma CropFrameIdempotent(img: Image)
    requires img.Valid() && CropFrame(img).Ok?
    ensures CropFrame(CropFrame(img).value) == CropFrame(img)
  {
    var once := CropFrame(img).value;
    var c := img.Height() - once.Height();
    assert once.rows[0] == img.rows[c];
    CaptionBandEndFinds(once, 0);
    CropAtZero(once);
  }
}
