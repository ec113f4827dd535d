/**
 * The per-clip pipelines. `JarvisedGif` is `Jarvis.get_jarvised_gif` after
 * the fetch: every frame is cropped on its own scan and recaptioned, and the
 * duration is retimed. `LegacyRecaption` is the frame loop of the legacy
 * script, which scans the first frame only and applies that crop row to
 * every frame.
 */
module Pipeline {
  import opened Results
  import opened Raster
  import opened BandScan
  import opened Captioning
  import opened Retiming

  /** A decoded clip: frames in display order and one frame duration. */
  datatype Clip = Clip(frames: seq<Image>, duration: int)

  /** A recaptioned clip, ready for encoding. */
  datatype Gif = Gif(frames: seq<Captioned>, duration: int)

  predicate AllValid(frames: seq<Image>) {
    forall i :: 0 <= i < |frames| ==> frames[i].Valid()
  }

  /** One iteration of the frame loop of `get_jarvised_gif`. */
  function RecaptionFrame(frame: Image, caption: string, measure: (string, nat) -> Extent): (r: Result<Captioned>)
    requires frame.Valid()
    ensures r.Ok? <==> !NoBandEnd(frame) && measure(caption, FontSize(frame.width)).width <= frame.width
    ensures NoBandEnd(frame) ==> r == Err(PixelOutOfRange)
    ensures !NoBandEnd(frame) && r.Err? ==> r.error == CaptionTooLong
    ensures r.Ok? ==>
      var cropY := CaptionBandEnd(frame).value;
      var ext := measure(caption, FontSize(frame.width));
      && BandEndsAt(frame, cropY)
      && r.value.band == BandHeight(ext.height, CaptionPadding)
      && BelowBand(r.value.image, r.value.band, Crop(frame, cropY))
      && r.value.text == TextDraw(caption, CentredX(frame.width, ext.width), CaptionPadding, FontSize(frame.width), CaptionLineSpacing)
  {
    var cropped :- CropFrame(frame);
    AddCaption(cropped, caption, CaptionPadding, measure)
  }

  /** The outcome of every iteration, in frame order. */
  function FrameSteps(frames: seq<Image>, caption: string, measure: (string, nat) -> Extent): (steps: seq<Result<Captioned>>)
    requires AllValid(frames)
    ensures |steps| == |frames|
    ensures forall i :: 0 <= i < |frames| ==> steps[i] == RecaptionFrame(frames[i], caption, measure)
  {
    if |frames| == 0 then [] else [RecaptionFrame(frames[0], caption, measure)] + FrameSteps(frames[1..], caption, measure)
  }

  /** Frame `i` is the first frame whose recaptioning fails, and it fails with `e`. */
  predicate FirstFailure(frames: seq<Image>, caption: string, measure: (string, nat) -> Extent, i: int, e: Error)
    requires AllValid(frames)
  {
    && 0 <= i < |frames|
    && RecaptionFrame(frames[i], caption, measure) == Err(e)
    && forall j :: 0 <= j < i ==> RecaptionFrame(frames[j], caption, measure).Ok?
  }

  /**
   * The frame loop of `get_jarvised_gif`: frames in order, each cropped and
   * captioned independently; the first failing frame's error ends the loop.
   */
  function RecaptionAll(frames: seq<Image>, caption: string, measure: (string, nat) -> Extent): (r: Result<seq<Captioned>>)
    requires AllValid(frames)
    ensures r.Ok? <==> forall i :: 0 <= i < |frames| ==> RecaptionFrame(frames[i], caption, measure).Ok?
    ensures r.Ok? ==> |r.value| == |frames|
    ensures r.Ok? ==> forall i :: 0 <= i < |frames| ==> r.value[i] == RecaptionFrame(frames[i], caption, measure).value
    ensures r.Err? ==> exists i :: FirstFailure(frames, caption, measure, i, r.error)
  {
    var steps := FrameSteps(frames, caption, measure);
    CollectedFrames(frames, caption, measure);
    CollectedFailure(frames, caption, measure);
    Collect(steps)
  }

  lemma CollectedFrames(frames: seq<Image>, caption: string, measure: (string, nat) -> Extent)
    requires AllValid(frames)
    ensures
      var r := Collect(FrameSteps(frames, caption, measure));
      && (r.Ok? <==> forall i :: 0 <= i < |frames| ==> RecaptionFrame(frames[i], caption, measure).Ok?)
      && (r.Ok? ==> |r.value| == |frames|)
      && (r.Ok? ==> forall i :: 0 <= i < |frames| ==> r.value[i] == RecaptionFrame(frames[i], caption, measure).value)
  {
    var steps := FrameSteps(frames, caption, measure);
    var r := Collect(steps);
    if r.Ok? {
      forall i | 0 <= i < |frames|
        ensures RecaptionFrame(frames[i], caption, measure).Ok?
        ensures r.value[i] == RecaptionFrame(frames[i], caption, measure).value
      {
        assert steps[i] == RecaptionFrame(frames[i], caption, measure);
      }
    } else {
      var k :| 0 <= k < |steps| && steps[k] == Err(r.error);
      assert steps[k] == RecaptionFrame(frames[k], caption, measure);
    }
  }

  lemma CollectedFailure(frames: seq<Image>, caption: string, measure: (string, nat) -> Extent)
    requires AllValid(frames)
    ensures
      var r := Collect(FrameSteps(frames, caption, measure));
      r.Err? ==> exists i :: FirstFailure(frames, caption, measure, i, r.error)
  {
    var steps := FrameSteps(frames, caption, measure);
    var r := Collect(steps);
    if r.Err? {
      var k :| 0 <= k < |steps| && steps[k] == Err(r.error) && forall j :: 0 <= j < k ==> steps[j].Ok?;
      assert RecaptionFrame(frames[k], caption, measure) == Err(r.error) by {
        assert steps[k] == RecaptionFrame(frames[k], caption, measure);
      }
      forall j | 0 <= j < k
        ensures RecaptionFrame(frames[j], caption, measure).Ok?
      {
        assert steps[j] == RecaptionFrame(frames[j], caption, measure);
      }
      assert FirstFailure(frames, caption, measure, k, r.error);
    }
  }

  /** `Jarvis.get_jarvised_gif` once the clip is decoded. */
  function JarvisedGif(clip: Clip, caption: string, measure: (string, nat) -> Extent): (r: Result<Gif>)
    requires AllValid(clip.frames)
    ensures r.Ok? <==> RecaptionAll(clip.frames, caption, measure).Ok?
    ensures r.Ok? ==> |r.value.frames| == |clip.frames|
    ensures r.Ok? ==> r.value.frames == RecaptionAll(clip.frames, caption, measure).value
    ensures r.Ok? ==> r.value.duration == Retime(clip.duration)
    ensures r.Ok? ==> r.value.duration >= MinFrameDuration
    ensures r.Ok? && clip.duration >= SpeedFactor * MinFrameDuration ==>
      SpeedFactor * r.value.duration <= clip.duration < SpeedFactor * r.value.duration + SpeedFactor
  {
    var duration := Retime(clip.duration);
    var frames :- RecaptionAll(clip.frames, caption, measure);
    Ok(Gif(frames, duration))
  }

  /**
   * The frame loop of the legacy script: `crop_y` starts at the sentinel -1,
   * is set by scanning the first frame, and that one row is cropped from
   * every frame. All frames come from one decoded clip and share its height.
   */
  method LegacyRecaption(frames: seq<Image>, measure: (string, nat) -> Extent) returns (r: Result<seq<Captioned>>)
    requires AllValid(frames)
    requires forall i :: 0 <= i < |frames| ==> frames[i].Height() == frames[0].Height()
    ensures |frames| == 0 ==> r == Ok([])
    ensures |frames| > 0 ==> (r.Err? <==> NoBandEnd(frames[0]))
    ensures r.Err? ==> r.error == PixelOutOfRange
    ensures r.Ok? ==> |r.value| == |frames|
    ensures r.Ok? && |frames| > 0 ==>
      var cropY := CaptionBandEnd(frames[0]).value;
      && BandEndsAt(frames[0], cropY)
      && forall i :: 0 <= i < |frames| ==>
           && r.value[i].band == 2 * FontSize(frames[i].width)
           && BelowBand(r.value[i].image, r.value[i].band, Crop(frames[i], cropY))
           && r.value[i].text == LegacyCaptionFrame(Crop(frames[i], cropY), measure).text
  {
    var out: seq<Captioned> := [];
    var cropY: int := -1;
    var i := 0;
    while i < |frames|
      invariant 0 <= i <= |frames|
      invariant i == 0 ==> cropY == -1
      invariant i > 0 ==> CaptionBandEnd(frames[0]).Ok? && cropY == CaptionBandEnd(frames[0]).value
      invariant |out| == i
      invariant i > 0 ==> LegacyFramesDone(frames, cropY, out, measure)
    {
      if cropY == -1 {
        var scan := CaptionBandEnd(frames[i]);
        if scan.Err? {
          return Err(scan.error);
        }
        cropY := scan.value;
      }
      var cropped := Crop(frames[i], cropY);
      var captioned := LegacyCaptionFrame(cropped, measure);
      LegacyFramesStep(frames, cropY, out, measure);
      out := out + [captioned];
      i := i + 1;
    }
    return Ok(out);
  }

  /**
   * The first `|out|` frames of the legacy loop's output: each is frame `j`
   * cropped at `cropY` below a band of twice the font size, with the
   * legacy text draw.
   */
  ghost predicate LegacyFramesDone(frames: seq<Image>, cropY: int, out: seq<Captioned>, measure: (string, nat) -> Extent)
    requires AllValid(frames)
  {
    && |out| <= |frames|
    && 0 <= cropY
    && forall j :: 0 <= j < |out| ==>
         && cropY <= frames[j].Height()
         && out[j].band == 2 * FontSize(frames[j].width)
         && BelowBand(out[j].image, out[j].band, Crop(frames[j], cropY))
         && out[j].text == LegacyCaptionFrame(Crop(frames[j], cropY), measure).text
  }

  /** One iteration of the legacy frame loop extends the finished prefix by one frame. */
  lemma LegacyFramesStep(frames: seq<Image>, cropY: int, out: seq<Captioned>, measure: (string, nat) -> Extent)
    requires AllValid(frames) && |out| < |frames|
    requires 0 <= cropY <= frames[|out|].Height()
    requires |out| > 0 ==> LegacyFramesDone(frames, cropY, out, measure)
    ensures LegacyFramesDone(frames, cropY, out + [LegacyCaptionFrame(Crop(frames[|out|], cropY), measure)], measure)
  {
    var out' := out + [LegacyCaptionFrame(Crop(frames[|out|], cropY), measure)];
    forall j | 0 <= j < |out|
      ensures out'[j] == out[j]
    {
    }
  }

  /**
   * Cropping a recaptioned frame again strips exactly the new band and
   * gives back the cropped frame: the pipeline finds its own band.
   */
  lemma RecropRecaptioned(frame: Image, caption: string, measure: (string, nat) -> Extent)
    requires frame.Valid() && !NoBandEnd(frame)
    requires measure(caption, FontSize(frame.width)).width <= frame.width
    requires CentredX(frame.width, measure(caption, FontSize(frame.width)).width) > 0
    ensures RecaptionFrame(frame, caption, measure).Ok?
    ensures CropFrame(RecaptionFrame(frame, caption, measure).value.image) == CropFrame(frame)
  {
    var cropped := CropFrame(frame).value;
    assert cropped.rows[0] == frame.rows[frame.Height() - cropped.Height()];
    CropFindsNewBand(cropped, caption, CaptionPadding, measure);
  }

  /**
   * A 100x80 frame whose column 0 is white down to row 10, captioned with
   * text 30 pixels high, comes out 70 + 36 + 40 = 146 rows high.
   */
  lemma WorkedExample(frame: Image, caption: string, measure: (string, nat) -> Extent)
    requires frame.Valid() && frame.width == 100 && frame.Height() == 80
    requires BandEndsAt(frame, 10)
    requires measure(caption, 13) == Extent(90, 30)
    ensures RecaptionFrame(frame, caption, measure).Ok?
    ensures RecaptionFrame(frame, caption, measure).value.image.Height() == 146
  {
    CaptionBandEndFinds(frame, 10);
  }
}
