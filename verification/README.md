# Jarvis recaptioning, modelled in Dafny

Jarvis takes a captioned GIF from iFunny and produces a new GIF. It strips the
white caption band from the top of each frame and stacks a new white band with
new text above the frame. It also plays the clip three times faster. The GIF
is picked from a stream of posts by a sampling loop that pools only
`gif_caption` posts. The repository has two versions of this logic: the
`Jarvis` class (`jarvis.py`) and an older top-level script
(`jarvis_legacy.py`). This project models the integer and grid logic of both:

- `results.dfy`, module `Results`. The exceptions the code raises, as an
  `Error` datatype. A `Result` type carries either a value or one of those
  errors. `Collect` runs steps in order and stops at the first failure.
- `raster.dfy`, module `Raster`. An RGB frame is a width plus rows of pixels.
  `Blank`, `Crop` and `Paste` model `Image.new`, `Image.crop` and `Image.paste`
  for the full-width boxes the code passes them.
- `bandscan.dfy`, module `BandScan`. The column-0 white scan and `crop_frame`.
- `captioning.dfy`, module `Captioning`. The font size, the band height, the
  centred text origin, `add_caption`, and the legacy per-frame captioning.
- `retiming.dfy`, module `Retiming`. The duration clamp `max(20, d // 3)`.
- `sampling.dfy`, module `Sampling`. The post-sampling loop of
  `fetch_gif_frames` and the sampling loop of the legacy script. Both are
  given as a recursive loop function plus an independent description: the
  gif posts among the first `k` posts, where `k` is the first place the loop
  would stop.
- `pipeline.dfy`, module `Pipeline`. The per-frame loop of
  `get_jarvised_gif`, where each frame is cropped on its own scan. Also the
  legacy frame loop, which scans only the first frame (sentinel `crop_y = -1`)
  and crops every frame at that row.

Inputs the model cannot compute are parameters:

- Text measurement depends on a font file. It is the parameter
  `measure(text, font size)`, which returns the text's width and height.
- Random choices are the index `pick`. The model takes element
  `pick % |pool|` of the pool.
- The post stream is a finite sequence of posts. The real stream comes from
  the network and may be unbounded.

Facts about the code that the model follows:

- The band height is `int(text_h * 1.20 + 2 * padding)`, a floor of the
  whole sum.
- `jarvis.py` scans every frame for its own crop row. Only the legacy script
  computes the row once, from the first frame.
- An all-white column 0 does not give a distinct detection error. The code
  asks `getpixel` for a row past the bottom, which raises `IndexError`. The
  model returns `Err(PixelOutOfRange)`.
- Frames of width 0 fail the same way.

## Model

| member | source | states |
|---|---|---|
| Raster.Blank | jarvis.py:208-212 | The new canvas has the requested width and height, and every pixel is (255, 255, 255). |
| Raster.Crop | jarvis.py:182 | Cropping at `crop_y` keeps the width and leaves `h - crop_y` rows. Row `y` of the result is row `y + crop_y` of the original. |
| Raster.Paste | jarvis.py:215-218 | The pasted frame's rows replace the canvas rows from `top` down. Every canvas row above or below them is unchanged, and the canvas size is kept. |
| Raster.CropAtZero | jarvis.py:182 | A `crop_y` of 0 leaves the frame unchanged. |
| Raster.CropUndoesBand | jarvis.py:208-218 | Pasting a frame below a white band and cropping the band off again gives back the frame. |
| BandScan.ScanFrom | jarvis.py:174-179 | The scan from row `y` returns a row at or below `y`. That row's column-0 pixel is not white, and every column-0 pixel above it is white. The scan fails exactly when it runs past the bottom of the frame. |
| BandScan.CaptionBandEnd | jarvis.py:174-179 | `crop_y` is the first row whose column-0 pixel is not exactly white. The scan fails if and only if there is no column 0 or column 0 is white for the whole height. |
| BandScan.CaptionBandEndFinds | jarvis.py:174-179 | Whenever a first non-white column-0 row exists, the scan returns exactly that row. |
| BandScan.ColumnZeroDecides | jarvis.py:175-179 | Two frames of equal height whose column-0 pixels agree get the same scan result. Pixels outside column 0 never matter. |
| BandScan.CropFrame | jarvis.py:161-183 | `crop_frame` fails exactly when the scan fails. Otherwise the result has the input width, and its rows are the input rows from the first non-white column-0 row to the bottom. |
| BandScan.CropFrameIdempotent | jarvis.py:174-182 | A cropped frame starts with a non-white column-0 pixel, so cropping it again changes nothing. |
| Captioning.FontSize | jarvis.py:197 | The font size is `floor(w * 13 / 100)`. |
| Captioning.BandHeight | jarvis.py:206 | The band is `floor(text_h * 12/10 + 2 * padding)` rows high. It is at least `text_h + 2 * padding`. |
| Captioning.CentredX | jarvis.py:223 | The text origin `w//2 - tw//2` splits the spare width so that the right margin minus the left margin equals `w % 2 - tw % 2`. If the text is no wider than the frame, it lies within the frame. |
| Captioning.StackBelowBand | jarvis.py:208-218 | The canvas is the frame's width and `band` rows taller. Its top `band` rows are white, and the rows below them are the frame's rows. |
| Captioning.AddCaption | jarvis.py:185-230 | Captioning fails with `CaptionTooLong` exactly when the measured text is wider than the frame. Otherwise the canvas is the frame below a white band of `floor(1.2 * text_h + 2 * padding)` rows. The text is drawn at `y = padding` with the font size from the frame width and line spacing 4. It is horizontally centred and lies inside the band. |
| Captioning.WidthBoundary | jarvis.py:202-203 | Text exactly as wide as the frame is accepted, and text one pixel wider is refused. |
| Captioning.CropUndoesCaption | jarvis.py:206-218 | Cropping the new band off a captioned frame gives back the frame that was captioned. |
| Captioning.BandEndBelowBand | jarvis.py:208-218 | A white band stacked above a frame moves the scan result down by exactly the band height. If the frame's scan fails, so does the stacked frame's. |
| Captioning.CropFindsNewBand | jarvis.py:174-218 | When the frame's own top-left pixel is not white (as after `crop_frame`) and the centred text starts right of column 0, running `crop_frame` on the canvas that `add_caption` builds strips exactly the new band and returns the frame that was captioned. |
| Captioning.LegacyCaptionFrame | jarvis_legacy.py:74-95 | The legacy band is `2 * floor(0.13 * w')` rows of white above the cropped frame. There is no width check. The text origin is `(w'//2 - tw//2, th//2)`, with spacing 0 and the fixed text "fart". |
| Captioning.LegacyCropUndoesCaption | jarvis_legacy.py:77-89 | Cropping the `2 * font size` band off a legacy frame gives back the cropped frame. |
| Retiming.Retime | jarvis.py:249 | The new duration is at least 20 ms. For `d >= 60` it is `d // 3`, so that 3 times it is within 3 ms below `d`. For every `d < 63` it is exactly 20. |
| Retiming.RetimeMonotone | jarvis.py:249 | A longer source duration never yields a shorter output duration. |
| Retiming.RetimeExamples | jarvis_legacy.py:109 | The legacy duration uses the same clamp with `MIN_DURATION = 20`: 90 becomes 30, 60 becomes 20, and 10 becomes 20. |
| Results.Collect | jarvis.py:251-258 | Running steps in order succeeds exactly when every step succeeds. On success it returns every value in order. Otherwise it returns the error of the first failing step. |
| Sampling.Gifs | jarvis.py:119-125 | The pooled posts are all `gif_caption` posts taken from the stream, and there are no more of them than there are posts. |
| Sampling.GifsComplete | jarvis.py:119-125 | Conversely, every `gif_caption` post of the stream is pooled: the filter drops only non-gif posts. |
| Sampling.GifsPlusSkips | jarvis.py:119-125 | Every post looked at is either pooled or counted by `loop_count`: the two counts add up to the number of posts. |
| Sampling.FetchLoop | jarvis.py:112-129 | The loop keeps these facts between iterations: the pool is the gif posts seen so far, in order; `loop_count` is the number of non-gif posts seen; `current_sample` is the pool size; and `loop_count` is at most 100. The loop ends at the first post before which it would stop. |
| Sampling.FetchStop | jarvis.py:115-129 | The loop looks at the posts up to the first place where one of these holds: the stream is exhausted, 100 non-gif posts were skipped, or the pool holds `samples` gifs. At most 100 non-gif posts are skipped, and `current_sample + loop_count` equals the number of posts looked at. |
| Sampling.FetchPool | jarvis.py:112-132 | The pool is exactly the gif posts, in stream order, among the posts the loop looked at. An empty pool raises `NoGifsFetched`. When `samples >= 1`, the pool holds at most `samples` posts. |
| Sampling.ChoosePost | jarvis.py:131-134 | The chosen post fails exactly when the pool is empty. Otherwise it is a gif from the stream and from the pool. |
| Sampling.FetchGivesUpAfterSafetyLimit | jarvis.py:116-132 | 100 non-gif posts at the head of the stream exhaust the safety limit, so the fetch raises whatever follows. |
| Sampling.FetchReachesGifAfterSkips | jarvis.py:116-129 | Gifs do not advance the safety counter. After 99 non-gif posts, a gif at post 100 is still pooled, for every sample count. With one sample it is the whole pool. |
| Sampling.LegacyLoop | jarvis_legacy.py:29-44 | The loop keeps these facts: the list is the gif posts seen so far, in order; `CURRENT_SAMPLE` is the start value plus the list size; and `SAFETY_COUNTER` is the start value plus the number of posts seen. The loop ends at the first post before which it would stop. |
| Sampling.LegacyStop | jarvis_legacy.py:31-37 | The legacy loop stops at the first place where one of these holds: the stream is exhausted, `CURRENT_SAMPLE` reached 30, or `SAFETY_COUNTER` reached 100. |
| Sampling.LegacyStopCount | jarvis_legacy.py:24-44 | With counters started at `base`, the loop looks at no more than `100 - base` posts. It keeps every gif among them, up to `30 - base` gifs. |
| Sampling.LegacySample | jarvis_legacy.py:24-44 | The legacy list holds only gifs, in stream order, from at most the first 99 posts. Its length is `min(29, gifs among the first min(n, 99) posts)`. |
| Sampling.LegacyChoose | jarvis_legacy.py:46 | `gifs[randint(0, len - 1)]` fails exactly on an empty list. Otherwise it returns a member of the list. |
| Sampling.LegacyMissesGifAfterSkips | jarvis_legacy.py:35-46 | After 99 non-gif posts, the legacy list is empty whatever follows, and the random choice fails. |
| Sampling.LegacySampleMissesOne | jarvis_legacy.py:23-44 | On a stream that starts with 30 gifs, the script keeps only 29 of them. |
| Sampling.IntendedLegacySample | jarvis_legacy.py:23-27 | With both counters started at 0, the legacy loop keeps up to 30 gifs from within the first 100 posts. |
| Pipeline.RecaptionFrame | jarvis.py:252-256 | A frame is recaptioned exactly when its scan succeeds and the caption fits. An all-white column 0 fails first with `PixelOutOfRange`; a caption wider than the frame then fails with `CaptionTooLong`. The result is the frame, cropped at its own first non-white row, below a band of `int(th * 1.20 + 40)` rows. The text is drawn at `(w//2 - tw//2, 20)` with the font size `int(w * 0.13)` and spacing 4. |
| Pipeline.RecaptionAll | jarvis.py:251-258 | The frame loop succeeds exactly when every frame does. Output frame `i` is input frame `i` recaptioned, with the same count and order. On failure it reports the error of the first failing frame. |
| Pipeline.JarvisedGif | jarvis.py:247-258 | The output GIF fails exactly when the frame loop fails. Its frames are the frame loop's output. Its duration is exactly the retimed `max(20, d // 3)`: at least 20 ms, and `d // 3` for `d >= 60`. |
| Pipeline.LegacyRecaption | jarvis_legacy.py:54-98 | `crop_y` comes from the first frame only, and the whole loop fails exactly when that scan fails. Frame i of the output is frame i of the input, cropped at that one row, below a white band twice the font size. Its text draw is the legacy one: "fart" at `(w'//2 - tw//2, th//2)`, spacing 0. The output keeps the frame count. |
| Pipeline.RecropRecaptioned | jarvis.py:253-254 | A frame with a band end whose caption fits is recaptioned. When the text starts right of column 0, running `crop_frame` on the recaptioned canvas strips exactly the new band and gives the same result as cropping the original frame. |
| Pipeline.WorkedExample | jarvis.py:197-218 | A 100x80 frame that is white down to row 10, captioned with text 30 pixels high, comes out `70 + 36 + 40 = 146` rows high. |

## Left out

- Network I/O is left out: the iFunny client, the Imgur upload and the Discord webhook (`upload_to_imgur`, `post_to_discord`, `work`, and the end of the legacy script). The post stream is a finite sequence, but the real one may be unbounded.
- Randomness is left out: `seed`, `choice` and `randint`. A random choice is the parameter `pick`, and the tag choice is not modelled.
- GIF decoding and encoding are left out. That covers moviepy, PIL's `Image.open`/`save`, the temporary files, and `save_random_gif`. `JarvisedGif` starts from a decoded clip. A clip from one decoder call has frames of a single size.
- Font loading, text measurement and glyph rasterisation are left out. `measure` is a parameter. Recaptioned frames are the canvas before text is drawn, and the text is recorded as a draw call. Pixels covered by glyphs are unspecified beyond starting white. A font size of 0 (frames narrower than 8 pixels) is whatever the font library does with it.
- The doubles 0.13 and 1.20 are exact ratios with floor division. For realistic widths and text heights, the truncated IEEE products equal these floors.
- The configuration setters, the credentials and the caption pool are left out. The one-argument `add_caption` is shadowed by the later three-argument one, so the pool can never grow.
- The `convert('RGB')` and `convert('P', ...)` calls are left out. Their results are discarded.
- `crop_frame`'s `if not image` guard is left out. It rejects only a missing image, which a typed frame argument cannot be.
- AddCaption: padding is a natural number. A negative padding is not modelled. There, `int()` truncates toward zero and `Image.new` rejects a negative height. The only caller passes `CAPTION_PADDING = 20`.
- CropFindsNewBand: requires the text origin `x > 0` and speaks of the canvas before the text is drawn. When `tw == w` the text starts at column 0, and a black glyph pixel there ends `crop_frame`'s scan inside the new band. Glyph shapes are not modelled, so the model cannot say which rows such a pixel lands on. A font whose glyphs reach left of their origin is not modelled either.
- RecropRecaptioned: the same restriction as `CropFindsNewBand`, for the same reason.
- LegacyRecaption: requires every frame to have the first frame's height, as frames decoded from one clip do. What PIL does when the crop row lies below a shorter later frame is not modelled.

## Findings

| source | as written | input that shows it | evidently intended | confidence | as-written member | corrected member |
|---|---|---|---|---|---|---|
| jarvis_legacy.py:23-44 | `CURRENT_SAMPLE` and `SAFETY_COUNTER` start at 1 and are compared with `>= 30` and `>= 100`. So the loop keeps at most 29 gifs and looks at no more than 99 posts. | A stream whose first 30 posts are all `gif_caption` yields 29 gifs, not 30. | "How many posts to choose from" is `SAMPLE_SIZE = 30`, taken from within `SAFE_LIMIT = 100` posts. The rewrite in `jarvis.py` starts its counters at 0. | medium; not executed | Sampling.LegacySample, shown by Sampling.LegacySampleMissesOne | Sampling.IntendedLegacySample |
