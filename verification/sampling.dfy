/**
 * Candidate sampling: a loop over a stream of posts that pools only posts of
 * type "gif_caption", stopping on a sample count or on a safety counter.
 * `FetchPool` is the loop of `Jarvis.fetch_gif_frames`; `LegacySample` is the
 * module-level loop of the legacy script. The two count differently: the
 * former starts its counters at 0 and counts only skipped posts against the
 * safety limit; the latter starts both counters at 1 and counts every post.
 *
 * The real stream comes from the network and may be unbounded; here it is a
 * finite sequence, and running out of posts ends the loop.
 */
module Sampling {
  import opened Results

  /** The post type the pipeline can recaption. */
  const GifCaption: string := "gif_caption"

  /** `Jarvis.FETCH_SAFETY_LIMIT`: how many non-gif posts may be skipped. */
  const FetchSafetyLimit: nat := 100

  /** The legacy `SAMPLE_SIZE`. */
  const SampleSize: nat := 30

  /** The legacy `SAFE_LIMIT`. */
  const SafeLimit: nat := 100

  datatype Post = Post(id: string, kind: string)

  predicate IsGif(p: Post) {
    p.kind == GifCaption
  }

  function Min(a: int, b: int): int {
    if a <= b then a else b
  }

  /** The gif posts of `s`, in stream order. */
  function Gifs(s: seq<Post>): (g: seq<Post>)
    ensures |g| <= |s|
    ensures forall i :: 0 <= i < |g| ==> IsGif(g[i]) && g[i] in s
  {
    if |s| == 0 then []
    else Gifs(s[..|s| - 1]) + (if IsGif(s[|s| - 1]) then [s[|s| - 1]] else [])
  }

  /** The converse of `Gifs`' contract: no gif post of `s` is dropped. */
  lemma {:induction false} GifsComplete(s: seq<Post>)
    ensures forall i :: 0 <= i < |s| && IsGif(s[i]) ==> s[i] in Gifs(s)
  {
    if |s| > 0 {
      var init := s[..|s| - 1];
      GifsComplete(init);
      forall i | 0 <= i < |s| && IsGif(s[i])
        ensures s[i] in Gifs(s)
      {
        if i < |s| - 1 {
          assert init[i] == s[i];
          assert s[i] in Gifs(init);
        }
      }
    }
  }

  /** How many posts of `s` are not gifs. */
  function Skips(s: seq<Post>): nat {
    if |s| == 0 then 0
    else Skips(s[..|s| - 1]) + (if IsGif(s[|s| - 1]) then 0 else 1)
  }

  /** Extending a prefix by one post adds that post to exactly one of the two counts. */
  lemma PrefixStep(s: seq<Post>, k: nat)
    requires k < |s|
    ensures Gifs(s[..k + 1]) == Gifs(s[..k]) + (if IsGif(s[k]) then [s[k]] else [])
    ensures Skips(s[..k + 1]) == Skips(s[..k]) + (if IsGif(s[k]) then 0 else 1)
  {
    assert s[..k + 1][..k] == s[..k];
  }

  /** Every post of a prefix is either pooled or skipped. */
  lemma {:induction false} GifsPlusSkips(s: seq<Post>)
    ensures |Gifs(s)| + Skips(s) == |s|
  {
    if |s| > 0 {
      GifsPlusSkips(s[..|s| - 1]);
    }
  }

  /** The number of gifs in a prefix grows by at most one per post and never shrinks. */
  lemma {:induction false} GifCountMonotone(s: seq<Post>, j: nat, k: nat)
    requires j <= k <= |s|
    ensures |Gifs(s[..j])| <= |Gifs(s[..k])| <= |Gifs(s[..j])| + (k - j)
    decreases k - j
  {
    if j < k {
      GifCountMonotone(s, j, k - 1);
      PrefixStep(s, k - 1);
    }
  }

  // ---------------------------------------------------------------------
  // Jarvis.fetch_gif_frames

  /**
   * The loop variables of `fetch_gif_frames`: `post_pool`,
   * `current_sample`, `loop_count`, and how many posts the `for` has taken.
   */
  datatype FetchState = FetchState(pool: seq<Post>, currentSample: int, loopCount: nat, next: nat)

  const FetchStart := FetchState([], 0, 0, 0)

  /**
   * The loop would stop before looking at post `k`: the stream is exhausted,
   * the skip limit is reached, or (for a positive `samples`) the first `k`
   * posts hold exactly `samples` gifs.
   */
  predicate FetchHalts(stream: seq<Post>, samples: int, k: nat)
    requires k <= |stream|
  {
    || k == |stream|
    || Skips(stream[..k]) >= FetchSafetyLimit
    || (samples >= 1 && |Gifs(stream[..k])| == samples)
  }

  /** `k` is the first place where the loop would stop. */
  predicate FetchStopsAt(stream: seq<Post>, samples: int, k: nat)
    requires k <= |stream|
  {
    FetchHalts(stream, samples, k) && forall j :: 0 <= j < k ==> !FetchHalts(stream, samples, j)
  }

  /** What holds of the loop variables between iterations. */
  predicate FetchInvariant(stream: seq<Post>, samples: int, st: FetchState) {
    && st.next <= |stream|
    && st.pool == Gifs(stream[..st.next])
    && st.loopCount == Skips(stream[..st.next])
    && st.currentSample == |st.pool|
    && st.loopCount <= FetchSafetyLimit
    && (samples >= 1 ==> |st.pool| <= samples)
    && forall j :: 0 <= j < st.next ==> !FetchHalts(stream, samples, j)
  }

  /** One iteration of the loop body on post `st.next`, before the sample-count `break`. */
  function FetchAdvance(stream: seq<Post>, st: FetchState): FetchState
    requires st.next < |stream|
  {
    var post := stream[st.next];
    if IsGif(post) then
      st.(pool := st.pool + [post], currentSample := st.currentSample + 1, next := st.next + 1)
    else
      st.(loopCount := st.loopCount + 1, next := st.next + 1)
  }

  /** An iteration that passed the safety check keeps the invariant. */
  lemma FetchAdvanceKeeps(stream: seq<Post>, samples: int, st: FetchState)
    requires FetchInvariant(stream, samples, st)
    requires samples >= 1 ==> st.currentSample < samples
    requires st.next < |stream| && st.loopCount < FetchSafetyLimit
    ensures FetchInvariant(stream, samples, FetchAdvance(stream, st))
  {
    PrefixStep(stream, st.next);
    assert !FetchHalts(stream, samples, st.next);
  }

  /** The `for` loop of `fetch_gif_frames`, from state `st` on. */
  function FetchLoop(stream: seq<Post>, samples: int, st: FetchState): (r: FetchState)
    requires FetchInvariant(stream, samples, st)
    requires samples >= 1 ==> st.currentSample < samples
    ensures FetchInvariant(stream, samples, r)
    ensures st.next <= r.next
    ensures FetchStopsAt(stream, samples, r.next)
    decreases |stream| - st.next
  {
    if st.next == |stream| || st.loopCount >= FetchSafetyLimit then
      st
    else
      var st' := FetchAdvance(stream, st);
      FetchAdvanceKeeps(stream, samples, st);
      if IsGif(stream[st.next]) && st'.currentSample == samples then st' else FetchLoop(stream, samples, st')
  }

  /** The first stop comes no later than any place where the loop would halt. */
  lemma FetchStopsFirst(stream: seq<Post>, samples: int, k: nat, m: nat)
    requires k <= |stream| && m <= |stream|
    requires FetchStopsAt(stream, samples, k) && FetchHalts(stream, samples, m)
    ensures k <= m
  {
  }

  /** How many posts the loop of `fetch_gif_frames` looks at. */
  function FetchStop(stream: seq<Post>, samples: int): (k: nat)
    ensures k <= |stream|
    ensures FetchStopsAt(stream, samples, k)
    ensures Skips(stream[..k]) <= FetchSafetyLimit
    ensures |Gifs(stream[..k])| + Skips(stream[..k]) == k
  {
    assert stream[..0] == [];
    var k := FetchLoop(stream, samples, FetchStart).next;
    GifsPlusSkips(stream[..k]);
    k
  }

  /**
   * The pool `fetch_gif_frames` draws from: the gif posts among the posts
   * the loop looked at, or `NoGifsFetched` when there are none.
   */
  function FetchPool(stream: seq<Post>, samples: int): (r: Result<seq<Post>>)
    ensures r.Ok? ==> 0 < |r.value|
    ensures r.Ok? ==> forall i :: 0 <= i < |r.value| ==> IsGif(r.value[i])
    ensures r.Ok? && samples >= 1 ==> |r.value| <= samples
    ensures r.Err? ==> r.error == NoGifsFetched
    ensures r == (if |Gifs(stream[..FetchStop(stream, samples)])| == 0 then Err(NoGifsFetched)
                  else Ok(Gifs(stream[..FetchStop(stream, samples)])))
  {
    assert stream[..0] == [];
    var last := FetchLoop(stream, samples, FetchStart);
    if |last.pool| == 0 then Err(NoGifsFetched) else Ok(last.pool)
  }

  /** `choice(post_pool)`, the random index taken as the parameter `pick`. */
  function ChoosePost(stream: seq<Post>, samples: int, pick: nat): (r: Result<Post>)
    ensures r.Err? <==> FetchPool(stream, samples).Err?
    ensures r.Ok? ==> IsGif(r.value) && r.value in stream && r.value in FetchPool(stream, samples).value
  {
    var pool :- FetchPool(stream, samples);
    Ok(pool[pick % |pool|])
  }

  /** Posts that are not gifs only. */
  lemma {:induction false} NoGifsInPrefix(s: seq<Post>, k: nat)
    requires k <= |s|
    requires forall i :: 0 <= i < k ==> !IsGif(s[i])
    ensures Gifs(s[..k]) == [] && Skips(s[..k]) == k
  {
    if k > 0 {
      NoGifsInPrefix(s, k - 1);
      PrefixStep(s, k - 1);
    }
  }

  /**
   * A hundred non-gif posts at the head of the stream exhaust the safety
   * limit: the loop never reaches a later gif and the fetch fails.
   */
  lemma FetchGivesUpAfterSafetyLimit(stream: seq<Post>, samples: int)
    requires FetchSafetyLimit <= |stream|
    requires forall i :: 0 <= i < FetchSafetyLimit ==> !IsGif(stream[i])
    ensures FetchPool(stream, samples) == Err(NoGifsFetched)
  {
    var k := FetchStop(stream, samples);
    NoGifsInPrefix(stream, FetchSafetyLimit);
    FetchStopsFirst(stream, samples, k, FetchSafetyLimit);
    NoGifsInPrefix(stream, k);
  }

  /** After 99 leading non-gif posts the loop has not stopped yet. */
  lemma FetchLooksPastSkips(stream: seq<Post>, samples: int)
    requires FetchSafetyLimit <= |stream|
    requires forall i :: 0 <= i < FetchSafetyLimit - 1 ==> !IsGif(stream[i])
    ensures FetchSafetyLimit - 1 < FetchStop(stream, samples)
  {
    var k := FetchStop(stream, samples);
    if k < FetchSafetyLimit {
      NoGifsInPrefix(stream, k);
      assert false;
    }
  }

  /**
   * Gifs do not advance the safety counter: after 99 skipped posts a gif is
   * still pooled, whatever the sample count; with one sample it is the
   * whole pool.
   */
  lemma FetchReachesGifAfterSkips(stream: seq<Post>, samples: int)
    requires FetchSafetyLimit <= |stream|
    requires forall i :: 0 <= i < FetchSafetyLimit - 1 ==> !IsGif(stream[i])
    requires IsGif(stream[FetchSafetyLimit - 1])
    ensures FetchPool(stream, samples).Ok?
    ensures stream[FetchSafetyLimit - 1] in FetchPool(stream, samples).value
    ensures samples == 1 ==> FetchPool(stream, samples) == Ok([stream[FetchSafetyLimit - 1]])
  {
    var n := FetchSafetyLimit - 1;
    var k := FetchStop(stream, samples);
    FetchLooksPastSkips(stream, samples);
    GifsComplete(stream[..k]);
    assert stream[..k][n] == stream[n];
    if samples == 1 {
      NoGifsInPrefix(stream, n);
      PrefixStep(stream, n);
      FetchStopsFirst(stream, samples, k, n + 1);
      assert Gifs(stream[..k]) == [stream[n]];
    }
  }

  // ---------------------------------------------------------------------
  // The legacy script

  /**
   * The legacy loop variables: `gifs`, `CURRENT_SAMPLE`, `SAFETY_COUNTER`,
   * and how many posts the `for` has taken. Both counters start at `base`.
   */
  datatype LegacyState = LegacyState(gifs: seq<Post>, currentSample: int, safetyCounter: int, next: nat)

  function LegacyStart(base: nat): LegacyState {
    LegacyState([], base, base, 0)
  }

  /** The legacy loop, counters started at `base`, would stop before post `k`. */
  predicate LegacyHalts(stream: seq<Post>, base: nat, k: nat)
    requires k <= |stream|
  {
    || k == |stream|
    || base + |Gifs(stream[..k])| >= SampleSize
    || base + k >= SafeLimit
  }

  predicate LegacyStopsAt(stream: seq<Post>, base: nat, k: nat)
    requires k <= |stream|
  {
    LegacyHalts(stream, base, k) && forall j :: 0 <= j < k ==> !LegacyHalts(stream, base, j)
  }

  predicate LegacyInvariant(stream: seq<Post>, base: nat, st: LegacyState) {
    && st.next <= |stream|
    && st.gifs == Gifs(stream[..st.next])
    && st.currentSample == base + |st.gifs|
    && st.safetyCounter == base + st.next
    && forall j :: 0 <= j < st.next ==> !LegacyHalts(stream, base, j)
  }

  /** One iteration of the legacy loop body on post `st.next`, past both checks. */
  function LegacyAdvance(stream: seq<Post>, st: LegacyState): LegacyState
    requires st.next < |stream|
  {
    var post := stream[st.next];
    var counted := st.(safetyCounter := st.safetyCounter + 1, next := st.next + 1);
    if IsGif(post) then
      counted.(currentSample := counted.currentSample + 1, gifs := counted.gifs + [post])
    else
      counted
  }

  /** An iteration that passed both checks keeps the invariant. */
  lemma LegacyAdvanceKeeps(stream: seq<Post>, base: nat, st: LegacyState)
    requires LegacyInvariant(stream, base, st)
    requires st.next < |stream| && st.currentSample < SampleSize && st.safetyCounter < SafeLimit
    ensures LegacyInvariant(stream, base, LegacyAdvance(stream, st))
  {
    PrefixStep(stream, st.next);
    assert !LegacyHalts(stream, base, st.next);
  }

  /** The module-level `for` loop of the legacy script, from state `st` on. */
  function LegacyLoop(stream: seq<Post>, base: nat, st: LegacyState): (r: LegacyState)
    requires LegacyInvariant(stream, base, st)
    ensures LegacyInvariant(stream, base, r)
    ensures st.next <= r.next
    ensures LegacyStopsAt(stream, base, r.next)
    decreases |stream| - st.next
  {
    if st.next == |stream| || st.currentSample >= SampleSize || st.safetyCounter >= SafeLimit then
      st
    else
      LegacyAdvanceKeeps(stream, base, st);
      LegacyLoop(stream, base, LegacyAdvance(stream, st))
  }

  lemma LegacyStopsFirst(stream: seq<Post>, base: nat, k: nat, m: nat)
    requires k <= |stream| && m <= |stream|
    requires LegacyStopsAt(stream, base, k) && LegacyHalts(stream, base, m)
    ensures k <= m
  {
  }

  /** How many posts the legacy loop, counters started at `base`, looks at. */
  function LegacyStop(stream: seq<Post>, base: nat): (k: nat)
    ensures k <= |stream|
    ensures LegacyStopsAt(stream, base, k)
  {
    assert stream[..0] == [];
    LegacyLoop(stream, base, LegacyStart(base)).next
  }

  /**
   * The legacy loop, counters started at `base`, looks at no more than
   * `SafeLimit - base` posts and keeps all gifs among them, capped at
   * `SampleSize - base`.
   */
  lemma {:induction false} LegacyStopCount(stream: seq<Post>, base: nat)
    requires base < SampleSize && base < SafeLimit
    ensures LegacyStop(stream, base) <= Min(|stream|, SafeLimit - base)
    ensures |Gifs(stream[..LegacyStop(stream, base)])|
      == Min(SampleSize - base, |Gifs(stream[..Min(|stream|, SafeLimit - base)])|)
  {
    var k := LegacyStop(stream, base);
    var limit := Min(|stream|, SafeLimit - base);
    LegacyStopsFirst(stream, base, k, limit);
    if k > 0 {
      assert !LegacyHalts(stream, base, k - 1);
      GifCountMonotone(stream, k - 1, k);
    }
    if k < limit {
      GifCountMonotone(stream, k, limit);
    }
  }

  /** The legacy gif list, counters started at 1 as the script does. */
  function LegacySample(stream: seq<Post>): (gifs: seq<Post>)
    ensures forall i :: 0 <= i < |gifs| ==> IsGif(gifs[i])
    ensures LegacyStop(stream, 1) <= Min(|stream|, SafeLimit - 1)
    ensures gifs == Gifs(stream[..LegacyStop(stream, 1)])
    ensures |gifs| == Min(SampleSize - 1, |Gifs(stream[..Min(|stream|, SafeLimit - 1)])|)
  {
    assert stream[..0] == [];
    LegacyStopCount(stream, 1);
    LegacyLoop(stream, 1, LegacyStart(1)).gifs
  }

  /**
   * `gifs[randint(0, len(gifs) - 1)]`, the random index taken as the
   * parameter `pick`: an empty list leaves `randint` an empty range.
   */
  function LegacyChoose(gifs: seq<Post>, pick: nat): (r: Result<Post>)
    ensures r.Ok? <==> 0 < |gifs|
    ensures r.Err? ==> r.error == EmptyRandomRange
    ensures r.Ok? ==> r.value in gifs
  {
    if |gifs| == 0 then Err(EmptyRandomRange) else Ok(gifs[pick % |gifs|])
  }

  /**
   * The legacy loop as its comment describes it: `SAMPLE_SIZE` gifs from
   * within `SAFE_LIMIT` posts, both counters started at 0.
   */
  function IntendedLegacySample(stream: seq<Post>): (gifs: seq<Post>)
    ensures forall i :: 0 <= i < |gifs| ==> IsGif(gifs[i])
    ensures LegacyStop(stream, 0) <= Min(|stream|, SafeLimit)
    ensures gifs == Gifs(stream[..LegacyStop(stream, 0)])
    ensures |gifs| == Min(SampleSize, |Gifs(stream[..Min(|stream|, SafeLimit)])|)
  {
    assert stream[..0] == [];
    LegacyStopCount(stream, 0);
    LegacyLoop(stream, 0, LegacyStart(0)).gifs
  }

  /** A prefix of gif posts is its own gif list. */
  lemma {:induction false} AllGifsInPrefix(s: seq<Post>, k: nat)
    requires k <= |s|
    requires forall i :: 0 <= i < k ==> IsGif(s[i])
    ensures Gifs(s[..k]) == s[..k]
  {
    if k > 0 {
      AllGifsInPrefix(s, k - 1);
      PrefixStep(s, k - 1);
      assert s[..k - 1] + [s[k - 1]] == s[..k];
    }
  }

  /**
   * With thirty gifs at the head of the stream the script keeps only
   * twenty-nine of them; started at 0 the loop keeps all thirty.
   */
  lemma LegacySampleMissesOne(stream: seq<Post>)
    requires SampleSize <= |stream|
    requires forall i :: 0 <= i < SampleSize ==> IsGif(stream[i])
    ensures |LegacySample(stream)| == SampleSize - 1
    ensures IntendedLegacySample(stream) == stream[..SampleSize]
  {
    AllGifsInPrefix(stream, SampleSize);
    GifCountMonotone(stream, SampleSize, Min(|stream|, SafeLimit - 1));
    var k := LegacyStop(stream, 0);
    LegacyStopsFirst(stream, 0, k, SampleSize);
    assert k == SampleSize by {
      var g := IntendedLegacySample(stream);
      GifCountMonotone(stream, SampleSize, Min(|stream|, SafeLimit));
      assert |g| == SampleSize;
    }
  }

  /**
   * The legacy safety counter advances on every post, so the hundredth
   * post is never looked at: after 99 non-gif posts the list is empty,
   * whatever follows, and the random choice fails.
   */
  lemma LegacyMissesGifAfterSkips(stream: seq<Post>, pick: nat)
    requires SafeLimit <= |stream|
    requires forall i :: 0 <= i < SafeLimit - 1 ==> !IsGif(stream[i])
    ensures LegacySample(stream) == []
    ensures LegacyChoose(LegacySample(stream), pick) == Err(EmptyRandomRange)
  {
    NoGifsInPrefix(stream, SafeLimit - 1);
  }
}
