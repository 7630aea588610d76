/**
 * Captions for a generated story (`create_stories_with_srt.py`): the story
 * is cut at every full stop, each sentence gets a narration-time estimate,
 * the estimates are scaled so that they add up to the target duration, and
 * the sentences are laid end to end from 0 and written as SubRip records.
 */
module StorySrt {
  import opened Wrappers
  import opened Text
  import opened Patterns
  import opened SrtTime
  import opened Segments
  import opened SrtDocument

  /**
   * `estimate_narration_time(text)`: 3.5 characters per second, plus 0.3 s
   * per comma and 0.5 s per full stop. Never negative, and positive exactly
   * for a non-empty text.
   */
  function Estimate(text: string): (r: real)
    ensures r >= 0.0
    ensures r > 0.0 <==> text != []
  {
    |text| as real / 3.5 + 0.3 * Count(text, ',') as real + 0.5 * Count(text, '.') as real
  }

  /** The estimate of two texts read one after the other is the sum of their estimates. */
  lemma {:induction false} EstimateAppend(a: string, b: string)
    ensures Estimate(a + b) == Estimate(a) + Estimate(b)
  {
    CountAppend(a, b, ',');
    CountAppend(a, b, '.');
  }

  /**
   * `[s.strip() for s in story_text.split('.') if s.strip()]`: non-empty,
   * trimmed, and without a full stop.
   */
  function StorySentences(story: string): (r: seq<string>)
    ensures forall i :: 0 <= i < |r| ==> r[i] != [] && IsTrimmed(r[i]) && '.' !in r[i]
  {
    var pieces := Split(AnyOf({'.'}), story);
    SplitPiecesUnbroken(AnyOf({'.'}), story);
    forall i | 0 <= i < |pieces|
      ensures Avoids(pieces[i], {'.'})
    {
      UnbrokenAnyOf({'.'}, pieces[i]);
    }
    NonBlankAvoids(pieces, {'.'});
    NonBlank(pieces)
  }

  /** The estimate of every sentence, in order. */
  function Estimates(sentences: seq<string>): (r: seq<real>)
    ensures |r| == |sentences| && forall i :: 0 <= i < |r| ==> r[i] == Estimate(sentences[i])
  {
    seq(|sentences|, i requires 0 <= i < |sentences| => Estimate(sentences[i]))
  }

  function Sum(xs: seq<real>): real {
    if |xs| == 0 then 0.0 else xs[0] + Sum(xs[1..])
  }

  /** A sum of positive numbers, at least one, is positive. */
  lemma {:induction false} SumPositive(xs: seq<real>)
    requires forall i :: 0 <= i < |xs| ==> xs[i] > 0.0
    ensures Sum(xs) >= 0.0
    ensures |xs| > 0 ==> Sum(xs) > 0.0
  {
    if |xs| > 0 {
      SumPositive(xs[1..]);
    }
  }

  /** `sum(estimate_narration_time(s) for s in sentences)`. */
  function Total(sentences: seq<string>): (r: real)
    ensures (forall i :: 0 <= i < |sentences| ==> sentences[i] != []) ==> r >= 0.0 && (|sentences| > 0 ==> r > 0.0)
  {
    var es := Estimates(sentences);
    assert (forall i :: 0 <= i < |sentences| ==> sentences[i] != []) ==> Sum(es) >= 0.0 && (|sentences| > 0 ==> Sum(es) > 0.0) by {
      if forall i :: 0 <= i < |sentences| ==> sentences[i] != [] {
        SumPositive(es);
      }
    }
    Sum(es)
  }

  /** `time_scale`: `target / total` when the total is positive, else 1. */
  function Scale(target: real, total: real): real {
    if total > 0.0 then target / total else 1.0
  }

  lemma {:induction false} ScaleFills(target: real, total: real)
    requires total > 0.0
    ensures Scale(target, total) * total == target
    ensures target >= 0.0 ==> Scale(target, total) >= 0.0
  {
  }

  lemma {:induction false} ScaleFillsSum(target: real, total: real, sum: real)
    requires total > 0.0 && sum == total
    ensures Scale(target, total) * sum == target
    ensures target >= 0.0 ==> Scale(target, total) >= 0.0
  {
    ScaleFills(target, total);
  }

  /** Every number multiplied by `k`. */
  function ScaleAll(xs: seq<real>, k: real): (r: seq<real>)
    ensures |r| == |xs|
  {
    if |xs| == 0 then [] else [xs[0] * k] + ScaleAll(xs[1..], k)
  }

  lemma {:induction false} ScaleAllAt(xs: seq<real>, k: real)
    ensures forall i :: 0 <= i < |xs| ==> ScaleAll(xs, k)[i] == xs[i] * k
  {
    if |xs| > 0 {
      ScaleAllAt(xs[1..], k);
      assert forall i :: 1 <= i < |xs| ==> ScaleAll(xs, k)[i] == ScaleAll(xs[1..], k)[i - 1] && xs[i] == xs[1..][i - 1];
    }
  }

  lemma {:induction false} Distribute(a: real, b: real, k: real)
    ensures a * k + k * b == k * (a + b)
  {
  }

  /** Scaling every number scales the sum. */
  lemma {:induction false} SumScaled(xs: seq<real>, k: real)
    ensures Sum(ScaleAll(xs, k)) == k * Sum(xs)
  {
    if |xs| > 0 {
      SumScaled(xs[1..], k);
      assert ScaleAll(xs, k)[1..] == ScaleAll(xs[1..], k);
      Distribute(xs[0], Sum(xs[1..]), k);
    }
  }

  /**
   * The loop of `create_srt_from_story` from the sentence numbered
   * `first + 1` on, starting at `at` seconds: text `i` lasts `durations[i]`
   * and the next one starts where it ends.
   */
  function Timeline(durations: seq<real>, texts: seq<string>, first: nat, at: real): (r: seq<Segment>)
    requires |durations| == |texts|
    ensures |r| == |texts|
    decreases |texts|
  {
    if |texts| == 0 then []
    else
      var end := at + durations[0];
      [Segment(first + 1, at, end, texts[0])] + Timeline(durations[1..], texts[1..], first + 1, end)
  }

  /** The timeline starting at `at` is its first segment, then the timeline from where that one ends. */
  lemma {:induction false} TimelineCons(durations: seq<real>, texts: seq<string>, first: nat, at: real)
    requires |durations| == |texts| > 0
    ensures var r, rest := Timeline(durations, texts, first, at), Timeline(durations[1..], texts[1..], first + 1, at + durations[0]);
      && r[0] == Segment(first + 1, at, at + durations[0], texts[0])
      && forall i :: 0 < i < |r| ==> r[i] == rest[i - 1] && texts[i] == texts[1..][i - 1] && durations[i] == durations[1..][i - 1]
  {
  }

  /** Segment `i` of the timeline is numbered `first + i + 1`, holds text `i` and lasts `durations[i]`. */
  lemma {:induction false} TimelineFields(durations: seq<real>, texts: seq<string>, first: nat, at: real)
    requires |durations| == |texts|
    ensures var r := Timeline(durations, texts, first, at);
      forall i :: 0 <= i < |r| ==>
        r[i].index == first + i + 1 && r[i].text == texts[i] && r[i].end - r[i].start == durations[i]
    decreases |texts|
  {
    if |texts| > 0 {
      TimelineFields(durations[1..], texts[1..], first + 1, at + durations[0]);
      TimelineCons(durations, texts, first, at);
    }
  }

  /** The timeline starts at `at`, is contiguous, and ends after all the durations. */
  lemma {:induction false} TimelineChain(durations: seq<real>, texts: seq<string>, first: nat, at: real)
    requires |durations| == |texts|
    ensures var r := Timeline(durations, texts, first, at);
      && Contiguous(r)
      && (|r| > 0 ==> r[0].start == at && r[|r| - 1].end == at + Sum(durations))
    decreases |texts|
  {
    if |texts| > 0 {
      var end := at + durations[0];
      var rest := Timeline(durations[1..], texts[1..], first + 1, end);
      TimelineChain(durations[1..], texts[1..], first + 1, end);
      TimelineCons(durations, texts, first, at);
      var r := Timeline(durations, texts, first, at);
      if |rest| > 0 {
        assert r[1] == rest[0];
        assert r[|r| - 1] == rest[|rest| - 1];
      }
    }
  }

  /**
   * The timeline numbers the texts in order, lays them end to end from
   * `at`, gives each its duration, and ends after all of them.
   */
  lemma {:induction false} TimelineShape(durations: seq<real>, texts: seq<string>, first: nat, at: real)
    requires |durations| == |texts|
    ensures var r := Timeline(durations, texts, first, at);
      && (forall i :: 0 <= i < |r| ==> r[i].index == first + i + 1 && r[i].text == texts[i])
      && (forall i :: 0 <= i < |r| ==> r[i].end - r[i].start == durations[i])
      && Contiguous(r)
      && (|r| > 0 ==> r[0].start == at && r[|r| - 1].end == at + Sum(durations))
  {
    TimelineFields(durations, texts, first, at);
    TimelineChain(durations, texts, first, at);
  }

  /** The caption segments of a story's sentences for a target duration. */
  function StorySegments(sentences: seq<string>, target: real): seq<Segment> {
    Timeline(ScaleAll(Estimates(sentences), Scale(target, Total(sentences))), sentences, 0, 0.0)
  }

  /** Segment `i` lasts `xs[i] * k`. */
  predicate LastsScaled(segs: seq<Segment>, xs: seq<real>, k: real)
    requires |segs| == |xs|
  {
    forall i :: 0 <= i < |segs| ==> segs[i].end - segs[i].start == xs[i] * k
  }

  /** Durations scaled by `k`, laid end to end from 0, give each text its scaled duration. */
  lemma {:induction false} TimelineScaled(xs: seq<real>, texts: seq<string>, k: real)
    requires |xs| == |texts|
    ensures var r := Timeline(ScaleAll(xs, k), texts, 0, 0.0);
      && LastsScaled(r, xs, k)
      && (|r| > 0 ==> r[|r| - 1].end == k * Sum(xs))
  {
    TimelineShape(ScaleAll(xs, k), texts, 0, 0.0);
    ScaleAllAt(xs, k);
    SumScaled(xs, k);
  }

  /** Scaled durations that add up to `target`, laid end to end from 0, cover `[0, target]`. */
  lemma {:induction false} ScaledTimelineShape(xs: seq<real>, texts: seq<string>, k: real, target: real)
    requires |xs| == |texts| > 0 && k * Sum(xs) == target
    ensures var r := Timeline(ScaleAll(xs, k), texts, 0, 0.0);
      && |r| == |texts|
      && Texts(r) == texts
      && NumberedFromOne(r)
      && Partitions(r, target)
  {
    TimelineShape(ScaleAll(xs, k), texts, 0, 0.0);
    SumScaled(xs, k);
  }

  /** For at least one sentence, the total is the positive sum of the estimates. */
  lemma {:induction false} TotalIsSum(sentences: seq<string>)
    requires |sentences| > 0 && forall i :: 0 <= i < |sentences| ==> sentences[i] != []
    ensures Total(sentences) == Sum(Estimates(sentences)) && Total(sentences) > 0.0
  {
  }

  /** Durations scaled by `target / total`, where `total` is their positive sum, cover `[0, target]`. */
  lemma {:induction false} ScaledToTotal(xs: seq<real>, texts: seq<string>, total: real, target: real)
    requires |xs| == |texts| > 0 && total == Sum(xs) && total > 0.0
    ensures var r := Timeline(ScaleAll(xs, Scale(target, total)), texts, 0, 0.0);
      && |r| == |texts|
      && Texts(r) == texts
      && NumberedFromOne(r)
      && Partitions(r, target)
  {
    ScaleFillsSum(target, total, Sum(xs));
    ScaledTimelineShape(xs, texts, Scale(target, total), target);
  }

  /**
   * For at least one sentence: the captions are the sentences in order,
   * numbered from 1, and cover `[0, target]` end to end.
   */
  lemma {:induction false} StorySegmentsShape(sentences: seq<string>, target: real)
    requires |sentences| > 0 && forall i :: 0 <= i < |sentences| ==> sentences[i] != []
    ensures var segs := StorySegments(sentences, target);
      && |segs| == |sentences|
      && Texts(segs) == sentences
      && NumberedFromOne(segs)
      && Partitions(segs, target)
  {
    TotalIsSum(sentences);
    ScaledToTotal(Estimates(sentences), sentences, Total(sentences), target);
  }

  /**
   * Each caption of a story lasts its sentence's estimate times
   * `target / total`: the durations are proportional to the estimates.
   */
  lemma {:induction false} StoryDurations(sentences: seq<string>, target: real)
    ensures LastsScaled(StorySegments(sentences, target), Estimates(sentences), Scale(target, Total(sentences)))
  {
    TimelineScaled(Estimates(sentences), sentences, Scale(target, Total(sentences)));
  }

  lemma {:induction false} ProductNonNegative(a: real, b: real)
    requires a >= 0.0 && b >= 0.0
    ensures a * b >= 0.0
  {
  }

  /** Times within `[0, target]` for a target under 100 hours are clock times. */
  predicate WithinTarget(segs: seq<Segment>, target: real) {
    forall i :: 0 <= i < |segs| ==>
      && 0.0 <= segs[i].start <= segs[i].end <= target
      && InClockRange(segs[i].start) && InClockRange(segs[i].end)
  }

  /** Non-negative durations scaled to `target` keep every time within `[0, target]`. */
  lemma {:induction false} ScaledTimelineInRange(xs: seq<real>, texts: seq<string>, k: real, target: real)
    requires |xs| == |texts| > 0 && k * Sum(xs) == target
    requires k >= 0.0 && forall i :: 0 <= i < |xs| ==> xs[i] >= 0.0
    requires 0.0 <= target < 360000.0
    ensures WithinTarget(Timeline(ScaleAll(xs, k), texts, 0, 0.0), target)
  {
    var r := Timeline(ScaleAll(xs, k), texts, 0, 0.0);
    ScaledTimelineShape(xs, texts, k, target);
    TimelineScaled(xs, texts, k);
    forall i | 0 <= i < |r|
      ensures r[i].start <= r[i].end
    {
      ProductNonNegative(xs[i], k);
    }
    ContiguousBounds(r);
  }

  /** Non-negative durations scaled by `target / total`, where `total` is their positive sum, stay within `[0, target]`. */
  lemma {:induction false} ScaledToTotalInRange(xs: seq<real>, texts: seq<string>, total: real, target: real)
    requires |xs| == |texts| > 0 && total == Sum(xs) && total > 0.0
    requires forall i :: 0 <= i < |xs| ==> xs[i] >= 0.0
    requires 0.0 <= target < 360000.0
    ensures WithinTarget(Timeline(ScaleAll(xs, Scale(target, total)), texts, 0, 0.0), target)
  {
    ScaleFillsSum(target, total, Sum(xs));
    ScaledTimelineInRange(xs, texts, Scale(target, total), target);
  }

  /** For a target in `[0, 100 h)` every time is a clock time in `[0, target]`. */
  lemma {:induction false} StorySegmentsInRange(sentences: seq<string>, target: real)
    requires |sentences| > 0 && forall i :: 0 <= i < |sentences| ==> sentences[i] != []
    requires 0.0 <= target < 360000.0
    ensures WithinTarget(StorySegments(sentences, target), target)
  {
    TotalIsSum(sentences);
    ScaledToTotalInRange(Estimates(sentences), sentences, Total(sentences), target);
  }

  /**
   * `create_srt_from_story(story_text, target_duration)`: `None` when the
   * story has no sentence, and otherwise the records' lines joined by
   * newlines.
   */
  function CreateSrtFromStory(story: string, target: real): (r: Option<string>)
    ensures r.None? <==> StorySentences(story) == []
  {
    var sentences := StorySentences(story);
    if |sentences| == 0 then None
    else Some(Join(Lines(Records(StorySegments(sentences, target))), "\n"))
  }

  /**
   * For a target under 100 hours, reading the captions of a story back
   * gives its sentences, provided each sentence is a text line of its own:
   * not all digits, not starting like a timing line, without a line break.
   */
  lemma {:induction false} CreateSrtReadBack(story: string, target: real)
    requires 0.0 <= target < 360000.0
    requires StorySentences(story) != []
    requires forall i :: 0 <= i < |StorySentences(story)| ==> ReadableText(StorySentences(story)[i])
    ensures ExtractTextLines(CreateSrtFromStory(story, target).value) == StorySentences(story)
  {
    var sentences := StorySentences(story);
    assert CreateSrtFromStory(story, target).value == Join(Lines(Records(StorySegments(sentences, target))), "\n");
    SentencesReadBack(sentences, target);
  }

  /** The captions written for readable sentences read back as those sentences. */
  lemma {:induction false} SentencesReadBack(sentences: seq<string>, target: real)
    requires 0.0 <= target < 360000.0
    requires |sentences| > 0 && forall i :: 0 <= i < |sentences| ==> ReadableText(sentences[i])
    ensures ExtractTextLines(Join(Lines(Records(StorySegments(sentences, target))), "\n")) == sentences
  {
    var segs := StorySegments(sentences, target);
    assert Texts(segs) == sentences && WithinTarget(segs, target) by {
      StorySegmentsShape(sentences, target);
      StorySegmentsInRange(sentences, target);
    }
    forall i | 0 <= i < |segs|
      ensures InClockRange(segs[i].start) && InClockRange(segs[i].end) && ReadableText(segs[i].text)
    {
      assert segs[i].text == Texts(segs)[i];
    }
    SegmentsReadBack(segs);
  }
}
