/**
 * Re-timing a caption file to its narration (`create_final_video`): the text
 * lines are read out of the existing SubRip file, the narration's duration
 * is cut into as many equal slices as there are lines, and a new file is
 * written with line `i` shown over slice `i`. The duration comes from
 * ffprobe and is a parameter here.
 */
module Resync {
  import opened Wrappers
  import opened Text
  import opened Patterns
  import opened SrtTime
  import opened Segments
  import opened SrtDocument

  /** Why re-timing gives up. */
  datatype SyncFailure =
    | ProbeFailed    // ffprobe could not report the narration's duration
    | NoTextLines    // the caption file has no text line: `audio_duration / 0`

  /** Line `i` of `texts` shown from `i * w` to `(i + 1) * w`, numbered `i + 1`. */
  function Slices(texts: seq<string>, w: real): (r: seq<Segment>)
    ensures |r| == |texts|
    ensures forall i :: 0 <= i < |r| ==> r[i] == Segment(i + 1, Times(i, w), Times(i + 1, w), texts[i])
  {
    seq(|texts|, i requires 0 <= i < |texts| => Segment(i + 1, Times(i, w), Times(i + 1, w), texts[i]))
  }

  /**
   * The segment timing of the re-timing step: the lines in order, numbered
   * from 1, covering `[0, duration]` end to end. With no lines the division
   * by zero aborts the step.
   */
  function Resync(texts: seq<string>, duration: real): (r: Result<seq<Segment>, SyncFailure>)
    ensures r.Failure? <==> |texts| == 0
    ensures r.Failure? ==> r.error == NoTextLines
    ensures r.Success? ==>
      && Texts(r.value) == texts
      && NumberedFromOne(r.value)
      && Partitions(r.value, duration)
  {
    if |texts| == 0 then Failure(NoTextLines)
    else
      var segs := Slices(texts, Slot(duration, |texts|));
      SlotsFill(duration, |texts|);
      Success(segs)
  }

  /** Slice `i` starts at `i * w` and is `w` long. */
  lemma {:induction false} SlicesTiming(texts: seq<string>, w: real)
    ensures EvenlySpaced(Slices(texts, w), w)
  {
    forall i | 0 <= i < |texts|
      ensures Slices(texts, w)[i].start == i as real * w
    {
      TimesIsProduct(i, w);
    }
  }

  /** Slices of a non-negative width that end before 100 hours are clock times. */
  lemma {:induction false} SlicesInRange(texts: seq<string>, w: real)
    requires w >= 0.0 && Times(|texts|, w) < 360000.0
    ensures forall i :: 0 <= i < |texts| ==>
      InClockRange(Slices(texts, w)[i].start) && InClockRange(Slices(texts, w)[i].end)
  {
    var segs := Slices(texts, w);
    forall i | 0 <= i < |texts|
      ensures InClockRange(segs[i].start) && InClockRange(segs[i].end)
    {
      TimesMonotone(i, |texts|, w);
      TimesMonotone(i + 1, |texts|, w);
    }
  }

  lemma {:induction false} ShareNonNegative(x: real, n: nat)
    requires x >= 0.0 && n > 0
    ensures Slot(x, n) >= 0.0
  {
  }

  lemma {:induction false} ResyncIsSlices(texts: seq<string>, duration: real)
    requires |texts| > 0
    ensures Resync(texts, duration) == Success(Slices(texts, Slot(duration, |texts|)))
  {
  }

  /** Every slice is `duration / N` long, and slice `i` starts at `i * duration / N`. */
  lemma {:induction false} ResyncTiming(texts: seq<string>, duration: real)
    requires |texts| > 0
    ensures EvenlySpaced(Resync(texts, duration).value, Slot(duration, |texts|))
  {
    ResyncIsSlices(texts, duration);
    SlicesTiming(texts, Slot(duration, |texts|));
  }

  /** For a duration in `[0, 100 h)` all times of the re-timed segments are clock times. */
  lemma {:induction false} ResyncInRange(texts: seq<string>, duration: real)
    requires |texts| > 0 && 0.0 <= duration < 360000.0
    ensures var segs := Resync(texts, duration).value;
      forall i :: 0 <= i < |segs| ==> InClockRange(segs[i].start) && InClockRange(segs[i].end)
  {
    var w := Slot(duration, |texts|);
    ResyncIsSlices(texts, duration);
    assert w >= 0.0 && Times(|texts|, w) < 360000.0 by {
      SlotsFill(duration, |texts|);
      ShareNonNegative(duration, |texts|);
    }
    SlicesInRange(texts, w);
  }

  /** `f"{i + 1}\n"`, the timing line and `"\n"`, then `f"{text}\n\n"`. */
  function RecordText(rec: Record): string {
    Decimal(rec.number) + "\n" + rec.timing + "\n" + rec.text + "\n\n"
  }

  /** The file the loop writes, record after record. */
  function Written(recs: seq<Record>): string {
    if |recs| == 0 then [] else RecordText(recs[0]) + Written(recs[1..])
  }

  lemma {:induction false} RecordTextLines(rec: Record)
    ensures RecordText(rec) == Join(RecordLines(rec), "\n") + "\n"
  {
    var ls := RecordLines(rec);
    assert ls[1..][1..][1..] == [""];
    assert Join(ls[1..][1..], "\n") == rec.text + "\n" + "";
    assert Join(ls[1..], "\n") == rec.timing + "\n" + (rec.text + "\n" + "");
  }

  /**
   * The written file is the records' lines joined by newlines plus one more
   * newline: every record, the last one included, ends with a blank line.
   */
  lemma {:induction false} WrittenLines(recs: seq<Record>)
    requires |recs| > 0
    ensures Written(recs) == Join(Lines(recs), "\n") + "\n"
    decreases |recs|
  {
    RecordTextLines(recs[0]);
    if |recs| == 1 {
      assert Lines(recs) == RecordLines(recs[0]) + Lines([]);
      assert Lines(recs) == RecordLines(recs[0]);
    } else {
      WrittenLines(recs[1..]);
      JoinAppend(RecordLines(recs[0]), Lines(recs[1..]), "\n");
    }
  }

  /**
   * The re-timing step over the caption file's content: the file written
   * with the new timing, or why there is none.
   */
  function SyncedSrt(content: string, duration: real): (r: Result<string, SyncFailure>)
    ensures r.Failure? <==> ExtractTextLines(content) == []
  {
    match Resync(ExtractTextLines(content), duration)
    case Failure(e) => Failure(e)
    case Success(segs) => Success(Written(Records(segs)))
  }

  /** Readable records, written by the loop, are read back as their texts. */
  lemma {:induction false} WrittenRecordsReadBack(recs: seq<Record>)
    requires |recs| > 0 && forall i :: 0 <= i < |recs| ==> Readable(recs[i])
    ensures ExtractTextLines(Written(recs)) == RecordTexts(recs)
  {
    assert Written(recs) == Join(Lines(recs), "\n") + "\n" by {
      WrittenLines(recs);
    }
    assert IsBlank("\n");
    ReadBack(recs, "\n");
  }

  /**
   * Segments with readable texts and clock times, written by the loop, are
   * read back as their texts.
   */
  lemma {:induction false} WrittenReadBack(segs: seq<Segment>)
    requires |segs| > 0
    requires forall i :: 0 <= i < |segs| ==>
      InClockRange(segs[i].start) && InClockRange(segs[i].end) && ReadableText(segs[i].text)
    ensures ExtractTextLines(Written(Records(segs))) == Texts(segs)
  {
    ReadableRecords(segs);
    WrittenRecordsReadBack(Records(segs));
  }

  /**
   * For a narration of under 100 hours, the re-timed file carries exactly
   * the text lines of the original, in order.
   */
  lemma {:induction false} SyncedSrtReadBack(content: string, duration: real)
    requires 0.0 <= duration < 360000.0
    requires ExtractTextLines(content) != []
    ensures ExtractTextLines(SyncedSrt(content, duration).value) == ExtractTextLines(content)
  {
    var texts := ExtractTextLines(content);
    var segs := Resync(texts, duration).value;
    ResyncInRange(texts, duration);
    assert forall i :: 0 <= i < |segs| ==> segs[i].text == texts[i];
    WrittenReadBack(segs);
  }

  /** Re-timing a re-timed file to the same duration changes nothing. */
  lemma {:induction false} SyncedSrtIdempotent(content: string, duration: real)
    requires 0.0 <= duration < 360000.0
    requires ExtractTextLines(content) != []
    ensures SyncedSrt(SyncedSrt(content, duration).value, duration) == SyncedSrt(content, duration)
  {
    SyncedSrtReadBack(content, duration);
  }

  /** The narration read from the re-timed file is the original narration. */
  lemma {:induction false} SyncedNarration(content: string, duration: real)
    requires 0.0 <= duration < 360000.0
    requires ExtractTextLines(content) != []
    ensures NarrationText(SyncedSrt(content, duration).value) == NarrationText(content)
  {
    SyncedSrtReadBack(content, duration);
  }

  /** Four lines over 40 seconds get ten seconds each, end to end. */
  lemma {:induction false} FourLinesOverFortySeconds(a: string, b: string, c: string, d: string)
    ensures Resync([a, b, c, d], 40.0)
      == Success([Segment(1, 0.0, 10.0, a), Segment(2, 10.0, 20.0, b), Segment(3, 20.0, 30.0, c), Segment(4, 30.0, 40.0, d)])
  {
    var texts := [a, b, c, d];
    ResyncIsSlices(texts, 40.0);
    assert Slot(40.0, 4) == 10.0;
    var segs := Slices(texts, 10.0);
    TimesIsProduct(2, 10.0);
    TimesIsProduct(3, 10.0);
    TimesIsProduct(4, 10.0);
    assert segs[0] == Segment(1, 0.0, 10.0, a);
    assert segs[1] == Segment(2, 10.0, 20.0, b);
    assert segs[2] == Segment(3, 20.0, 30.0, c);
    assert segs[3] == Segment(4, 30.0, 40.0, d);
    assert segs == [Segment(1, 0.0, 10.0, a), Segment(2, 10.0, 20.0, b), Segment(3, 20.0, 30.0, c), Segment(4, 30.0, 40.0, d)];
  }

  /** `path.replace('\\', '/')`: every backslash becomes a slash, and nothing else changes. */
  function Slashes(path: string): (r: string)
    ensures '\\' !in r
    ensures |r| == |path|
    ensures forall i :: 0 <= i < |r| ==> r[i] == (if path[i] == '\\' then '/' else path[i])
  {
    SubAvoids({'\\'}, path, "/");
    SubEachChar({'\\'}, path, "/");
    Sub(AnyOf({'\\'}), path, "/")
  }

  /**
   * The subtitle file the video is rendered with, as written: the `except`
   * branch picks the original file, but the next statement overrides it
   * with the re-timed file's name. That name is unbound when the duration
   * probe failed (the step aborts, `None` here), and names a file that was
   * never written when the caption file had no text lines.
   */
  function SubtitlePathAsWritten(original: string, synced: string, outcome: Result<string, SyncFailure>): (r: Option<string>)
    ensures outcome.Success? ==> r == Some(Slashes(synced))
    ensures outcome == Failure(ProbeFailed) ==> r == None
    ensures outcome == Failure(NoTextLines) ==> r == Some(Slashes(synced))
  {
    match outcome
    case Success(_) => Some(Slashes(synced))
    case Failure(ProbeFailed) => None
    case Failure(NoTextLines) => Some(Slashes(synced))
  }

  /**
   * An empty caption file cannot be re-timed, and the video is then
   * rendered with the re-timed file's name although nothing was written
   * under it; the original file is not used.
   */
  lemma {:induction false} EmptyFileUsesUnwrittenFile(original: string, synced: string, duration: real)
    ensures SyncedSrt("", duration) == Failure(NoTextLines)
    ensures SubtitlePathAsWritten(original, synced, SyncedSrt("", duration)) == Some(Slashes(synced))
  {
    assert Strip("") == [];
    assert Split(AnyOf({'\n'}), "") == [[]];
    assert KeepText([[]]) == [];
  }

  /**
   * The subtitle file as the `except` branch intends: the original file when
   * re-timing failed; when it succeeded, the same choice as the code as
   * written.
   */
  function SubtitlePath(original: string, synced: string, outcome: Result<string, SyncFailure>): (r: string)
    ensures '\\' !in r
    ensures outcome.Failure? ==> r == Slashes(original)
    ensures outcome.Success? ==> Some(r) == SubtitlePathAsWritten(original, synced, outcome)
  {
    if outcome.Success? then Slashes(synced) else Slashes(original)
  }
}
