/**
 * The caption generator (`GreekCaptionGenerator`): the even-split timing of
 * `create_captions`, which gives every unit the same slot and shortens it by
 * a fixed gap, and the numbering of `create_manual_captions`. pysrt's
 * `SubRipFile` is modelled as the list of its items.
 */
module Captions {
  import opened Text
  import opened Segmentation
  import opened SrtTime
  import opened Segments

  /** Seconds of blank screen between consecutive captions. */
  const Gap: real := 0.5

  /** `pysrt.SubRipItem(index, start, end, text)`. */
  datatype Item = Item(index: nat, start: Time, end: Time, text: string)

  /** The caption at position `pos`: `[pos * slot, pos * slot + slot - Gap]`, numbered `pos + 1`. */
  function Placed(pos: nat, slot: real, text: string): Segment {
    var start := Times(pos, slot);
    Segment(pos + 1, start, start + (slot - Gap), text)
  }

  /** Consecutive placed captions are exactly `Gap` apart. */
  lemma {:induction false} PlacedGap(pos: nat, slot: real, a: string, b: string)
    ensures Placed(pos + 1, slot, b).start - Placed(pos, slot, a).end == Gap
  {
  }

  /**
   * The loop of `create_captions` from position `first` on, before the texts
   * are stripped; an empty unit is skipped (`if sentence:`) but still uses up
   * its position.
   */
  function EvenLayout(units: seq<string>, first: nat, slot: real): (r: seq<Segment>)
    ensures |r| <= |units|
    decreases |units|
  {
    if |units| == 0 then []
    else
      var rest := EvenLayout(units[1..], first + 1, slot);
      if units[0] == [] then rest else [Placed(first, slot, units[0])] + rest
  }

  lemma {:induction false} EvenLayoutShape(units: seq<string>, first: nat, slot: real)
    requires forall i :: 0 <= i < |units| ==> units[i] != []
    ensures |EvenLayout(units, first, slot)| == |units|
    ensures forall i :: 0 <= i < |units| ==> EvenLayout(units, first, slot)[i] == Placed(first + i, slot, units[i])
    decreases |units|
  {
    if |units| > 0 {
      EvenLayoutShape(units[1..], first + 1, slot);
      var r := EvenLayout(units, first, slot);
      forall i | 0 < i < |units|
        ensures r[i] == Placed(first + i, slot, units[i])
      {
        assert r[i] == EvenLayout(units[1..], first + 1, slot)[i - 1];
        assert units[1..][i - 1] == units[i];
      }
    }
  }

  /** Every caption with its text stripped (`text=sentence.strip()`). */
  function StripTexts(segs: seq<Segment>): (r: seq<Segment>)
    ensures |r| == |segs|
    ensures forall i :: 0 <= i < |r| ==> r[i] == segs[i].(text := Strip(segs[i].text))
  {
    seq(|segs|, i requires 0 <= i < |segs| => segs[i].(text := Strip(segs[i].text)))
  }

  /**
   * The caption set `create_captions` builds from the units: at most one
   * caption per unit, since an empty unit is skipped.
   */
  function EvenSegments(units: seq<string>, duration: real): (r: seq<Segment>)
    ensures |r| <= |units|
  {
    StripTexts(EvenLayout(units, 0, Slot(duration, |units|)))
  }

  /** Captions placed at positions 0, 1, ... with one slot each. */
  predicate PlacedInOrder(r: seq<Segment>, slot: real) {
    forall i :: 0 <= i < |r| ==> r[i] == Placed(i, slot, r[i].text)
  }

  /**
   * Captions placed in order are numbered 1..N, caption `i` starts at
   * `i * slot` and lasts `slot - Gap`, consecutive captions are exactly `Gap`
   * apart, and a caption has positive length exactly when `slot > Gap`.
   */
  lemma {:induction false} PlacedTiming(r: seq<Segment>, slot: real)
    requires PlacedInOrder(r, slot)
    ensures NumberedFromOne(r)
    ensures SeparatedBy(r, Gap)
    ensures forall i :: 0 <= i < |r| ==> r[i].start == i as real * slot
    ensures forall i :: 0 <= i < |r| ==> r[i].end - r[i].start == slot - Gap
    ensures forall i :: 0 <= i < |r| ==> (r[i].end > r[i].start <==> slot > Gap)
  {
    forall i | 0 <= i < |r|
      ensures r[i].start == i as real * slot
    {
      TimesIsProduct(i, slot);
    }
    forall i | 0 < i < |r|
      ensures r[i].start - r[i - 1].end == Gap
    {
      PlacedGap(i - 1, slot, r[i - 1].text, r[i].text);
    }
  }

  /** The last of `N` captions placed in order ends `Gap` before `N` slots. */
  lemma {:induction false} PlacedLastEnd(r: seq<Segment>, slot: real)
    requires |r| > 0 && PlacedInOrder(r, slot)
    ensures r[|r| - 1].end == Times(|r|, slot) - Gap
  {
    assert r[|r| - 1] == Placed(|r| - 1, slot, r[|r| - 1].text);
  }

  /** Replacing a placed caption's text keeps its place. */
  lemma {:induction false} PlacedText(pos: nat, slot: real, a: string, b: string)
    ensures Placed(pos, slot, a).(text := b) == Placed(pos, slot, b)
  {
  }

  /** Captions placed in order with the units' texts, once stripped, are placed in order with the stripped texts. */
  lemma {:induction false} StripPlaced(layout: seq<Segment>, units: seq<string>, slot: real)
    requires |layout| == |units|
    requires forall i :: 0 <= i < |units| ==> layout[i] == Placed(0 + i, slot, units[i])
    ensures PlacedInOrder(StripTexts(layout), slot)
    ensures forall i :: 0 <= i < |units| ==> StripTexts(layout)[i].text == Strip(units[i])
  {
    var r := StripTexts(layout);
    forall i | 0 <= i < |units|
      ensures r[i] == Placed(i, slot, Strip(units[i])) && r[i].text == Strip(units[i])
    {
      assert layout[i] == Placed(0 + i, slot, units[i]);
      PlacedText(i, slot, units[i], Strip(units[i]));
    }
  }

  /**
   * The timing of `create_captions` for non-empty units: caption `i` is unit
   * `i` stripped, placed at position `i` with slot `D/N` (see `PlacedTiming`).
   */
  lemma {:induction false} EvenSegmentsPlaced(units: seq<string>, duration: real)
    requires forall i :: 0 <= i < |units| ==> units[i] != []
    ensures |EvenSegments(units, duration)| == |units|
    ensures PlacedInOrder(EvenSegments(units, duration), Slot(duration, |units|))
    ensures forall i :: 0 <= i < |units| ==> EvenSegments(units, duration)[i].text == Strip(units[i])
  {
    var slot := Slot(duration, |units|);
    EvenLayoutShape(units, 0, slot);
    StripPlaced(EvenLayout(units, 0, slot), units, slot);
  }

  /** With N > 0 units the last caption ends `Gap` before the duration. */
  lemma {:induction false} EvenSegmentsEnd(units: seq<string>, duration: real)
    requires |units| > 0 && forall i :: 0 <= i < |units| ==> units[i] != []
    ensures |EvenSegments(units, duration)| == |units|
    ensures EvenSegments(units, duration)[|units| - 1].end == duration - Gap
  {
    var n := |units|;
    var slot := Slot(duration, n);
    EvenSegmentsPlaced(units, duration);
    SlotsFill(duration, n);
    PlacedLastEnd(EvenSegments(units, duration), slot);
  }

  /** The items of a caption set, with times converted by `_seconds_to_srt_time`. */
  function ToItems(segs: seq<Segment>): (r: seq<Item>)
    ensures |r| == |segs|
    ensures forall i :: 0 <= i < |r| ==> r[i].index == segs[i].index && r[i].text == segs[i].text
    ensures forall i :: 0 <= i < |r| ==> ToSeconds(r[i].start) <= segs[i].start < ToSeconds(r[i].start) + 0.001
    ensures forall i :: 0 <= i < |r| ==> ToSeconds(r[i].end) <= segs[i].end < ToSeconds(r[i].end) + 0.001
  {
    seq(|segs|, i requires 0 <= i < |segs| => Item(segs[i].index, SecondsToSrtTime(segs[i].start), SecondsToSrtTime(segs[i].end), segs[i].text))
  }

  /**
   * Items numbered 1..N in order, item `i` starting within a millisecond
   * below `i * slot` and ending within a millisecond below
   * `i * slot + slot - Gap`.
   */
  predicate TimedInOrder(items: seq<Item>, slot: real) {
    forall i :: 0 <= i < |items| ==>
      && items[i].index == i + 1
      && ToSeconds(items[i].start) <= i as real * slot < ToSeconds(items[i].start) + 0.001
      && ToSeconds(items[i].end) <= i as real * slot + slot - Gap < ToSeconds(items[i].end) + 0.001
  }

  lemma {:induction false} ItemsTiming(segs: seq<Segment>, slot: real)
    requires PlacedInOrder(segs, slot)
    ensures TimedInOrder(ToItems(segs), slot)
  {
    PlacedTiming(segs, slot);
  }

  /**
   * `create_captions(text, duration)` without the file write: one item per
   * unit of `SplitIntoSentences(text)`, with the unit's text, numbered from 1
   * in order and timed by slots of `D/N` seconds.
   */
  function CreateCaptions(text: string, duration: real): (r: seq<Item>)
    ensures |r| == |SplitIntoSentences(text)|
    ensures forall i :: 0 <= i < |r| ==> r[i].text == SplitIntoSentences(text)[i]
    ensures TimedInOrder(r, Slot(duration, |r|))
  {
    var units := SplitIntoSentences(text);
    var segs := EvenSegments(units, duration);
    EvenSegmentsPlaced(units, duration);
    ItemsTiming(segs, Slot(duration, |units|));
    ToItems(segs)
  }

  /**
   * `create_manual_captions(caption_data)` without the file write: the
   * `(start, end, text)` tuples numbered from 1 in order, text stripped, each
   * time truncated to the millisecond below it.
   */
  function ManualCaptions(data: seq<(real, real, string)>): (r: seq<Item>)
    ensures |r| == |data|
    ensures forall i :: 0 <= i < |r| ==> r[i].index == i + 1 && r[i].text == Strip(data[i].2) && IsTrimmed(r[i].text)
    ensures forall i :: 0 <= i < |r| ==> ToSeconds(r[i].start) <= data[i].0 < ToSeconds(r[i].start) + 0.001
    ensures forall i :: 0 <= i < |r| ==> ToSeconds(r[i].end) <= data[i].1 < ToSeconds(r[i].end) + 0.001
  {
    seq(|data|, i requires 0 <= i < |data| => Item(i + 1, SecondsToSrtTime(data[i].0), SecondsToSrtTime(data[i].1), Strip(data[i].2)))
  }

  /** "Μια. Δύο. Τρία." has three units, stripped of the spaces after the full stops. */
  lemma ThreeUnits()
    ensures SplitIntoSentences("Μια. Δύο. Τρία.") == ["Μια", "Δύο", "Τρία"]
  {
    var ws := ["Μια", "Δύο", "Τρία"];
    assert Join(ws, ". ") == "Μια. Δύο. Τρία" by {
      assert ws[1..][1..] == ["Τρία"];
    }
    assert "" + Join(ws, ". ") + "." == "Μια. Δύο. Τρία.";
    ShortSentencesRoundTrip("", ws);
  }

  /** The caption at a position, with its start written as a product. */
  lemma {:induction false} PlacedAt(pos: nat, slot: real, text: string)
    ensures Placed(pos, slot, text) == Segment(pos + 1, pos as real * slot, pos as real * slot + slot - Gap, text)
  {
    TimesIsProduct(pos, slot);
  }

  /** Caption `i` of the even split of non-empty units is unit `i` placed at `i`, when that unit is trimmed. */
  lemma {:induction false} EvenSegmentAt(units: seq<string>, duration: real, i: nat)
    requires forall j :: 0 <= j < |units| ==> units[j] != []
    requires i < |units| && IsTrimmed(units[i])
    ensures |EvenSegments(units, duration)| == |units|
    ensures EvenSegments(units, duration)[i] == Placed(i, Slot(duration, |units|), units[i])
  {
    var r := EvenSegments(units, duration);
    EvenSegmentsPlaced(units, duration);
    assert r[i] == Placed(i, Slot(duration, |units|), r[i].text);
  }

  /** The three units are non-empty and trimmed. */
  lemma ThreeUnitsTrimmed()
    ensures forall j :: 0 <= j < 3 ==> ["Μια", "Δύο", "Τρία"][j] != [] && IsTrimmed(["Μια", "Δύο", "Τρία"][j])
  {
  }

  /** The even split of the three units over nine seconds. */
  lemma ThreeUnitsOverNineSeconds()
    ensures EvenSegments(["Μια", "Δύο", "Τρία"], 9.0)
      == [Segment(1, 0.0, 2.5, "Μια"), Segment(2, 3.0, 5.5, "Δύο"), Segment(3, 6.0, 8.5, "Τρία")]
  {
    var units := ["Μια", "Δύο", "Τρία"];
    var r := EvenSegments(units, 9.0);
    assert Slot(9.0, 3) == 3.0;
    ThreeUnitsTrimmed();
    EvenSegmentAt(units, 9.0, 0);
    EvenSegmentAt(units, 9.0, 1);
    EvenSegmentAt(units, 9.0, 2);
    assert r[0] == Segment(1, 0.0, 2.5, "Μια") by {
      PlacedAt(0, 3.0, units[0]);
    }
    assert r[1] == Segment(2, 3.0, 5.5, "Δύο") by {
      PlacedAt(1, 3.0, units[1]);
    }
    assert r[2] == Segment(3, 6.0, 8.5, "Τρία") by {
      PlacedAt(2, 3.0, units[2]);
    }
    ThreeElements(r, Segment(1, 0.0, 2.5, "Μια"), Segment(2, 3.0, 5.5, "Δύο"), Segment(3, 6.0, 8.5, "Τρία"));
  }

  /** A sequence of length three is the display of its elements. */
  lemma ThreeElements<T>(r: seq<T>, a: T, b: T, c: T)
    requires |r| == 3 && r[0] == a && r[1] == b && r[2] == c
    ensures r == [a, b, c]
  {
  }

  /** Three short sentences over nine seconds: `[0, 2.5]`, `[3, 5.5]`, `[6, 8.5]`. */
  lemma ThreeSentencesOverNineSeconds()
    ensures var r := EvenSegments(SplitIntoSentences("Μια. Δύο. Τρία."), 9.0);
      && |r| == 3
      && r[0] == Segment(1, 0.0, 2.5, "Μια")
      && r[1] == Segment(2, 3.0, 5.5, "Δύο")
      && r[2] == Segment(3, 6.0, 8.5, "Τρία")
  {
    ThreeUnits();
    ThreeUnitsOverNineSeconds();
  }
}
