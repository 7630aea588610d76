/**
 * A caption set: ordered caption segments with 1-based numbers and start and
 * end offsets in seconds, and the shape invariants the three timing schemes keep.
 */
module Segments {

  /** One timed caption: `index`, `start`, `end` and `text` of an SRT record. */
  datatype Segment = Segment(index: nat, start: real, end: real, text: string)

  /** Records are numbered 1, 2, ... in order. */
  predicate NumberedFromOne(segs: seq<Segment>) {
    forall i :: 0 <= i < |segs| ==> segs[i].index == i + 1
  }

  /** Each segment starts exactly where the previous one ended. */
  predicate Contiguous(segs: seq<Segment>) {
    forall i :: 0 < i < |segs| ==> segs[i].start == segs[i - 1].end
  }

  /** The segments cover `[0, total]` without gaps or overlaps. */
  predicate Partitions(segs: seq<Segment>, total: real) {
    && |segs| > 0
    && segs[0].start == 0.0
    && Contiguous(segs)
    && segs[|segs| - 1].end == total
  }

  /** Consecutive segments are separated by exactly `gap` seconds. */
  predicate SeparatedBy(segs: seq<Segment>, gap: real) {
    forall i :: 0 < i < |segs| ==> segs[i].start - segs[i - 1].end == gap
  }

  /** Segment `i` starts at `i * width` and lasts `width`. */
  predicate EvenlySpaced(segs: seq<Segment>, width: real) {
    forall i :: 0 <= i < |segs| ==> segs[i].start == i as real * width && segs[i].end - segs[i].start == width
  }

  /** In contiguous segments of non-negative length, later segments start and end later. */
  lemma {:induction false} ContiguousOrder(segs: seq<Segment>, i: nat, j: nat)
    requires Contiguous(segs) && i <= j < |segs|
    requires forall k :: 0 <= k < |segs| ==> segs[k].start <= segs[k].end
    ensures segs[i].start <= segs[j].start && segs[i].end <= segs[j].end
    decreases j - i
  {
    if i < j {
      ContiguousOrder(segs, i + 1, j);
    }
  }

  /**
   * Contiguous segments of non-negative length lie between the first start
   * and the last end.
   */
  lemma {:induction false} ContiguousBounds(segs: seq<Segment>)
    requires |segs| > 0 && Contiguous(segs)
    requires forall k :: 0 <= k < |segs| ==> segs[k].start <= segs[k].end
    ensures forall i :: 0 <= i < |segs| ==> segs[0].start <= segs[i].start <= segs[i].end <= segs[|segs| - 1].end
  {
    forall i | 0 <= i < |segs|
      ensures segs[0].start <= segs[i].start <= segs[i].end <= segs[|segs| - 1].end
    {
      ContiguousOrder(segs, 0, i);
      ContiguousOrder(segs, i, |segs| - 1);
    }
  }

  /**
   * `n * x`. Written as repeated addition, which it equals, so that the
   * solver reasons about positions in a caption set without real products.
   */
  function Times(n: nat, x: real): real
  {
    if n == 0 then 0.0 else Times(n - 1, x) + x
  }

  lemma {:induction false} TimesIsProduct(n: nat, x: real)
    ensures Times(n, x) == n as real * x
  {
    if n > 0 {
      TimesIsProduct(n - 1, x);
    }
  }

  /** The length of one of `n` equal slots of `duration`, or all of it when `n` is 0. */
  function Slot(duration: real, n: nat): real {
    if n > 0 then duration / n as real else duration
  }

  /** `n` slots of `duration / n` fill the duration. */
  lemma {:induction false} SlotsFill(duration: real, n: nat)
    requires n > 0
    ensures Times(n, Slot(duration, n)) == duration
  {
    TimesIsProduct(n, Slot(duration, n));
  }

  /** With a non-negative step, positions grow with their number. */
  lemma {:induction false} TimesMonotone(i: nat, n: nat, x: real)
    requires i <= n && x >= 0.0
    ensures 0.0 <= Times(i, x) <= Times(n, x)
    decreases n
  {
    if i < n {
      TimesMonotone(i, n - 1, x);
    } else if n > 0 {
      TimesMonotone(n - 1, n - 1, x);
    }
  }

  /** The texts, in order. */
  function Texts(segs: seq<Segment>): (r: seq<string>)
    ensures |r| == |segs| && forall i :: 0 <= i < |segs| ==> r[i] == segs[i].text
  {
    seq(|segs|, i requires 0 <= i < |segs| => segs[i].text)
  }
}
