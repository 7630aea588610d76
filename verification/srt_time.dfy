/**
 * Seconds as SubRip clock times: the decomposition done by
 * `_seconds_to_srt_time` and by the inline conversions of the SRT writers,
 * the `HH:MM:SS,mmm` rendering, and the timestamp-line pattern that the SRT
 * reader skips. Seconds are exact reals; Python's `//` and `%` on floats
 * round towards minus infinity, which is `.Floor`.
 */
module SrtTime {
  import opened Text

  /** `pysrt.SubRipTime(hours, minutes, seconds, milliseconds)`. */
  datatype Time = Time(hours: int, minutes: int, seconds: int, millis: int)

  /** The time a clock value stands for, in seconds. */
  function ToSeconds(t: Time): real {
    t.hours as real * 3600.0 + t.minutes as real * 60.0 + t.seconds as real + t.millis as real / 1000.0
  }

  /** Python's `x // d` for a positive divisor. */
  function FloorDiv(x: real, d: real): int
    requires d > 0.0
  {
    (x / d).Floor
  }

  /** Python's `x % d` for a positive divisor. */
  function Mod(x: real, d: real): real
    requires d > 0.0
  {
    x - d * FloorDiv(x, d) as real
  }

  lemma {:induction false} FloorIs(x: real, n: int)
    requires n as real <= x < n as real + 1.0
    ensures x.Floor == n
  {
  }

  /**
   * `_seconds_to_srt_time(seconds)`: `int(s // 3600)`, `int((s % 3600) // 60)`,
   * `int(s % 60)` and `int((s % 1) * 1000)`.
   */
  function SecondsToSrtTime(s: real): (t: Time)
    ensures 0 <= t.minutes < 60 && 0 <= t.seconds < 60 && 0 <= t.millis < 1000
    ensures 0.0 <= s ==> 0 <= t.hours
    ensures ToSeconds(t) <= s < ToSeconds(t) + 0.001
  {
    var t := Time(FloorDiv(s, 3600.0), FloorDiv(Mod(s, 3600.0), 60.0), Mod(s, 60.0).Floor, (Mod(s, 1.0) * 1000.0).Floor);
    SecondsToSrtTimeExact(s);
    t
  }

  lemma {:induction false} SecondsToSrtTimeExact(s: real)
    ensures var h := FloorDiv(s, 3600.0);
            var m := FloorDiv(Mod(s, 3600.0), 60.0);
            var sec := Mod(s, 60.0).Floor;
            var ms := (Mod(s, 1.0) * 1000.0).Floor;
            && 0 <= m < 60 && 0 <= sec < 60 && 0 <= ms < 1000
            && (0.0 <= s ==> 0 <= h)
            && ToSeconds(Time(h, m, sec, ms)) <= s < ToSeconds(Time(h, m, sec, ms)) + 0.001
  {
    var h := FloorDiv(s, 3600.0);
    var r1 := Mod(s, 3600.0);
    var m := FloorDiv(r1, 60.0);
    assert 0 <= m < 60;
    var k := FloorDiv(s, 60.0);
    FloorIs(s / 60.0, 60 * h + m);
    assert k == 60 * h + m;
    var r2 := Mod(s, 60.0);
    assert r2 == r1 - 60.0 * m as real;
    var sec := r2.Floor;
    FloorIs(s, 3600 * h + 60 * m + sec);
    var frac := Mod(s, 1.0);
    assert frac == r2 - sec as real;
    var ms := (frac * 1000.0).Floor;
    assert ms as real / 1000.0 <= frac < ms as real / 1000.0 + 0.001;
    if 0.0 <= s {
      assert 0 <= h;
    }
  }

  /** `f"{t.hours:02d}:{t.minutes:02d}:{t.seconds:02d},{t.millis:03d}"`. */
  function Format(t: Time): string {
    FormatInt(t.hours, 2) + ":" + FormatInt(t.minutes, 2) + ":" + FormatInt(t.seconds, 2) + "," + FormatInt(t.millis, 3)
  }

  /** The timing line of one SRT record. */
  function TimestampLine(start: real, end: real): string {
    Format(SecondsToSrtTime(start)) + " --> " + Format(SecondsToSrtTime(end))
  }

  /** `\d{2}:\d{2}:\d{2},\d{3}` at position `p` of `s`. */
  predicate ClockAt(s: string, p: nat) {
    && p + 12 <= |s|
    && IsDigit(s[p]) && IsDigit(s[p + 1]) && s[p + 2] == ':'
    && IsDigit(s[p + 3]) && IsDigit(s[p + 4]) && s[p + 5] == ':'
    && IsDigit(s[p + 6]) && IsDigit(s[p + 7]) && s[p + 8] == ','
    && IsDigit(s[p + 9]) && IsDigit(s[p + 10]) && IsDigit(s[p + 11])
  }

  /** `re.match(r'\d{2}:\d{2}:\d{2},\d{3} --> \d{2}:\d{2}:\d{2},\d{3}', line)` succeeds. */
  predicate StartsWithTimestampRange(line: string) {
    && |line| >= 29
    && ClockAt(line, 0)
    && line[12..17] == " --> "
    && ClockAt(line, 17)
  }

  /** The clock written at position `p`, read back. */
  function ReadClock(s: string, p: nat): Time
    requires ClockAt(s, p)
  {
    Time(DigitsValue(s[p..p + 2]), DigitsValue(s[p + 3..p + 5]), DigitsValue(s[p + 6..p + 8]), DigitsValue(s[p + 9..p + 12]))
  }

  /** A clock time whose fields fit their 2- and 3-digit columns. */
  predicate Writable(t: Time) {
    0 <= t.hours < 100 && 0 <= t.minutes < 100 && 0 <= t.seconds < 100 && 0 <= t.millis < 1000
  }

  /** Seconds whose clock time is `Writable`: from zero up to, not including, 100 hours. */
  predicate InClockRange(s: real) {
    0.0 <= s < 360000.0
  }

  /** Four digit fields joined by `:`, `:` and `,` form a clock that reads back to their values. */
  lemma {:induction false} ClockFields(a: string, b: string, c: string, d: string)
    requires |a| == 2 && |b| == 2 && |c| == 2 && |d| == 3
    requires IsAllDigits(a) && IsAllDigits(b) && IsAllDigits(c) && IsAllDigits(d)
    ensures var f := a + ":" + b + ":" + c + "," + d;
      && |f| == 12 && ClockAt(f, 0)
      && ReadClock(f, 0) == Time(DigitsValue(a), DigitsValue(b), DigitsValue(c), DigitsValue(d))
  {
    var f := a + ":" + b + ":" + c + "," + d;
    assert f[0..2] == a && f[3..5] == b && f[6..8] == c && f[9..12] == d;
    assert f[0] == a[0] && f[1] == a[1] && f[3] == b[0] && f[4] == b[1];
    assert f[6] == c[0] && f[7] == c[1] && f[9] == d[0] && f[10] == d[1] && f[11] == d[2];
  }

  /** A field of a writable clock takes exactly its column width. */
  lemma {:induction false} PadWidth(n: int, width: nat)
    requires width == 2 || width == 3
    requires 0 <= n < Pow10(width)
    ensures |FormatInt(n, width)| == width && IsAllDigits(FormatInt(n, width))
    ensures DigitsValue(FormatInt(n, width)) == n
  {
  }

  /** A writable clock renders as exactly 12 characters that read back to it. */
  lemma {:induction false} FormatReadBack(t: Time)
    requires Writable(t)
    ensures |Format(t)| == 12 && ClockAt(Format(t), 0)
    ensures ReadClock(Format(t), 0) == t
  {
    assert Pow10(2) == 100 && Pow10(3) == 1000;
    PadWidth(t.hours, 2);
    PadWidth(t.minutes, 2);
    PadWidth(t.seconds, 2);
    PadWidth(t.millis, 3);
    ClockFields(FormatInt(t.hours, 2), FormatInt(t.minutes, 2), FormatInt(t.seconds, 2), FormatInt(t.millis, 3));
  }

  /** Seconds in clock range give a writable clock time. */
  lemma {:induction false} InRangeWritable(s: real)
    requires InClockRange(s)
    ensures Writable(SecondsToSrtTime(s))
  {
    var t := SecondsToSrtTime(s);
    assert t.hours as real * 3600.0 <= s;
  }

  /** Two clocks joined by ` --> ` form a timestamp range whose clocks read back. */
  lemma {:induction false} RangeOfClocks(x: string, y: string)
    requires |x| == 12 && |y| == 12 && ClockAt(x, 0) && ClockAt(y, 0)
    ensures var line := x + " --> " + y;
      && |line| == 29
      && StartsWithTimestampRange(line)
      && ReadClock(line, 0) == ReadClock(x, 0)
      && ReadClock(line, 17) == ReadClock(y, 0)
  {
    var line := x + " --> " + y;
    assert forall i :: 0 <= i < 12 ==> line[i] == x[i];
    assert forall i :: 0 <= i < 12 ==> line[17 + i] == y[i];
    assert line[12..17] == " --> ";
    assert line[0..2] == x[0..2] && line[3..5] == x[3..5];
    assert line[6..8] == x[6..8] && line[9..12] == x[9..12];
    assert line[17..19] == y[0..2] && line[20..22] == y[3..5];
    assert line[23..25] == y[6..8] && line[26..29] == y[9..12];
  }

  /**
   * The timing line of two in-range times is 29 characters, is recognised as
   * a timestamp line, and its two clocks read back to the decomposed times.
   */
  lemma {:induction false} TimestampLineRecognised(start: real, end: real)
    requires InClockRange(start) && InClockRange(end)
    ensures |TimestampLine(start, end)| == 29
    ensures StartsWithTimestampRange(TimestampLine(start, end))
    ensures ReadClock(TimestampLine(start, end), 0) == SecondsToSrtTime(start)
    ensures ReadClock(TimestampLine(start, end), 17) == SecondsToSrtTime(end)
  {
    var a, b := SecondsToSrtTime(start), SecondsToSrtTime(end);
    InRangeWritable(start);
    InRangeWritable(end);
    FormatReadBack(a);
    FormatReadBack(b);
    RangeOfClocks(Format(a), Format(b));
  }
}
