/**
 * The decisions the video step takes before it hands a command to ffmpeg:
 * how the caption file's path is escaped inside the subtitles filter, the
 * filter text itself, which font file is used, how often a short background
 * is looped, and whether it is looped at all. The ffmpeg and ffprobe runs are
 * not modelled: the durations they report and the set of files that exist
 * are parameters.
 */
module Video {
  import opened Wrappers
  import opened Text
  import opened Patterns

  /** The caption settings of the configuration (`CAPTION_FONT_SIZE`, `CAPTION_OUTLINE_WIDTH`). */
  const FontSize: nat := 20
  const OutlineWidth: nat := 2
  /** The configured font directory (`FONTS_DIR`). */
  const FontsDir: string := "fonts"

  // ---------------------------------------------------------------------
  // Escaping the caption path
  // ---------------------------------------------------------------------

  /** The escape of one character: a backslash is doubled and a colon gets a backslash in front. */
  function EscapeChar(c: char): (r: string)
    ensures |r| == (if c == '\\' || c == ':' then 2 else 1)
    ensures r[|r| - 1] == c
    ensures |r| == 2 ==> r[0] == '\\'
  {
    if c == '\\' then "\\\\" else if c == ':' then "\\:" else [c]
  }

  /** Character-by-character escape: the reference the two replacements are held against. */
  function Escaped(path: string): (r: string)
    decreases |path|
  {
    if |path| == 0 then [] else EscapeChar(path[0]) + Escaped(path[1..])
  }

  /**
   * The escape as `_build_subtitle_filter` writes it: first every backslash
   * is replaced by two, then every colon by a backslash and the colon.
   */
  function Escape(path: string): string {
    Sub(AnyOf({':'}), Sub(AnyOf({'\\'}), path, "\\\\"), "\\:")
  }

  /** Undoing the escape: a backslash takes the next character literally. */
  function Unescape(e: string): (r: string)
    ensures |r| <= |e|
    decreases |e|
  {
    if |e| == 0 then []
    else if e[0] == '\\' && |e| >= 2 then [e[1]] + Unescape(e[2..])
    else [e[0]] + Unescape(e[1..])
  }

  /** Replacing single characters: the first character's replacement, then the rest's. */
  lemma {:induction false} SubAnyOfCons(cs: set<char>, c: char, rest: string, rep: string)
    ensures Sub(AnyOf(cs), [c] + rest, rep) == (if c in cs then rep else [c]) + Sub(AnyOf(cs), rest, rep)
  {
    assert ([c] + rest)[0] == c && ([c] + rest)[1..] == rest;
  }

  /** Replacing single characters works piece by piece. */
  lemma {:induction false} SubAnyOfAppend(cs: set<char>, a: string, b: string, rep: string)
    ensures Sub(AnyOf(cs), a + b, rep) == Sub(AnyOf(cs), a, rep) + Sub(AnyOf(cs), b, rep)
    decreases |a|
  {
    if |a| == 0 {
      assert a + b == b;
    } else {
      var c, t := a[0], a[1..];
      assert a == [c] + t && a + b == [c] + (t + b);
      SubAnyOfAppend(cs, t, b, rep);
      SubAnyOfCons(cs, c, t, rep);
      SubAnyOfCons(cs, c, t + b, rep);
      ConcatAssoc(if c in cs then rep else [c], Sub(AnyOf(cs), t, rep), Sub(AnyOf(cs), b, rep));
    }
  }

  /** The colon pass leaves the text the backslash pass put in for one character as `EscapeChar` says. */
  lemma {:induction false} ColonPass(c: char)
    ensures Sub(AnyOf({':'}), Sub(AnyOf({'\\'}), [c], "\\\\"), "\\:") == EscapeChar(c)
  {
    assert [c][1..] == [];
    if c == '\\' {
      var d := "\\\\";
      assert Sub(AnyOf({'\\'}), [c], "\\\\") == d;
      assert d[1..] == "\\" && d[1..][1..] == [];
    } else {
      assert Sub(AnyOf({'\\'}), [c], "\\\\") == [c];
    }
  }

  /** The two whole-text replacements escape each character on its own. */
  lemma {:induction false} EscapeIsEscaped(path: string)
    ensures Escape(path) == Escaped(path)
    decreases |path|
  {
    if |path| > 0 {
      var bs, colon := AnyOf({'\\'}), AnyOf({':'});
      assert path == [path[0]] + path[1..];
      SubAnyOfAppend({'\\'}, [path[0]], path[1..], "\\\\");
      SubAnyOfAppend({':'}, Sub(bs, [path[0]], "\\\\"), Sub(bs, path[1..], "\\\\"), "\\:");
      ColonPass(path[0]);
      EscapeIsEscaped(path[1..]);
    }
  }

  /** The escaped path is one character longer for every backslash and every colon. */
  lemma {:induction false} EscapedLength(path: string)
    ensures |Escaped(path)| == |path| + Count(path, '\\') + Count(path, ':')
    decreases |path|
  {
    if |path| > 0 {
      EscapedLength(path[1..]);
    }
  }

  /** Unescaping one escaped character in front of the rest gives that character back. */
  lemma {:induction false} UnescapeChar(c: char, rest: string)
    ensures Unescape(EscapeChar(c) + rest) == [c] + Unescape(rest)
  {
    var e := EscapeChar(c);
    if |e| == 2 {
      assert (e + rest)[0] == '\\' && (e + rest)[1] == c && (e + rest)[2..] == rest;
    } else {
      assert (e + rest)[0] == c && (e + rest)[1..] == rest;
    }
  }

  /** Unescaping what was escaped gives the path back. */
  lemma {:induction false} UnescapeEscaped(path: string)
    ensures Unescape(Escaped(path)) == path
    decreases |path|
  {
    if |path| > 0 {
      UnescapeEscaped(path[1..]);
      UnescapeChar(path[0], Escaped(path[1..]));
      assert path == [path[0]] + path[1..];
    }
  }

  /**
   * The escape of `_build_subtitle_filter`: its length grows by the number
   * of backslashes and colons, and unescaping gives the path back.
   */
  lemma {:induction false} EscapeRoundTrip(path: string)
    ensures |Escape(path)| == |path| + Count(path, '\\') + Count(path, ':')
    ensures Unescape(Escape(path)) == path
  {
    EscapeIsEscaped(path);
    EscapedLength(path);
    UnescapeEscaped(path);
  }

  /** Two different paths never escape to the same text. */
  lemma {:induction false} EscapeInjective(a: string, b: string)
    requires Escape(a) == Escape(b)
    ensures a == b
  {
    EscapeRoundTrip(a);
    EscapeRoundTrip(b);
  }

  // ---------------------------------------------------------------------
  // The subtitles filter
  // ---------------------------------------------------------------------

  /** `font_path and os.path.exists(font_path)`: a non-empty path to a file that exists. */
  predicate FontUsable(font: Option<string>, existing: set<string>) {
    font.Some? && font.value != "" && font.value in existing
  }

  /** The fixed style appended when a font is usable; the font's own path is not part of it. */
  const ForceStyle: string :=
    ":force_style='FontName=DejaVu Sans,FontSize=" + Decimal(FontSize)
    + ",PrimaryColour=&H00FFFFFF,OutlineColour=&H00000000,Outline=" + Decimal(OutlineWidth) + "'"

  const FilterHead: string := "subtitles='"

  /** `_build_subtitle_filter` with the configuration in scope. */
  function SubtitleFilter(caption: string, font: Option<string>, existing: set<string>): (r: string)
    ensures |FilterHead| + |Escape(caption)| < |r|
    ensures r[..|FilterHead|] == FilterHead
    ensures r[|FilterHead|..|FilterHead| + |Escape(caption)|] == Escape(caption)
    ensures r[|FilterHead| + |Escape(caption)|] == '\''
    ensures |r| == |FilterHead| + |Escape(caption)| + 1 + (if FontUsable(font, existing) then |ForceStyle| else 0)
    ensures FontUsable(font, existing) ==> r[|r| - |ForceStyle|..] == ForceStyle
  {
    var plain := FilterHead + Escape(caption) + "'";
    assert plain[..|FilterHead|] == FilterHead;
    assert plain[|FilterHead|..|FilterHead| + |Escape(caption)|] == Escape(caption);
    if FontUsable(font, existing) then
      var r := plain + ForceStyle;
      assert r[..|plain|] == plain && r[|plain|..] == ForceStyle;
      r
    else plain
  }

  /** The caption path can be read back out of the filter: it sits, escaped, after the head. */
  lemma {:induction false} FilterCaption(caption: string, font: Option<string>, existing: set<string>)
    ensures var r := SubtitleFilter(caption, font, existing);
      Unescape(r[|FilterHead|..|FilterHead| + |Escape(caption)|]) == caption
  {
    EscapeRoundTrip(caption);
  }

  /** Which usable font is given does not change the filter: only whether one is usable does. */
  lemma {:induction false} FilterIgnoresFontPath(caption: string, f: Option<string>, g: Option<string>, existing: set<string>)
    requires FontUsable(f, existing) == FontUsable(g, existing)
    ensures SubtitleFilter(caption, f, existing) == SubtitleFilter(caption, g, existing)
  {
  }

  /** Why the module as written cannot build the filter or the font list. */
  datatype Fault = ConfigUndefined   // `Config` is used but never imported

  /**
   * `_build_subtitle_filter` as written: the module does not import
   * `Config`, so the style line fails on the undefined name whenever a font
   * is usable; otherwise it returns the plain filter.
   */
  function SubtitleFilterAsWritten(caption: string, font: Option<string>, existing: set<string>): (r: Result<string, Fault>)
    ensures r.Failure? <==> FontUsable(font, existing)
    ensures r.Success? ==> r.value == SubtitleFilter(caption, font, existing)
  {
    if FontUsable(font, existing) then Failure(ConfigUndefined)
    else Success(FilterHead + Escape(caption) + "'")
  }

  // ---------------------------------------------------------------------
  // Choosing the font
  // ---------------------------------------------------------------------

  /**
   * The candidate fonts in the order they are tried; `sep` is the path
   * separator `pathlib` joins the font directory with.
   */
  function FontCandidates(sep: char): (r: seq<string>)
    ensures |r| == 7
  {
    [ "C:/Windows/Fonts/DejaVuSans.ttf",
      "C:/Windows/Fonts/arial.ttf",
      "C:/Windows/Fonts/calibri.ttf",
      FontsDir + [sep] + "DejaVuSans.ttf",
      FontsDir + [sep] + "greek_font.ttf",
      "/usr/share/fonts/truetype/dejavu/DejaVuSans.ttf",
      "/System/Library/Fonts/Helvetica.ttc" ]
  }

  /** The first candidate, in list order, that exists; `None` when none does. */
  function FirstIn(candidates: seq<string>, existing: set<string>): (r: Option<string>)
    ensures r.None? <==> forall i :: 0 <= i < |candidates| ==> candidates[i] !in existing
    ensures r.Some? ==> exists i :: 0 <= i < |candidates| && candidates[i] == r.value && candidates[i] in existing
                                  && (forall j :: 0 <= j < i ==> candidates[j] !in existing)
  {
    if |candidates| == 0 then None
    else if candidates[0] in existing then Some(candidates[0])
    else
      var r := FirstIn(candidates[1..], existing);
      assert forall i :: 1 <= i < |candidates| ==> candidates[i] == candidates[1..][i - 1];
      if r.Some? then
        var i :| 0 <= i < |candidates[1..]| && candidates[1..][i] == r.value && candidates[1..][i] in existing
                 && (forall j :: 0 <= j < i ==> candidates[1..][j] !in existing);
        assert forall j :: 0 <= j < i + 1 ==> candidates[j] !in existing;
        r
      else r
  }

  /** The search loop of `_get_greek_font_path`: it returns the first candidate that exists. */
  method FirstExisting(candidates: seq<string>, existing: set<string>) returns (r: Option<string>)
    ensures r == FirstIn(candidates, existing)
    ensures r.None? <==> forall i :: 0 <= i < |candidates| ==> candidates[i] !in existing
    ensures r.Some? ==> exists i :: 0 <= i < |candidates| && candidates[i] == r.value && candidates[i] in existing
                                  && (forall j :: 0 <= j < i ==> candidates[j] !in existing)
  {
    var i := 0;
    while i < |candidates|
      invariant 0 <= i <= |candidates|
      invariant forall j :: 0 <= j < i ==> candidates[j] !in existing
      invariant FirstIn(candidates, existing) == FirstIn(candidates[i..], existing)
    {
      if candidates[i] in existing {
        return Some(candidates[i]);
      }
      assert candidates[i..][1..] == candidates[i + 1..];
      i := i + 1;
    }
    return None;
  }

  /**
   * `_get_greek_font_path` with the configuration in scope: the first of the
   * seven candidates, in their order, that exists; `None` when none does.
   */
  function GreekFontPath(sep: char, existing: set<string>): (r: Option<string>)
    ensures r.None? <==> forall i :: 0 <= i < 7 ==> FontCandidates(sep)[i] !in existing
    ensures r.Some? ==> exists i :: 0 <= i < 7 && FontCandidates(sep)[i] == r.value && r.value in existing
                                  && (forall j :: 0 <= j < i ==> FontCandidates(sep)[j] !in existing)
  {
    FirstIn(FontCandidates(sep), existing)
  }

  /**
   * `_get_greek_font_path` as written: the candidate list names
   * `Config.FONTS_DIR`, and `Config` is not imported, so the list cannot be
   * built and the lookup fails before any file is tried.
   */
  function GreekFontPathAsWritten(sep: char, existing: set<string>): (r: Result<Option<string>, Fault>)
  {
    Failure(ConfigUndefined)
  }

  /**
   * A font in the project's own fonts directory is never found as written,
   * although the lookup as intended returns it when it is the only font
   * present.
   */
  lemma {:induction false} FontsDirFontMissed(sep: char)
    ensures var f := FontCandidates(sep)[3];
      GreekFontPathAsWritten(sep, {f}) == Failure(ConfigUndefined)
      && GreekFontPath(sep, {f}) == Some(f)
  {
  }

  // ---------------------------------------------------------------------
  // Looping the background
  // ---------------------------------------------------------------------

  /** Python's `int()` on a float: truncation toward zero. */
  function Truncate(x: real): (n: int)
    ensures x >= 0.0 ==> n == x.Floor
    ensures x < 0.0 ==> n == -((-x).Floor)
  {
    if x >= 0.0 then x.Floor else -((-x).Floor)
  }

  /** `int(target / duration) + 1`; `None` where the division raises. */
  function LoopCount(target: real, duration: real): (r: Option<int>)
    ensures r.None? <==> duration == 0.0
  {
    if duration == 0.0 then None else Some(Truncate(target / duration) + 1)
  }

  /** A ratio below `x` has its dividend below `x` times the divisor. */
  lemma RatioBelow(t: real, d: real, x: real)
    requires d > 0.0 && t / d < x
    ensures t < x * d
  {
    var q := t / d;
    assert q * d == t;
    assert (x - q) * d > 0.0;
    assert x * d - t == (x - q) * d;
  }

  /** A ratio of at least `x` has its dividend at least `x` times the divisor. */
  lemma RatioAbove(t: real, d: real, x: real)
    requires d > 0.0 && x <= t / d
    ensures x * d <= t
  {
    var q := t / d;
    assert q * d == t;
    assert (q - x) * d >= 0.0;
    assert t - x * d == (q - x) * d;
  }

  /**
   * For a positive clip length and a non-negative target the loop count is
   * the least number of copies that outlasts the target: at least one, more
   * than the target together, and one fewer would not be.
   */
  lemma {:induction false} LoopCountCovers(target: real, duration: real)
    requires duration > 0.0 && target >= 0.0
    ensures LoopCount(target, duration).Some?
    ensures var n := LoopCount(target, duration).value;
      n >= 1 && (n as real) * duration > target && ((n - 1) as real) * duration <= target
  {
    var q := target / duration;
    var n := q.Floor + 1;
    RatioBelow(target, duration, n as real);
    RatioAbove(target, duration, (n - 1) as real);
  }

  /** What the video step decides about the background and the output. */
  datatype Composition = Composition(
    loops: Option<int>,  // the count given to the `loop` filter when the background is looped first
    duration: real)      // the output length forced with `-t`, and the looped clip's `trim` end

  /**
   * `create_video_with_captions` after both durations are known: a
   * background shorter than the audio goes through `_loop_video` with
   * `LoopCount` loops and is trimmed to the audio's length, a longer one is
   * used as it is, and the output always lasts as long as the audio.
   * `None` where the loop count divides by a zero length.
   */
  function Compose(audio: real, background: real): (r: Option<Composition>)
    ensures r.None? <==> background < audio && background == 0.0
    ensures r.Some? ==> r.value.duration == audio && (r.value.loops.Some? <==> background < audio)
  {
    if background < audio then
      match LoopCount(audio, background)
      case None => None
      case Some(n) => Some(Composition(Some(n), audio))
    else Some(Composition(None, audio))
  }

  /**
   * When the background is looped, the count handed to the `loop` filter is
   * the least number of whole copies of the clip that would outlast the
   * audio: at least one, together longer than the audio, and one fewer not.
   */
  lemma {:induction false} ComposeLoopCount(audio: real, background: real)
    requires background >= 0.0
    requires Compose(audio, background).Some? && Compose(audio, background).value.loops.Some?
    ensures var n := Compose(audio, background).value.loops.value;
      n >= 1 && (n as real) * background > audio && ((n - 1) as real) * background <= audio
  {
    LoopCountCovers(audio, background);
  }

  /**
   * `create_video_with_captions` as written: its first statement names
   * `Config.OUTPUT_DIR`, and `Config` is not imported, so every call fails
   * before either duration is read.
   */
  function ComposeAsWritten(audio: real, background: real): Result<Composition, Fault>
  {
    Failure(ConfigUndefined)
  }

  /**
   * Whatever the two durations, the video step as written fails, while the
   * step as intended yields an output as long as the audio whenever the
   * background has a length.
   */
  lemma {:induction false} ComposeNeverRuns(audio: real, background: real)
    requires background > 0.0
    ensures ComposeAsWritten(audio, background) == Failure(ConfigUndefined)
    ensures Compose(audio, background).Some? && Compose(audio, background).value.duration == audio
  {
  }
}
