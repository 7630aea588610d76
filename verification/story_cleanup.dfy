/**
 * The clean-up `generate_story` applies to the text the language model
 * returns, and the checks that follow it: numbering, timing notes and
 * quotes are removed, whitespace is collapsed, the sentences are counted,
 * and a story that is kept is given a closing full stop. The model call
 * itself is not modelled; the raw reply is the input.
 */
module StoryCleanup {
  import opened Text
  import opened Patterns
  import opened StorySrt

  /** The number of sentences the prompt asks for (`optimal_sentences`). */
  const SentenceTarget: nat := 12

  /** Whitespace only as single spaces, never two whitespace characters in a row. */
  predicate SingleSpaced(s: string) {
    forall i :: 0 <= i < |s| && IsSpace(s[i]) ==> s[i] == ' ' && (i == 0 || !IsSpace(s[i - 1]))
  }

  /** A character in front of a single-spaced text that does not make a run. */
  lemma {:induction false} SingleSpacedCons(c: char, rest: string)
    requires SingleSpaced(rest)
    requires IsSpace(c) ==> c == ' ' && (|rest| > 0 ==> !IsSpace(rest[0]))
    requires |rest| > 0 && IsSpace(rest[0]) ==> !IsSpace(c)
    ensures SingleSpaced([c] + rest)
  {
    var r := [c] + rest;
    forall i | 0 <= i < |r| && IsSpace(r[i])
      ensures r[i] == ' ' && (i == 0 || !IsSpace(r[i - 1]))
    {
      if i == 0 {
        assert r[0] == c;
      } else if i == 1 {
        assert r[1] == rest[0] && r[0] == c;
      } else if i > 1 {
        assert r[i] == rest[i - 1] && r[i - 1] == rest[i - 2];
        assert IsSpace(rest[i - 1]);
      }
    }
  }

  /**
   * `re.sub(r'\s+', ' ', s)`: every run of whitespace becomes one space. The
   * result is single-spaced and starts with whitespace exactly when `s` does.
   */
  lemma {:induction false} CollapseSpaces(s: string)
    ensures SingleSpaced(Sub(WhitespaceRun, s, " "))
    ensures |Sub(WhitespaceRun, s, " ")| > 0 <==> |s| > 0
    ensures |s| > 0 ==> (IsSpace(Sub(WhitespaceRun, s, " ")[0]) <==> IsSpace(s[0]))
    decreases |s|
  {
    if |s| > 0 {
      var m := SpaceRun(s);
      if m > 0 {
        CollapseSpaces(s[m..]);
        var rest := Sub(WhitespaceRun, s[m..], " ");
        assert Sub(WhitespaceRun, s, " ") == [' '] + rest;
        if m < |s| {
          assert s[m..][0] == s[m];
        }
        SingleSpacedCons(' ', rest);
      } else {
        CollapseSpaces(s[1..]);
        var rest := Sub(WhitespaceRun, s[1..], " ");
        assert Sub(WhitespaceRun, s, " ") == [s[0]] + rest;
        SingleSpacedCons(s[0], rest);
      }
    }
  }

  /** An infix of a single-spaced text is single-spaced. */
  lemma {:induction false} SingleSpacedInfix(s: string, i: nat, j: nat, t: string)
    requires i <= j <= |s| && SingleSpaced(s) && t == s[i..j]
    ensures SingleSpaced(t)
  {
    forall k | 0 <= k < |t| && IsSpace(t[k])
      ensures t[k] == ' ' && (k == 0 || !IsSpace(t[k - 1]))
    {
      assert t[k] == s[i + k];
      assert IsSpace(s[i + k]);
      if k > 0 {
        assert t[k - 1] == s[i + k - 1];
      }
    }
  }

  lemma {:induction false} StripSingleSpaced(s: string)
    requires SingleSpaced(s)
    ensures SingleSpaced(Strip(s))
  {
    SingleSpacedInfix(s, StripOffset(s), StripOffset(s) + |Strip(s)|, Strip(s));
  }

  /**
   * The clean-up steps: strip the reply, remove numbering such as `3. `,
   * timing notes such as `(5 δευτ.)` and quotes, collapse whitespace, strip.
   */
  function Clean(reply: string): string {
    Strip(Sub(WhitespaceRun, Sub(AnyOf({'"'}), Sub(TimingNote, Sub(Numbering, Strip(reply), ""), ""), ""), " "))
  }

  /**
   * The cleaned story has no whitespace at either end, no run of whitespace
   * and no quote, and is no longer than the reply.
   */
  lemma {:induction false} CleanShape(reply: string)
    ensures IsTrimmed(Clean(reply))
    ensures SingleSpaced(Clean(reply))
    ensures '"' !in Clean(reply)
    ensures |Clean(reply)| <= |reply|
  {
    var s2 := Sub(TimingNote, Sub(Numbering, Strip(reply), ""), "");
    var s3 := Sub(AnyOf({'"'}), s2, "");
    var s4 := Sub(WhitespaceRun, s3, " ");
    SubAvoids({'"'}, s2, "");
    SubKeepsAvoids(WhitespaceRun, s3, " ", {'"'});
    CollapseSpaces(s3);
    StripSingleSpaced(s4);
    StripAvoids(s4, {'"'});
  }

  /** `if not story.endswith('.'): story += '.'`. */
  function EnsurePeriod(story: string): (r: string)
    ensures |r| > 0 && r[|r| - 1] == '.'
    ensures |story| > 0 && story[|story| - 1] == '.' ==> r == story
    ensures |story| <= |r| <= |story| + 1 && r[..|story|] == story
  {
    if |story| > 0 && story[|story| - 1] == '.' then story else story + "."
  }

  /** Adding the full stop twice is adding it once. */
  lemma {:induction false} EnsurePeriodIdempotent(story: string)
    ensures EnsurePeriod(EnsurePeriod(story)) == EnsurePeriod(story)
  {
  }

  /** A closing full stop adds no sentence: the count is the same before and after. */
  lemma {:induction false} PeriodKeepsSentences(story: string)
    ensures StorySentences(EnsurePeriod(story)) == StorySentences(story)
  {
    if EnsurePeriod(story) != story {
      assert story + "." == story + ['.'] + [];
      SplitAtSeparator({'.'}, story, '.', []);
      assert Split(AnyOf({'.'}), []) == [[]];
      NonBlankAppend(Split(AnyOf({'.'}), story), [[]]);
      assert Strip([]) == [];
    }
  }

  /** The outcome of `generate_story` for one reply. */
  datatype Outcome =
    | Regenerate                              // fewer sentences than asked for: ask again
    | Accept(story: string, warned: bool)     // kept; `warned` when there were more than asked for

  /**
   * The decision `generate_story` takes on a cleaned story: regenerate
   * exactly when it has fewer than 12 sentences, warn when it has more, and
   * otherwise keep it with a closing full stop.
   */
  function Judge(story: string): (r: Outcome)
    ensures r.Regenerate? <==> |StorySentences(story)| < SentenceTarget
    ensures r.Accept? ==> (r.warned <==> |StorySentences(story)| > SentenceTarget)
    ensures r.Accept? ==> r.story == EnsurePeriod(story)
  {
    var count := |StorySentences(story)|;
    if count < SentenceTarget then Regenerate
    else Accept(EnsurePeriod(story), count != SentenceTarget)
  }

  /** `generate_story` after the model's reply: clean it, then judge it. */
  function GenerateStory(reply: string): Outcome {
    Judge(Clean(reply))
  }

  /**
   * The closing full stop keeps a cleaned text's shape: still trimmed,
   * single-spaced and free of quotes, and at most one character longer.
   */
  lemma {:induction false} PeriodKeepsShape(clean: string)
    requires IsTrimmed(clean) && SingleSpaced(clean) && '"' !in clean
    ensures var story := EnsurePeriod(clean);
      && '"' !in story
      && IsTrimmed(story)
      && SingleSpaced(story)
      && |story| <= |clean| + 1
  {
    var story := EnsurePeriod(clean);
    if story != clean {
      assert story == clean + ".";
      assert forall i :: 0 <= i < |clean| ==> story[i] == clean[i];
      assert SingleSpaced(story) by {
        forall i | 0 <= i < |story| && IsSpace(story[i])
          ensures story[i] == ' ' && (i == 0 || !IsSpace(story[i - 1]))
        {
          assert i < |clean|;
        }
      }
    }
  }

  /**
   * What a kept story looks like, for any cleaned text: it ends with a full
   * stop, keeps the text's shape, and has at least 12 sentences.
   */
  lemma {:induction false} JudgedStory(clean: string)
    requires Judge(clean).Accept?
    requires IsTrimmed(clean) && SingleSpaced(clean) && '"' !in clean
    ensures var story := Judge(clean).story;
      && story[|story| - 1] == '.'
      && '"' !in story
      && IsTrimmed(story)
      && SingleSpaced(story)
      && |story| <= |clean| + 1
      && |StorySentences(story)| >= SentenceTarget
  {
    PeriodKeepsSentences(clean);
    PeriodKeepsShape(clean);
  }

  /**
   * A story that is kept ends with a full stop, has no quote, no whitespace
   * at either end and no run of whitespace, is at most one character longer
   * than the reply, and has at least as many sentences as were asked for.
   */
  lemma {:induction false} AcceptedStory(reply: string)
    requires GenerateStory(reply).Accept?
    ensures var story := GenerateStory(reply).story;
      && story[|story| - 1] == '.'
      && '"' !in story
      && IsTrimmed(story)
      && SingleSpaced(story)
      && |story| <= |reply| + 1
      && |StorySentences(story)| >= SentenceTarget
  {
    CleanShape(reply);
    JudgedStory(Clean(reply));
  }
}
