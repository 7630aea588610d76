/**
 * Division of narration text into caption-sized units, as done by
 * `GreekCaptionGenerator._split_into_sentences`: split at sentence-final
 * marks, trim and drop empty pieces, then break any sentence longer than
 * 80 characters at commas and at whitespace-flanked conjunctions.
 */
module Segmentation {
  import opened Text
  import opened Patterns

  /** The class `[.!;·]` of the primary split (the last one is U+00B7). */
  const SentenceEnds: set<char> := {'.', '!', ';', '·'}

  /** Sentences longer than this are broken further. */
  const MaxUnitLength: nat := 80

  lemma {:induction false} UnbrokenStrip(p: Pattern, s: string)
    requires Unbroken(p, s)
    ensures Unbroken(p, Strip(s))
  {
    var o, t := StripOffset(s), Strip(s);
    UnbrokenInfix(p, s, o, o + |t|, t);
  }

  lemma {:induction false} NonBlankUnbroken(p: Pattern, parts: seq<string>)
    requires forall i :: 0 <= i < |parts| ==> Unbroken(p, parts[i])
    ensures forall i :: 0 <= i < |NonBlank(parts)| ==> Unbroken(p, NonBlank(parts)[i])
  {
    var r := NonBlank(parts);
    NonBlankFrom(parts);
    forall i | 0 <= i < |r|
      ensures Unbroken(p, r[i])
    {
      assert r[i] in r;
      var j :| 0 <= j < |parts| && r[i] == Strip(parts[j]);
      UnbrokenStrip(p, parts[j]);
    }
  }

  /** A string in which the clause regex never matches holds no comma. */
  lemma {:induction false} UnbrokenHasNoComma(s: string)
    requires Unbroken(ClauseBreak, s)
    ensures ',' !in s
  {
    forall k | 0 <= k < |s|
      ensures s[k] != ','
    {
      assert s[k..][0] == s[k];
    }
  }

  /** The trimmed, non-empty pieces between sentence-final marks. */
  function PrimarySentences(text: string): (r: seq<string>)
    ensures forall i :: 0 <= i < |r| ==> r[i] != [] && IsTrimmed(r[i]) && Avoids(r[i], SentenceEnds)
  {
    var pieces := Split(AnyOf(SentenceEnds), text);
    assert forall i :: 0 <= i < |pieces| ==> Avoids(pieces[i], SentenceEnds) by {
      SplitPiecesUnbroken(AnyOf(SentenceEnds), text);
      forall i | 0 <= i < |pieces|
        ensures Avoids(pieces[i], SentenceEnds)
      {
        UnbrokenAnyOf(SentenceEnds, pieces[i]);
      }
    }
    NonBlankAvoids(pieces, SentenceEnds);
    NonBlank(pieces)
  }

  /** One sentence as captions: itself when short enough, otherwise its clause pieces. */
  function Refine(sentence: string): seq<string>
  {
    if |sentence| > MaxUnitLength then NonBlank(Split(ClauseBreak, sentence)) else [sentence]
  }

  function RefineAll(sentences: seq<string>): seq<string>
  {
    if |sentences| == 0 then [] else Refine(sentences[0]) + RefineAll(sentences[1..])
  }

  lemma {:induction false} RefineAllAppend(a: seq<string>, b: seq<string>)
    ensures RefineAll(a + b) == RefineAll(a) + RefineAll(b)
    decreases |a|
  {
    if |a| == 0 {
      assert a + b == b;
    } else {
      var ab := a + b;
      assert ab[0] == a[0] && ab[1..] == a[1..] + b;
      RefineAllAppend(a[1..], b);
      calc {
        RefineAll(ab);
        Refine(a[0]) + RefineAll(a[1..] + b);
        Refine(a[0]) + (RefineAll(a[1..]) + RefineAll(b));
        (Refine(a[0]) + RefineAll(a[1..])) + RefineAll(b);
      }
    }
  }

  /** What every caption unit satisfies. */
  predicate GoodUnit(u: string) {
    && u != []
    && IsTrimmed(u)
    && Avoids(u, SentenceEnds)
    && (|u| > MaxUnitLength ==> Unbroken(ClauseBreak, u) && ',' !in u)
  }

  lemma {:induction false} RefineGood(s: string)
    requires s != [] && IsTrimmed(s) && Avoids(s, SentenceEnds)
    ensures forall i :: 0 <= i < |Refine(s)| ==> GoodUnit(Refine(s)[i])
  {
    if |s| > MaxUnitLength {
      var pieces := Split(ClauseBreak, s);
      SplitPiecesUnbroken(ClauseBreak, s);
      SplitCharsFrom(ClauseBreak, s);
      NonBlankUnbroken(ClauseBreak, pieces);
      forall i | 0 <= i < |pieces|
        ensures Avoids(pieces[i], SentenceEnds)
      {
        CharsFromAvoids(pieces[i], s, SentenceEnds);
      }
      NonBlankAvoids(pieces, SentenceEnds);
      var r := NonBlank(pieces);
      forall i | 0 <= i < |r|
        ensures GoodUnit(r[i])
      {
        UnbrokenHasNoComma(r[i]);
      }
    }
  }

  lemma {:induction false} RefineAllGood(sentences: seq<string>)
    requires forall i :: 0 <= i < |sentences| ==> sentences[i] != [] && IsTrimmed(sentences[i]) && Avoids(sentences[i], SentenceEnds)
    ensures forall i :: 0 <= i < |RefineAll(sentences)| ==> GoodUnit(RefineAll(sentences)[i])
    decreases |sentences|
  {
    if |sentences| > 0 {
      RefineGood(sentences[0]);
      RefineAllGood(sentences[1..]);
    }
  }

  /**
   * `_split_into_sentences(text)`. Every unit is non-empty and trimmed, holds
   * no sentence-final mark, and a unit longer than 80 characters holds no
   * comma and no whitespace-flanked conjunction: nothing was left to split it at.
   */
  function SplitIntoSentences(text: string): (r: seq<string>)
    ensures forall i :: 0 <= i < |r| ==> r[i] != [] && IsTrimmed(r[i])
    ensures forall i :: 0 <= i < |r| ==> Avoids(r[i], SentenceEnds)
    ensures forall i :: 0 <= i < |r| && |r[i]| > MaxUnitLength ==> ',' !in r[i]
    ensures forall i :: 0 <= i < |r| && |r[i]| > MaxUnitLength ==> Unbroken(ClauseBreak, r[i])
  {
    RefineAllGood(PrimarySentences(text));
    RefineAll(PrimarySentences(text))
  }

  /** Text joined at a sentence-final mark is segmented as its two sides, in order. */
  lemma {:induction false} SplitIntoSentencesAppend(a: string, d: char, b: string)
    requires d in SentenceEnds
    ensures SplitIntoSentences(a + [d] + b) == SplitIntoSentences(a) + SplitIntoSentences(b)
  {
    SplitAtSeparator(SentenceEnds, a, d, b);
    NonBlankAppend(Split(AnyOf(SentenceEnds), a), Split(AnyOf(SentenceEnds), b));
    RefineAllAppend(PrimarySentences(a), PrimarySentences(b));
  }

  /**
   * Text without a sentence-final mark is one sentence: nothing when it is
   * blank, its trimmed self when that has at most 80 characters, and
   * otherwise its trimmed, non-empty clause pieces in order.
   */
  lemma {:induction false} SingleSentence(s: string)
    requires Avoids(s, SentenceEnds)
    ensures IsBlank(s) ==> SplitIntoSentences(s) == []
    ensures !IsBlank(s) && |Strip(s)| <= MaxUnitLength ==> SplitIntoSentences(s) == [Strip(s)]
    ensures !IsBlank(s) && |Strip(s)| > MaxUnitLength ==> SplitIntoSentences(s) == NonBlank(Split(ClauseBreak, Strip(s)))
  {
    UnbrokenAnyOf(SentenceEnds, s);
    SplitUnbroken(AnyOf(SentenceEnds), s);
    NonBlankOne(s);
    if !IsBlank(s) {
      assert PrimarySentences(s) == [Strip(s)];
      assert [Strip(s)][1..] == [];
      assert RefineAll([Strip(s)]) == Refine(Strip(s)) + RefineAll([]);
    }
  }

  /**
   * Text with no sentence boundary and nothing to break it at is one unit,
   * however long it is.
   */
  lemma {:induction false} NoBoundaryIsOneUnit(s: string)
    requires s != [] && IsTrimmed(s) && Avoids(s, SentenceEnds)
    requires Unbroken(ClauseBreak, s)
    ensures SplitIntoSentences(s) == [s]
  {
    SingleSentence(s);
    SplitUnbroken(ClauseBreak, s);
    NonBlankSingle(s);
    assert Strip(s) == s;
  }

  /** A caption-sized sentence: non-empty, trimmed, at most 80 characters, no sentence-final mark. */
  predicate ShortSentence(w: string) {
    w != [] && IsTrimmed(w) && |w| <= MaxUnitLength && Avoids(w, SentenceEnds)
  }

  lemma {:induction false} SentenceStep(lead: string, w: string, j: string)
    ensures lead + (w + ". " + j) + "." == (lead + w) + ['.'] + (" " + j + ".")
  {
    assert ". " == ['.'] + " ";
  }

  /** A full stop after blank space yields no unit. */
  lemma {:induction false} BlankThenStop(lead: string)
    requires IsBlank(lead)
    ensures SplitIntoSentences(lead + ['.']) == []
  {
    assert Avoids(lead, SentenceEnds);
    assert lead + ['.'] == lead + ['.'] + "";
    SplitIntoSentencesAppend(lead, '.', "");
    SingleSentence(lead);
    SingleSentence("");
  }

  /** A short sentence after blank space, then a full stop, is the first unit. */
  lemma {:induction false} FirstShortSentence(lead: string, w: string, rest: string)
    requires IsBlank(lead) && ShortSentence(w)
    ensures SplitIntoSentences((lead + w) + ['.'] + rest) == [w] + SplitIntoSentences(rest)
  {
    assert Avoids(lead + w, SentenceEnds);
    assert !IsBlank(lead + w) by {
      assert (lead + w)[|lead|] == w[0];
    }
    StripBlankPrefix(lead, w);
    SingleSentence(lead + w);
    SplitIntoSentencesAppend(lead + w, '.', rest);
  }

  lemma {:induction false} NextShortSentence(lead: string, w: string, j: string)
    requires IsBlank(lead) && ShortSentence(w)
    ensures SplitIntoSentences(lead + (w + ". " + j) + ".") == [w] + SplitIntoSentences(" " + j + ".")
  {
    SentenceStep(lead, w, j);
    FirstShortSentence(lead, w, " " + j + ".");
  }

  /** The last of the written sentences. */
  lemma {:induction false} LastShortSentence(lead: string, w: string)
    requires IsBlank(lead) && ShortSentence(w)
    ensures SplitIntoSentences(lead + Join([w], ". ") + ".") == [w]
  {
    assert lead + Join([w], ". ") + "." == (lead + w) + ['.'] + "";
    FirstShortSentence(lead, w, "");
    SingleSentence("");
  }

  /** One more sentence in front of sentences that already read back. */
  lemma {:induction false} MoreShortSentences(lead: string, ws: seq<string>)
    requires IsBlank(lead) && |ws| > 1 && ShortSentence(ws[0])
    requires SplitIntoSentences(" " + Join(ws[1..], ". ") + ".") == ws[1..]
    ensures SplitIntoSentences(lead + Join(ws, ". ") + ".") == ws
  {
    var j := Join(ws[1..], ". ");
    assert lead + Join(ws, ". ") + "." == lead + (ws[0] + ". " + j) + ".";
    NextShortSentence(lead, ws[0], j);
    HeadThenTail(SplitIntoSentences(lead + Join(ws, ". ") + "."), ws);
  }

  /**
   * Short sentences written out as `"A. B. C."` (after any leading
   * whitespace) are segmented back into exactly those sentences.
   */
  lemma {:induction false} ShortSentencesRoundTrip(lead: string, ws: seq<string>)
    requires IsBlank(lead)
    requires forall i :: 0 <= i < |ws| ==> ShortSentence(ws[i])
    ensures SplitIntoSentences(lead + Join(ws, ". ") + ".") == ws
    decreases |ws|
  {
    if |ws| == 0 {
      assert lead + Join(ws, ". ") + "." == lead + ['.'];
      BlankThenStop(lead);
    } else if |ws| == 1 {
      assert ws == [ws[0]];
      LastShortSentence(lead, ws[0]);
    } else {
      assert IsBlank(" ");
      ShortSentencesRoundTrip(" ", ws[1..]);
      MoreShortSentences(lead, ws);
    }
  }
}
