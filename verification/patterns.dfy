/**
 * The regular expressions and separators the pipeline matches, with the
 * leftmost, non-overlapping scanning that Python's `re.sub`, `re.split`,
 * `str.split` and `str.replace` perform. A pattern is matched at the start
 * of a string; `MatchLen` is the length of the match, 0 meaning no match.
 * None of the patterns below can match the empty string, so a positive
 * length always means progress.
 */
module Patterns {
  import opened Text

  /** The conjunctions of the clause-splitting regex, in its alternation order. */
  const Conjunctions: seq<string> := ["και", "αλλά", "όμως", "μα", "κι", "ή"]

  /** The closing part of a timing note such as `(5 δευτ.)`. */
  const TimingWord: string := "δευτ.)"

  datatype Pattern =
    | AnyOf(chars: set<char>)   // a one-character class such as `[.!;·]`, or `str.split`'s separator
    | Literal(text: string)     // a fixed string, as searched by `str.replace`
    | Numbering                 // `\d+\.\s*`
    | TimingNote                // `\(\d+\s*δευτ\.\)`
    | WhitespaceRun             // `\s+`
    | ClauseBreak               // `[,]|(?:\s+(?:και|αλλά|όμως|μα|κι|ή)\s+)`

  /** Length of the run of digits that starts `s`. */
  function DigitRun(s: string): (n: nat)
    ensures n <= |s|
    ensures n < |s| ==> !IsDigit(s[n])
  {
    if |s| > 0 && IsDigit(s[0]) then 1 + DigitRun(s[1..]) else 0
  }

  lemma {:induction false} DigitRunDigits(s: string)
    ensures forall i :: 0 <= i < DigitRun(s) ==> IsDigit(s[i])
    decreases |s|
  {
    if |s| > 0 && IsDigit(s[0]) {
      DigitRunDigits(s[1..]);
      forall i | 0 < i < DigitRun(s)
        ensures IsDigit(s[i])
      {
        assert s[i] == s[1..][i - 1];
      }
    }
  }

  /** Length of the run of whitespace that starts `s`. */
  function SpaceRun(s: string): (n: nat)
    ensures n <= |s|
    ensures n < |s| ==> !IsSpace(s[n])
  {
    if |s| > 0 && IsSpace(s[0]) then 1 + SpaceRun(s[1..]) else 0
  }

  lemma {:induction false} SpaceRunSpaces(s: string)
    ensures forall i :: 0 <= i < SpaceRun(s) ==> IsSpace(s[i])
    decreases |s|
  {
    if |s| > 0 && IsSpace(s[0]) {
      SpaceRunSpaces(s[1..]);
      forall i | 0 < i < SpaceRun(s)
        ensures IsSpace(s[i])
      {
        assert s[i] == s[1..][i - 1];
      }
    }
  }

  /**
   * `(?:w1|w2|...)\s+` with the regex engine's backtracking: the first
   * alternative that starts `s` and is followed by whitespace wins, and the
   * greedy `\s+` takes the whole whitespace run after it.
   */
  function WordThenSpace(words: seq<string>, s: string): (n: nat)
    ensures n <= |s|
  {
    if |words| == 0 then 0
    else
      var w := words[0];
      if |w| <= |s| && s[..|w|] == w && SpaceRun(s[|w|..]) > 0 then |w| + SpaceRun(s[|w|..])
      else WordThenSpace(words[1..], s)
  }

  /**
   * Length of the match of `p` at the start of `s`, or 0. The greedy runs
   * in these patterns are followed by a character they cannot contain, so
   * the maximal run is the only one that can lead to a match.
   */
  function MatchLen(p: Pattern, s: string): (n: nat)
    ensures n <= |s|
  {
    match p
    case AnyOf(cs) => if |s| > 0 && s[0] in cs then 1 else 0
    case Literal(t) => if 0 < |t| <= |s| && s[..|t|] == t then |t| else 0
    case Numbering => NumberingLen(s)
    case TimingNote => TimingNoteLen(s)
    case WhitespaceRun => SpaceRun(s)
    case ClauseBreak => ClauseBreakLen(s)
  }

  /** `\d+\.\s*` at the start of `s`. */
  function NumberingLen(s: string): (n: nat)
    ensures n <= |s|
  {
    var d := DigitRun(s);
    if 0 < d < |s| && s[d] == '.' then d + 1 + SpaceRun(s[d + 1..]) else 0
  }

  /** `\(\d+\s*δευτ\.\)` at the start of `s`. */
  function TimingNoteLen(s: string): (n: nat)
    ensures n <= |s|
  {
    CountedWordLen(s, TimingWord)
  }

  /** `\(\d+\s*` followed by `word` at the start of `s`. */
  function CountedWordLen(s: string, word: string): (n: nat)
    ensures n <= |s|
  {
    if |s| > 0 && s[0] == '(' then
      var d := DigitRun(s[1..]);
      var k := 1 + d + SpaceRun(s[1 + d..]);
      if d > 0 && k + |word| <= |s| && s[k..k + |word|] == word then k + |word| else 0
    else 0
  }

  /** `[,]|(?:\s+(?:και|αλλά|όμως|μα|κι|ή)\s+)` at the start of `s`. */
  function ClauseBreakLen(s: string): (n: nat)
    ensures n <= |s|
  {
    if |s| > 0 && s[0] == ',' then 1
    else
      var w := SpaceRun(s);
      var c := WordThenSpace(Conjunctions, s[w..]);
      if w > 0 && c > 0 then w + c else 0
  }

  /** `re.sub(p, rep, s)` (and `s.replace(t, rep)` for `Literal(t)`). */
  function Sub(p: Pattern, s: string, rep: string): (r: string)
    ensures |rep| <= 1 ==> |r| <= |s|
    decreases |s|
  {
    if |s| == 0 then []
    else
      var m := MatchLen(p, s);
      if m > 0 then rep + Sub(p, s[m..], rep)
      else [s[0]] + Sub(p, s[1..], rep)
  }

  /** Every character `Sub` produces comes from the text or from the replacement. */
  lemma {:induction false} SubChars(p: Pattern, s: string, rep: string)
    ensures forall i :: 0 <= i < |Sub(p, s, rep)| ==> Sub(p, s, rep)[i] in s || Sub(p, s, rep)[i] in rep
    decreases |s|
  {
    if |s| > 0 {
      var m := MatchLen(p, s);
      var k := if m > 0 then m else 1;
      var head := if m > 0 then rep else [s[0]];
      var rest := Sub(p, s[k..], rep);
      SubChars(p, s[k..], rep);
      assert Sub(p, s, rep) == head + rest;
      forall i | 0 <= i < |head + rest|
        ensures (head + rest)[i] in s || (head + rest)[i] in rep
      {
        if i >= |head| {
          var c := rest[i - |head|];
          assert (head + rest)[i] == c;
          if c in s[k..] {
            var j :| 0 <= j < |s[k..]| && s[k..][j] == c;
            assert s[k + j] == c;
          }
        }
      }
    }
  }

  /** `re.split(p, s)`, and `s.split(c)` for `AnyOf({c})`. */
  function Split(p: Pattern, s: string): (r: seq<string>)
    ensures |r| >= 1
    decreases |s|
  {
    if |s| == 0 then [[]]
    else
      var m := MatchLen(p, s);
      if m > 0 then [[]] + Split(p, s[m..])
      else
        var rest := Split(p, s[1..]);
        [[s[0]] + rest[0]] + rest[1..]
  }

  /** The first piece of a split is a prefix of the split text. */
  lemma {:induction false} SplitFirstPrefix(p: Pattern, s: string)
    ensures |Split(p, s)[0]| <= |s| && Split(p, s)[0] == s[..|Split(p, s)[0]|]
    decreases |s|
  {
    if |s| > 0 && MatchLen(p, s) == 0 {
      SplitFirstPrefix(p, s[1..]);
      var first := Split(p, s[1..])[0];
      assert Split(p, s)[0] == [s[0]] + first;
      assert s[..1 + |first|] == [s[0]] + s[1..][..|first|];
    }
  }

  /** Pieces made of characters of a suffix are made of characters of the whole. */
  lemma {:induction false} CharsFromSuffix(pieces: seq<string>, s: string, m: nat)
    requires m <= |s| && forall i :: 0 <= i < |pieces| ==> CharsFrom(pieces[i], s[m..])
    ensures forall i :: 0 <= i < |pieces| ==> CharsFrom(pieces[i], s)
  {
    InfixCharsFrom(s, m, |s|);
    assert s[m..|s|] == s[m..];
    forall i | 0 <= i < |pieces|
      ensures CharsFrom(pieces[i], s)
    {
      CharsFromTrans(pieces[i], s[m..], s);
    }
  }

  /** An empty piece in front keeps every piece made of characters of `s`. */
  lemma {:induction false} EmptyPieceCharsFrom(rest: seq<string>, s: string)
    requires forall i :: 0 <= i < |rest| ==> CharsFrom(rest[i], s)
    ensures forall i :: 0 <= i < |[[]] + rest| ==> CharsFrom(([[]] + rest)[i], s)
  {
    var r := [[]] + rest;
    forall i | 0 < i < |r|
      ensures CharsFrom(r[i], s)
    {
      assert r[i] == rest[i - 1];
    }
  }

  /** Pieces of `s[1..]`, the first one extended by `s[0]`, are made of characters of `s`. */
  lemma {:induction false} ExtendedPieceCharsFrom(rest: seq<string>, s: string)
    requires |s| > 0 && |rest| > 0
    requires forall i :: 0 <= i < |rest| ==> CharsFrom(rest[i], s[1..])
    ensures forall i :: 0 <= i < |rest| ==> CharsFrom(([[s[0]] + rest[0]] + rest[1..])[i], s)
  {
    CharsFromSuffix(rest, s, 1);
    var head := [s[0]] + rest[0];
    var r := [head] + rest[1..];
    assert CharsFrom(head, s) by {
      forall k | 0 < k < |head|
        ensures head[k] in s
      {
        assert head[k] == rest[0][k - 1];
      }
    }
    forall i | 0 < i < |r|
      ensures CharsFrom(r[i], s)
    {
      assert r[i] == rest[i];
    }
  }

  /** Every piece of a split is made of characters of the split text. */
  lemma {:induction false} SplitCharsFrom(p: Pattern, s: string)
    ensures forall i :: 0 <= i < |Split(p, s)| ==> CharsFrom(Split(p, s)[i], s)
    decreases |s|
  {
    if |s| > 0 {
      var m := MatchLen(p, s);
      if m > 0 {
        var rest := Split(p, s[m..]);
        SplitCharsFrom(p, s[m..]);
        CharsFromSuffix(rest, s, m);
        EmptyPieceCharsFrom(rest, s);
      } else {
        var rest := Split(p, s[1..]);
        SplitCharsFrom(p, s[1..]);
        ExtendedPieceCharsFrom(rest, s);
      }
    }
  }

  /** No position of `s` starts a match of `p`. */
  predicate Unbroken(p: Pattern, s: string) {
    forall k :: 0 <= k < |s| ==> MatchLen(p, s[k..]) == 0
  }

  lemma {:induction false} SpaceRunExtends(t: string, u: string)
    ensures SpaceRun(t + u) >= SpaceRun(t)
    ensures SpaceRun(t) < |t| ==> SpaceRun(t + u) == SpaceRun(t)
  {
    if |t| > 0 && IsSpace(t[0]) {
      assert (t + u)[1..] == t[1..] + u;
      SpaceRunExtends(t[1..], u);
    }
  }

  lemma {:induction false} DigitRunExtends(t: string, u: string)
    ensures DigitRun(t) < |t| ==> DigitRun(t + u) == DigitRun(t)
  {
    if |t| > 0 && IsDigit(t[0]) {
      assert (t + u)[1..] == t[1..] + u;
      DigitRunExtends(t[1..], u);
    }
  }

  lemma {:induction false} WordThenSpaceExtends(words: seq<string>, t: string, u: string)
    ensures WordThenSpace(words, t) > 0 ==> WordThenSpace(words, t + u) > 0
  {
    if |words| > 0 {
      var w := words[0];
      if |w| <= |t| && t[..|w|] == w && SpaceRun(t[|w|..]) > 0 {
        assert (t + u)[..|w|] == w;
        assert (t + u)[|w|..] == t[|w|..] + u;
        SpaceRunExtends(t[|w|..], u);
      } else {
        WordThenSpaceExtends(words[1..], t, u);
      }
    }
  }

  lemma {:induction false} NumberingExtends(t: string, u: string)
    requires NumberingLen(t) > 0
    ensures NumberingLen(t + u) > 0
  {
    DigitRunExtends(t, u);
    var d := DigitRun(t);
    assert (t + u)[d] == t[d];
  }

  /** A slice inside `t` is the same slice of `t + u`. */
  lemma {:induction false} SliceAppend(t: string, u: string, i: nat, j: nat)
    requires i <= j <= |t|
    ensures (t + u)[i..j] == t[i..j]
  {
  }

  /** A suffix of `t + u` starting inside `t`. */
  lemma {:induction false} SuffixAppend(t: string, u: string, i: nat)
    requires i <= |t|
    ensures (t + u)[i..] == t[i..] + u
  {
  }

  lemma {:induction false} CountedWordExtends(t: string, u: string, word: string)
    requires word != [] && CountedWordLen(t, word) > 0
    ensures CountedWordLen(t + u, word) > 0
  {
    var s := t + u;
    var d := DigitRun(t[1..]);
    var w := SpaceRun(t[1 + d..]);
    var k := 1 + d + w;
    assert t[0] == '(' && d > 0 && k + |word| <= |t| && t[k..k + |word|] == word;
    SuffixAppend(t, u, 1);
    DigitRunExtends(t[1..], u);
    SuffixAppend(t, u, 1 + d);
    SpaceRunExtends(t[1 + d..], u);
    SliceAppend(t, u, k, k + |word|);
    assert s[0] == '(';
  }

  lemma {:induction false} TimingNoteExtends(t: string, u: string)
    requires TimingNoteLen(t) > 0
    ensures TimingNoteLen(t + u) > 0
  {
    CountedWordExtends(t, u, TimingWord);
  }

  lemma {:induction false} ClauseBreakExtends(t: string, u: string)
    requires ClauseBreakLen(t) > 0
    ensures ClauseBreakLen(t + u) > 0
  {
    var s := t + u;
    if t[0] != ',' {
      var w := SpaceRun(t);
      SpaceRunExtends(t, u);
      assert s[w..] == t[w..] + u;
      WordThenSpaceExtends(Conjunctions, t[w..], u);
    }
  }

  /** A match at the start of `t` is still a match once more text follows. */
  lemma {:induction false} MatchExtends(p: Pattern, t: string, u: string)
    requires MatchLen(p, t) > 0
    ensures MatchLen(p, t + u) > 0
  {
    match p
    case AnyOf(cs) =>
    case Literal(x) =>
      assert (t + u)[..|x|] == t[..|x|];
    case Numbering =>
      NumberingExtends(t, u);
    case TimingNote =>
      TimingNoteExtends(t, u);
    case WhitespaceRun =>
      SpaceRunExtends(t, u);
    case ClauseBreak =>
      ClauseBreakExtends(t, u);
  }

  /**
   * A match-free prefix of the rest, behind a first character that starts
   * no match, stays match-free.
   */
  lemma {:induction false} HeadUnbroken(p: Pattern, s: string, first: string)
    requires |s| > 0 && MatchLen(p, s) == 0
    requires |first| < |s| && first == s[1..][..|first|] && Unbroken(p, first)
    ensures Unbroken(p, [s[0]] + first)
  {
    var head := [s[0]] + first;
    assert s == head + s[1 + |first|..] by {
      assert s[1..][..|first|] == s[1..1 + |first|];
    }
    forall k | 0 <= k < |head|
      ensures MatchLen(p, head[k..]) == 0
    {
      if k == 0 {
        assert head[0..] == head;
        if MatchLen(p, head) > 0 {
          MatchExtends(p, head, s[1 + |first|..]);
          assert false;
        }
      } else {
        assert head[k..] == first[k - 1..];
      }
    }
  }

  /** Every piece returned by `Split` is free of matches. */
  lemma {:induction false} SplitPiecesUnbroken(p: Pattern, s: string)
    ensures forall i :: 0 <= i < |Split(p, s)| ==> Unbroken(p, Split(p, s)[i])
    decreases |s|
  {
    if |s| > 0 {
      var m := MatchLen(p, s);
      if m > 0 {
        SplitPiecesUnbroken(p, s[m..]);
      } else {
        var r, rest := Split(p, s), Split(p, s[1..]);
        SplitPiecesUnbroken(p, s[1..]);
        SplitFirstPrefix(p, s[1..]);
        HeadUnbroken(p, s, rest[0]);
        assert r == [[s[0]] + rest[0]] + rest[1..];
        forall i | 0 < i < |r|
          ensures Unbroken(p, r[i])
        {
          assert r[i] == rest[i];
        }
      }
    }
  }

  /** Any infix `t` of a match-free string is match-free. */
  lemma {:induction false} UnbrokenInfix(p: Pattern, s: string, i: nat, j: nat, t: string)
    requires i <= j <= |s| && Unbroken(p, s) && t == s[i..j]
    ensures Unbroken(p, t)
  {
    forall k | 0 <= k < |t|
      ensures MatchLen(p, t[k..]) == 0
    {
      assert t[k..] + s[j..] == s[i + k..];
      if MatchLen(p, t[k..]) > 0 {
        MatchExtends(p, t[k..], s[j..]);
        assert false;
      }
    }
  }

  /** A match-free string is not split at all. */
  lemma {:induction false} SplitUnbroken(p: Pattern, s: string)
    requires Unbroken(p, s)
    ensures Split(p, s) == [s]
    decreases |s|
  {
    if |s| > 0 {
      assert s[0..] == s;
      UnbrokenInfix(p, s, 1, |s|, s[1..]);
      SplitUnbroken(p, s[1..]);
      assert [s[0]] + s[1..] == s;
    }
  }

  lemma {:induction false} UnbrokenAnyOf(cs: set<char>, s: string)
    ensures Unbroken(AnyOf(cs), s) <==> Avoids(s, cs)
  {
    if Unbroken(AnyOf(cs), s) {
      forall k | 0 <= k < |s|
        ensures s[k] !in cs
      {
        assert s[k..][0] == s[k];
      }
    }
    if Avoids(s, cs) {
      forall k | 0 <= k < |s|
        ensures MatchLen(AnyOf(cs), s[k..]) == 0
      {
        assert s[k..][0] == s[k];
      }
    }
  }

  /** Splitting at a separator splits the two sides independently. */
  lemma {:induction false} SplitAtSeparator(cs: set<char>, a: string, d: char, b: string)
    requires d in cs
    ensures Split(AnyOf(cs), a + [d] + b) == Split(AnyOf(cs), a) + Split(AnyOf(cs), b)
    decreases |a|
  {
    var p := AnyOf(cs);
    var s := a + [d] + b;
    if |a| == 0 {
      assert s == [d] + b;
      assert s[1..] == b;
    } else if a[0] in cs {
      assert s[1..] == a[1..] + [d] + b;
      SplitAtSeparator(cs, a[1..], d, b);
    } else {
      assert s[1..] == a[1..] + [d] + b;
      SplitAtSeparator(cs, a[1..], d, b);
    }
  }

  /** `c.join(s.split(c)) == s`. */
  lemma {:induction false} JoinSplit(c: char, s: string)
    ensures Join(Split(AnyOf({c}), s), [c]) == s
    decreases |s|
  {
    var p := AnyOf({c});
    if |s| > 0 {
      JoinSplit(c, s[1..]);
      var rest := Split(p, s[1..]);
      if s[0] == c {
        assert Split(p, s) == [[]] + rest;
        assert Join([[]] + rest, [c]) == [] + [c] + Join(rest, [c]);
      } else {
        var r := Split(p, s);
        assert r == [[s[0]] + rest[0]] + rest[1..];
        if |rest| == 1 {
          assert r == [[s[0]] + rest[0]];
        } else {
          assert r[1..] == rest[1..];
          assert Join(rest, [c]) == rest[0] + [c] + Join(rest[1..], [c]);
        }
      }
    }
  }

  /** `"c".join(parts).split(c) == parts` when no part contains `c`. */
  lemma {:induction false} SplitJoin(c: char, parts: seq<string>)
    requires |parts| >= 1
    requires forall i :: 0 <= i < |parts| ==> c !in parts[i]
    ensures Split(AnyOf({c}), Join(parts, [c])) == parts
    decreases |parts|
  {
    var p := AnyOf({c});
    assert Split(p, parts[0]) == [parts[0]] by {
      assert Avoids(parts[0], {c});
      UnbrokenAnyOf({c}, parts[0]);
      SplitUnbroken(p, parts[0]);
    }
    if |parts| > 1 {
      var tail := Join(parts[1..], [c]);
      assert Join(parts, [c]) == parts[0] + [c] + tail;
      assert Split(p, tail) == parts[1..] by {
        assert forall i :: 0 <= i < |parts[1..]| ==> c !in parts[1..][i];
        SplitJoin(c, parts[1..]);
      }
      SplitAtSeparator({c}, parts[0], c, tail);
      assert parts == [parts[0]] + parts[1..];
    }
  }

  /** Where no match starts, `Sub` copies the first character and carries on. */
  lemma {:induction false} SubNoMatch(p: Pattern, s: string, rep: string)
    requires |s| > 0 && MatchLen(p, s) == 0
    ensures Sub(p, s, rep) == [s[0]] + Sub(p, s[1..], rep)
  {
  }

  /** One step of `SubSkipFrom`: a copied first character extends the copied prefix. */
  lemma {:induction false} SubSkipStep(p: Pattern, s: string, n: nat, rep: string)
    requires 0 < n <= |s| && MatchLen(p, s) == 0
    requires Sub(p, s[1..], rep) == s[1..][..n - 1] + Sub(p, s[n..], rep)
    ensures Sub(p, s, rep) == s[..n] + Sub(p, s[n..], rep)
  {
    var u, rest := s[1..][..n - 1], Sub(p, s[n..], rep);
    SubNoMatch(p, s, rep);
    assert Sub(p, s, rep) == [s[0]] + (u + rest);
    ConcatAssoc([s[0]], u, rest);
    HeadPrefix(s, n);
  }

  /** Slices of the suffix `s[j..]`, written as slices of `s`. */
  lemma SuffixSlices<T>(s: seq<T>, j: nat, n: nat)
    requires j < n <= |s|
    ensures s[j..][1..] == s[j + 1..] && s[j..][1..][..n - j - 1] == s[j + 1..n]
    ensures s[j..][n - j..] == s[n..] && s[j..][..n - j] == s[j..n]
  {
  }

  /** `Sub` copies through the characters from `j` up to `n` of `s` when no match starts at any of them. */
  lemma {:induction false} SubSkipFrom(p: Pattern, s: string, n: nat, j: nat, rep: string)
    requires j <= n <= |s|
    requires forall k :: j <= k < n ==> MatchLen(p, s[k..]) == 0
    ensures Sub(p, s[j..], rep) == s[j..n] + Sub(p, s[n..], rep)
    decreases n - j
  {
    if j < n {
      SubSkipFrom(p, s, n, j + 1, rep);
      var t := s[j..];
      assert MatchLen(p, t) == 0;
      SuffixSlices(s, j, n);
      SubSkipStep(p, t, n - j, rep);
    } else {
      assert s[j..n] == [];
    }
  }

  /** Text that starts no match is copied through unchanged by `Sub`. */
  lemma {:induction false} SubSkip(p: Pattern, a: string, b: string, rep: string)
    requires forall k :: 0 <= k < |a| ==> MatchLen(p, (a + b)[k..]) == 0
    ensures Sub(p, a + b, rep) == a + Sub(p, b, rep)
  {
    SubSkipFrom(p, a + b, |a|, 0, rep);
    assert (a + b)[0..] == a + b && (a + b)[0..|a|] == a && (a + b)[|a|..] == b;
  }

  /** A match-free string is left as it is by `Sub`. */
  lemma {:induction false} SubUnbroken(p: Pattern, s: string, rep: string)
    requires Unbroken(p, s)
    ensures Sub(p, s, rep) == s
  {
    assert s + [] == s;
    SubSkip(p, s, [], rep);
  }

  /** A literal cannot match where its first character is absent. */
  lemma {:induction false} LiteralAbsent(t: string, a: string, b: string)
    requires |t| > 0 && t[0] !in a
    ensures forall k :: 0 <= k < |a| ==> MatchLen(Literal(t), (a + b)[k..]) == 0
  {
    forall k | 0 <= k < |a|
      ensures MatchLen(Literal(t), (a + b)[k..]) == 0
    {
      assert (a + b)[k..][0] == a[k];
    }
  }

  /** Replacing every character of `cs` by a text without one leaves none. */
  lemma {:induction false} SubAvoids(cs: set<char>, s: string, rep: string)
    requires Avoids(rep, cs)
    ensures Avoids(Sub(AnyOf(cs), s, rep), cs)
    decreases |s|
  {
    if |s| > 0 {
      SubAvoids(cs, s[1..], rep);
      if s[0] !in cs {
        assert Avoids([s[0]] + Sub(AnyOf(cs), s[1..], rep), cs);
      } else {
        assert Avoids(rep + Sub(AnyOf(cs), s[1..], rep), cs);
      }
    }
  }

  /** `Sub` brings in no character that neither the text nor the replacement has. */
  lemma {:induction false} SubKeepsAvoids(p: Pattern, s: string, rep: string, cs: set<char>)
    requires Avoids(s, cs) && Avoids(rep, cs)
    ensures Avoids(Sub(p, s, rep), cs)
  {
    var r := Sub(p, s, rep);
    SubChars(p, s, rep);
    forall i | 0 <= i < |r|
      ensures r[i] !in cs
    {
      if r[i] in s {
        var j :| 0 <= j < |s| && s[j] == r[i];
      } else {
        var j :| 0 <= j < |rep| && rep[j] == r[i];
      }
    }
  }

  /** Replacing single characters by one character works position by position. */
  lemma {:induction false} SubEachChar(cs: set<char>, s: string, rep: string)
    requires |rep| == 1
    ensures |Sub(AnyOf(cs), s, rep)| == |s|
    ensures forall i :: 0 <= i < |s| ==> Sub(AnyOf(cs), s, rep)[i] == (if s[i] in cs then rep[0] else s[i])
    decreases |s|
  {
    if |s| > 0 {
      var r, t := Sub(AnyOf(cs), s, rep), Sub(AnyOf(cs), s[1..], rep);
      SubEachChar(cs, s[1..], rep);
      assert r == (if s[0] in cs then rep else [s[0]]) + t;
      forall i | 0 <= i < |s|
        ensures r[i] == (if s[i] in cs then rep[0] else s[i])
      {
        if i > 0 {
          assert r[i] == t[i - 1] && s[1..][i - 1] == s[i];
        }
      }
    }
  }
}
