/**
 * Choosing the number of the next output file. Two schemes are used: the
 * least positive number whose files do not exist yet (a probing loop), and
 * one more than the largest number parsed out of the names in a directory.
 * The file system is a finite set of the numbers whose files exist, or the
 * list of names in the directory.
 */
module Numbering {
  import opened Wrappers
  import opened Text
  import opened Patterns

  /**
   * The probing loop: start at 1 and step up while the number is taken.
   * The result is the least number from 1 on that is not taken.
   */
  method LeastFree(taken: set<int>) returns (i: int)
    ensures i >= 1 && i !in taken
    ensures forall j :: 1 <= j < i ==> j in taken
  {
    ghost var ahead := taken;
    i := 1;
    while i in taken
      invariant i >= 1
      invariant forall j :: 1 <= j < i ==> j in taken
      invariant forall j :: j in taken && j >= i ==> j in ahead
      decreases |ahead|
    {
      ahead := ahead - {i};
      i := i + 1;
    }
  }

  /**
   * `get_next_number()` of `create_final_videos.py`: the least `i >= 1` for
   * which `final_i.mp4` does not exist.
   */
  method NextFinalFileNumber(finals: set<int>) returns (i: int)
    ensures i >= 1 && i !in finals
    ensures forall j :: 1 <= j < i ==> j in finals
  {
    i := LeastFree(finals);
  }

  /**
   * `get_next_story_number()`: the least `i >= 1` for which neither
   * `story_i.txt` nor `captions_i.srt` exists.
   */
  method NextStoryNumber(stories: set<int>, captions: set<int>) returns (i: int)
    ensures i >= 1 && i !in stories && i !in captions
    ensures forall j :: 1 <= j < i ==> j in stories || j in captions
  {
    i := LeastFree(stories + captions);
    assert forall j :: j in stories + captions ==> j in stories || j in captions;
  }

  /** The largest element of a non-empty list. */
  function Max(nums: seq<int>): (m: int)
    requires |nums| > 0
    ensures m in nums && forall k :: 0 <= k < |nums| ==> nums[k] <= m
  {
    if |nums| == 1 then nums[0]
    else
      var rest := Max(nums[1..]);
      assert forall k :: 1 <= k < |nums| ==> nums[k] == nums[1..][k - 1];
      if nums[0] >= rest then nums[0] else rest
  }

  /**
   * `max(nums) + 1 if nums else 1`: above every number in the list, and
   * either one more than a number of the list or, for an empty list, 1.
   */
  function NextAfter(nums: seq<int>): (r: int)
    ensures forall k :: 0 <= k < |nums| ==> nums[k] < r
    ensures |nums| == 0 ==> r == 1
    ensures |nums| > 0 ==> r - 1 in nums
  {
    if |nums| == 0 then 1 else Max(nums) + 1
  }

  /** Only the defining properties matter: they determine the result. */
  lemma {:induction false} NextAfterUnique(nums: seq<int>, r: int)
    requires forall k :: 0 <= k < |nums| ==> nums[k] < r
    requires |nums| == 0 ==> r == 1
    requires |nums| > 0 ==> r - 1 in nums
    ensures r == NextAfter(nums)
  {
    if |nums| > 0 {
      var k :| 0 <= k < |nums| && nums[k] == r - 1;
      assert nums[k] < NextAfter(nums);
      var m :| 0 <= m < |nums| && nums[m] == NextAfter(nums) - 1;
      assert nums[m] < r;
    }
  }

  function StartsWith(s: string, prefix: string): bool {
    |prefix| <= |s| && s[..|prefix|] == prefix
  }

  function EndsWith(s: string, suffix: string): bool {
    |suffix| <= |s| && s[|s| - |suffix|..] == suffix
  }

  /**
   * Python's `f[len(prefix):-len(suffix)]` for a name `f` that ends with
   * the suffix. `-0` is `0`, so an empty suffix leaves nothing; an end
   * before the start leaves nothing too.
   */
  function Middle(f: string, prefix: string, suffix: string): (r: string)
    requires |suffix| <= |f|
    ensures |suffix| == 0 ==> r == []
    ensures |suffix| > 0 && |prefix| <= |f| - |suffix| ==> r == f[|prefix|..|f| - |suffix|]
    ensures |suffix| > 0 && |prefix| > |f| - |suffix| ==> r == []
  {
    var hi := if |suffix| == 0 then 0 else |f| - |suffix|;
    if |prefix| < hi then f[|prefix|..hi] else []
  }

  /** How a directory entry's number is written in its name. */
  datatype Naming =
    | Affixed(prefix: string, suffix: string)   // `<prefix><n><suffix>`, as in `generate_captions.py`
    | FinalVideo                                // `final_<n>[_...].mp4`, as in `create_final_videos.py`

  /**
   * The number an entry stands for, if any. `Affixed`: the entry starts with
   * the prefix and ends with the suffix, and what lies between parses as an
   * integer. `FinalVideo`: the entry starts with `final_` and ends with
   * `.mp4`; every `final_` and `.mp4` in it is removed, and the part before
   * the first `_` of what is left parses as an integer.
   */
  function EntryNumber(naming: Naming, f: string): (r: Option<int>)
    ensures naming.Affixed? && r.Some? ==> StartsWith(f, naming.prefix) && EndsWith(f, naming.suffix)
    ensures naming.FinalVideo? && r.Some? ==> StartsWith(f, "final_") && EndsWith(f, ".mp4")
  {
    match naming
    case Affixed(prefix, suffix) =>
      if StartsWith(f, prefix) && EndsWith(f, suffix) then ParseInt(Middle(f, prefix, suffix)) else None
    case FinalVideo =>
      if StartsWith(f, "final_") && EndsWith(f, ".mp4") then
        var parts := Split(AnyOf({'_'}), Sub(Literal(".mp4"), Sub(Literal("final_"), f, ""), ""));
        ParseInt(parts[0])
      else None
  }

  /** The numbers present in a list of parse results, in order. */
  function Present(parsed: seq<Option<int>>): (nums: seq<int>)
    ensures forall k :: 0 <= k < |nums| ==> Some(nums[k]) in parsed
    ensures forall i :: 0 <= i < |parsed| && parsed[i].Some? ==> parsed[i].value in nums
  {
    if |parsed| == 0 then []
    else
      var rest := Present(parsed[1..]);
      assert forall i :: 1 <= i < |parsed| ==> parsed[i] == parsed[1..][i - 1];
      if parsed[0].Some? then [parsed[0].value] + rest else rest
  }

  /** The parse result of every entry, in directory order. */
  function Entries(naming: Naming, names: seq<string>): (r: seq<Option<int>>)
    ensures |r| == |names|
  {
    if |names| == 0 then [] else [EntryNumber(naming, names[0])] + Entries(naming, names[1..])
  }

  /**
   * What the next free number is for a list of parse results: above every
   * number present, 1 when none is, and otherwise one more than a present
   * number.
   */
  predicate NextFor(parsed: seq<Option<int>>, r: int) {
    && (forall i :: 0 <= i < |parsed| && parsed[i].Some? ==> parsed[i].value < r)
    && ((forall i :: 0 <= i < |parsed| ==> parsed[i].None?) ==> r == 1)
    && ((exists i :: 0 <= i < |parsed| && parsed[i].Some?) ==> Some(r - 1) in parsed)
  }

  /** One more than the largest number present, or 1, is the next number. */
  lemma {:induction false} NextAfterPresent(parsed: seq<Option<int>>)
    ensures NextFor(parsed, NextAfter(Present(parsed)))
  {
    var nums := Present(parsed);
    if i :| 0 <= i < |parsed| && parsed[i].Some? {
      assert parsed[i].value in nums;
      var k :| 0 <= k < |nums| && nums[k] == NextAfter(nums) - 1;
      assert Some(nums[k]) in parsed;
    }
  }

  /**
   * `get_next_number(directory, prefix, suffix)` of `generate_captions.py`,
   * and the `next_num` computation of `create_final_videos.py`, over the
   * directory's list of names: above the number of every entry, 1 when no
   * entry has a number, and otherwise one more than the number of some
   * entry, so one more than the largest. In particular no entry stands for it.
   */
  function NextNumber(naming: Naming, names: seq<string>): (r: int)
    ensures NextFor(Entries(naming, names), r)
  {
    NextAfterPresent(Entries(naming, names));
    NextAfter(Present(Entries(naming, names)))
  }

  lemma {:induction false} EntriesAt(naming: Naming, names: seq<string>, i: nat)
    requires i < |names|
    ensures Entries(naming, names)[i] == EntryNumber(naming, names[i])
    decreases i
  {
    if i > 0 {
      EntriesAt(naming, names[1..], i - 1);
    }
  }

  /** With an empty suffix no entry has a number, so the next number is always 1. */
  lemma {:induction false} EmptySuffixGivesOne(names: seq<string>, prefix: string)
    ensures NextNumber(Affixed(prefix, ""), names) == 1
  {
    var parsed := Entries(Affixed(prefix, ""), names);
    forall i | 0 <= i < |names|
      ensures parsed[i].None?
    {
      EntriesAt(Affixed(prefix, ""), names, i);
      assert Strip("") == [];
    }
    NextAfterPresent(parsed);
  }

  /**
   * A name `<prefix><n><suffix>` with a non-empty suffix stands for `n`: the
   * numbers written with a scheme are read back by it.
   */
  lemma {:induction false} AffixedReadBack(prefix: string, suffix: string, n: nat)
    requires |suffix| > 0
    ensures EntryNumber(Affixed(prefix, suffix), prefix + Decimal(n) + suffix) == Some(n)
  {
    var d := Decimal(n);
    var f := prefix + d + suffix;
    assert f[..|prefix|] == prefix;
    assert f[|f| - |suffix|..] == suffix;
    assert f[|prefix|..|f| - |suffix|] == d;
    ParseDecimal(n);
  }

  /** No digit is `f`, `.` or `_`. */
  lemma {:induction false} DigitsAvoid(d: string)
    requires IsAllDigits(d)
    ensures Avoids(d, {'f', '.', '_'})
  {
    forall k | 0 <= k < |d|
      ensures d[k] !in {'f', '.', '_'}
    {
      assert IsDigit(d[k]);
    }
  }

  /** `.replace("final_", "")` on `final_` followed by text without an `f`. */
  lemma {:induction false} DropFinalPrefix(x: string)
    requires 'f' !in x
    ensures Sub(Literal("final_"), "final_" + x, "") == x
  {
    var f := "final_" + x;
    assert f[..6] == "final_";
    assert f[6..] == x;
    LiteralAbsent("final_", x, []);
    assert x + [] == x;
    SubSkip(Literal("final_"), x, [], "");
  }

  /** `.replace(".mp4", "")` on text without a `.` followed by `.mp4`. */
  lemma {:induction false} DropMp4Suffix(y: string)
    requires '.' !in y
    ensures Sub(Literal(".mp4"), y + ".mp4", "") == y
  {
    LiteralAbsent(".mp4", y, ".mp4");
    SubSkip(Literal(".mp4"), y, ".mp4", "");
    assert ".mp4"[..4] == ".mp4";
    assert ".mp4"[4..] == [];
  }

  /** `.split("_")[0]` of a text whose first `_` follows `d`. */
  lemma {:induction false} FirstField(d: string, rest: string)
    requires '_' !in d
    ensures Split(AnyOf({'_'}), d + ['_'] + rest)[0] == d
  {
    SplitAtSeparator({'_'}, d, '_', rest);
    UnbrokenAnyOf({'_'}, d);
    SplitUnbroken(AnyOf({'_'}), d);
  }

  /** The characters a name `final_<d>_<rest>.mp4` needs to be read as `d`. */
  lemma {:induction false} FinalNameChars(d: string, rest: string)
    requires Avoids(d, {'f', '.', '_'}) && Avoids(rest, {'f', '.'})
    ensures '_' !in d && '.' !in d + ['_'] + rest && 'f' !in d + ['_'] + rest + ".mp4"
  {
    var y := d + ['_'] + rest;
    assert forall k :: 0 <= k < |y| ==> y[k] != '.' && y[k] != 'f' by {
      forall k | 0 <= k < |y|
        ensures y[k] != '.' && y[k] != 'f'
      {
        if k > |d| {
          assert y[k] == rest[k - |d| - 1];
        }
      }
    }
    var x := y + ".mp4";
    assert forall k :: 0 <= k < |x| ==> x[k] != 'f' by {
      forall k | 0 <= k < |x|
        ensures x[k] != 'f'
      {
        if k >= |y| {
          assert x[k] == ".mp4"[k - |y|];
        }
      }
    }
  }

  /** `final_<x>.mp4` starts with `final_` and ends with `.mp4`. */
  lemma {:induction false} FinalAffixes(y: string)
    ensures StartsWith("final_" + (y + ".mp4"), "final_") && EndsWith("final_" + (y + ".mp4"), ".mp4")
  {
    var f := "final_" + (y + ".mp4");
    assert f[..6] == "final_";
    assert f[|f| - 4..] == ".mp4";
  }

  /** How a name with the `final_` prefix and `.mp4` suffix is read. */
  lemma {:induction false} FinalEntryOf(f: string)
    requires StartsWith(f, "final_") && EndsWith(f, ".mp4")
    ensures EntryNumber(FinalVideo, f)
      == ParseInt(Split(AnyOf({'_'}), Sub(Literal(".mp4"), Sub(Literal("final_"), f, ""), ""))[0])
  {
  }

  /**
   * A name `final_<d>_<rest>.mp4`, where neither `d` nor `rest` holds an `f`
   * or a `.` and `d` holds no `_`, stands for what `d` parses as.
   */
  lemma {:induction false} FinalEntry(d: string, rest: string)
    requires Avoids(d, {'f', '.', '_'}) && Avoids(rest, {'f', '.'})
    ensures EntryNumber(FinalVideo, "final_" + (d + ['_'] + rest + ".mp4")) == ParseInt(d)
  {
    var y := d + ['_'] + rest;
    FinalNameChars(d, rest);
    FinalAffixes(y + ".mp4");
    DropFinalPrefix(y + ".mp4");
    DropMp4Suffix(y);
    FirstField(d, rest);
    FinalEntryOf("final_" + (y + ".mp4"));
  }

  /**
   * The name `final_<n>_story_<s>.mp4` that `create_final_videos.py` gives
   * a new video, with `s` the story's digits, stands for `n`.
   */
  lemma {:induction false} FinalVideoReadBack(n: nat, story: string)
    requires IsAllDigits(story)
    ensures EntryNumber(FinalVideo, "final_" + Decimal(n) + "_story_" + story + ".mp4") == Some(n)
  {
    var d, rest := Decimal(n), "story_" + story;
    assert "final_" + Decimal(n) + "_story_" + story + ".mp4" == "final_" + (d + ['_'] + rest + ".mp4");
    DigitsAvoid(d);
    DigitsAvoid(story);
    assert Avoids(rest, {'f', '.'});
    FinalEntry(d, rest);
    ParseDecimal(n);
  }
}
