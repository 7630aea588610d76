/**
 * SubRip documents as the pipeline writes and reads them. A record is four
 * lines: its number, its timing line, its text and an empty separator line.
 * The reader keeps, in order, the stripped lines that are neither empty, nor
 * all digits, nor begin with a timing line; that is all it needs to recover
 * the texts of a document the pipeline wrote.
 */
module SrtDocument {
  import opened Text
  import opened Patterns
  import opened SrtTime
  import opened Segments

  /** One written record: its number, its timing line and its text. */
  datatype Record = Record(number: nat, timing: string, text: string)

  /** The record written for a segment, its times rendered as a timing line. */
  function ToRecord(seg: Segment): Record {
    Record(seg.index, TimestampLine(seg.start, seg.end), seg.text)
  }

  function Records(segs: seq<Segment>): (r: seq<Record>)
    ensures |r| == |segs| && forall i :: 0 <= i < |segs| ==> r[i] == ToRecord(segs[i])
  {
    seq(|segs|, i requires 0 <= i < |segs| => ToRecord(segs[i]))
  }

  /** The four lines of one record. */
  function RecordLines(rec: Record): seq<string> {
    [Decimal(rec.number), rec.timing, rec.text, ""]
  }

  /** The lines of all records, in order. */
  function Lines(recs: seq<Record>): (r: seq<string>)
    ensures |r| == 4 * |recs|
  {
    if |recs| == 0 then [] else RecordLines(recs[0]) + Lines(recs[1..])
  }

  /** Record `i` occupies lines `4i` to `4i + 3`: its number, its timing line, its text, an empty line. */
  lemma {:induction false} LinesAt(recs: seq<Record>, i: nat)
    requires i < |recs|
    ensures Lines(recs)[4 * i] == Decimal(recs[i].number)
    ensures Lines(recs)[4 * i + 1] == recs[i].timing
    ensures Lines(recs)[4 * i + 2] == recs[i].text
    ensures Lines(recs)[4 * i + 3] == ""
    decreases i
  {
    if i > 0 {
      var rest := Lines(recs[1..]);
      var j := 4 * (i - 1);
      LinesAt(recs[1..], i - 1);
      assert recs[1..][i - 1] == recs[i];
      assert Lines(recs) == RecordLines(recs[0]) + rest;
      ShiftedAt(RecordLines(recs[0]), rest, j);
      assert 4 * i == j + 4;
    } else {
      assert Lines(recs) == RecordLines(recs[0]) + Lines(recs[1..]);
    }
  }

  /** Lines `j` to `j + 3` after one record's four lines. */
  lemma {:induction false} ShiftedAt(head: seq<string>, rest: seq<string>, j: nat)
    requires |head| == 4 && j + 3 < |rest|
    ensures (head + rest)[j + 4] == rest[j] && (head + rest)[j + 5] == rest[j + 1]
    ensures (head + rest)[j + 6] == rest[j + 2] && (head + rest)[j + 7] == rest[j + 3]
  {
  }

  /** The record texts, in order. */
  function RecordTexts(recs: seq<Record>): (r: seq<string>)
    ensures |r| == |recs| && forall i :: 0 <= i < |recs| ==> r[i] == recs[i].text
  {
    seq(|recs|, i requires 0 <= i < |recs| => recs[i].text)
  }

  /** A line the reader keeps: not empty, not all digits, not a timing line. */
  predicate IsTextLine(line: string) {
    line != [] && !IsAllDigits(line) && !StartsWithTimestampRange(line)
  }

  /** What the filter keeps of one raw line: the stripped line, if it is a text line. */
  function Kept(line: string): (r: seq<string>)
    ensures r == [] || r == [Strip(line)]
  {
    var l := Strip(line);
    if IsTextLine(l) then [l] else []
  }

  /** The reader's filter over the raw lines, each stripped first. */
  function KeepText(lines: seq<string>): seq<string> {
    FlatMap(Kept, lines)
  }

  /** A kept line is one of the stripped raw lines, and it passes the filter. */
  lemma {:induction false} KeepTextFrom(lines: seq<string>)
    ensures forall x :: x in KeepText(lines) ==>
      IsTextLine(x) && IsTrimmed(x) && exists i :: 0 <= i < |lines| && x == Strip(lines[i])
  {
    FlatMapFrom(Kept, lines);
    forall x | x in KeepText(lines)
      ensures IsTextLine(x) && IsTrimmed(x) && exists i :: 0 <= i < |lines| && x == Strip(lines[i])
    {
      var i :| 0 <= i < |lines| && x in Kept(lines[i]);
      KeptLine(lines[i], x);
    }
  }

  lemma {:induction false} KeptLine(line: string, x: string)
    requires x in Kept(line)
    ensures x == Strip(line) && IsTextLine(x) && IsTrimmed(x)
  {
  }

  /** Every stripped raw line that passes the filter is kept. */
  lemma {:induction false} KeepTextAll(lines: seq<string>)
    ensures forall i :: 0 <= i < |lines| && IsTextLine(Strip(lines[i])) ==> Strip(lines[i]) in KeepText(lines)
  {
    FlatMapAll(Kept, lines);
    forall i | 0 <= i < |lines| && IsTextLine(Strip(lines[i]))
      ensures Strip(lines[i]) in KeepText(lines)
    {
      assert Strip(lines[i]) in Kept(lines[i]);
    }
  }

  /** The filter of a line in front of others. */
  lemma {:induction false} KeepCons(l: string, rest: seq<string>)
    ensures KeepText([l] + rest) == Kept(l) + KeepText(rest)
  {
    assert ([l] + rest)[0] == l && ([l] + rest)[1..] == rest;
  }

  lemma {:induction false} KeepTextAppend(a: seq<string>, b: seq<string>)
    ensures KeepText(a + b) == KeepText(a) + KeepText(b)
  {
    FlatMapAppend(Kept, a, b);
  }

  /**
   * What a text-mode read returns for a file's characters: with universal
   * newlines, "\r\n" and a lone '\r' both become '\n'. The result holds no
   * '\r', text without one comes back unchanged, and blank text stays blank.
   */
  function ReadText(raw: string): (r: string)
    ensures '\r' !in r
    ensures '\r' !in raw ==> r == raw
    ensures IsBlank(raw) ==> IsBlank(r)
    decreases |raw|
  {
    if |raw| == 0 then []
    else if raw[0] == '\r' then
      "\n" + ReadText(if |raw| > 1 && raw[1] == '\n' then raw[2..] else raw[1..])
    else [raw[0]] + ReadText(raw[1..])
  }

  /** A character other than '\r' is read as itself. */
  lemma {:induction false} ReadTextCons(c: char, rest: string)
    requires c != '\r'
    ensures ReadText([c] + rest) == [c] + ReadText(rest)
  {
    assert ([c] + rest)[0] == c && ([c] + rest)[1..] == rest;
  }

  /** Text without a '\r' in front of the rest is read as itself. */
  lemma {:induction false} ReadTextAppend(a: string, b: string)
    requires '\r' !in a
    ensures ReadText(a + b) == a + ReadText(b)
    decreases |a|
  {
    if |a| == 0 {
      assert a + b == b;
    } else {
      var c, t := a[0], a[1..];
      assert a == [c] + t && a + b == [c] + (t + b) && c in a;
      ReadTextAppend(t, b);
      ReadTextCons(c, t + b);
      ConcatAssoc([c], t, ReadText(b));
    }
  }

  /** A "\r\n" and a lone '\r' are both read as one newline. */
  lemma {:induction false} ReadLineEnd(rest: string)
    ensures ReadText("\r\n" + rest) == "\n" + ReadText(rest)
    ensures (rest == [] || rest[0] != '\n') ==> ReadText("\r" + rest) == "\n" + ReadText(rest)
  {
    assert ("\r\n" + rest)[2..] == rest;
    assert ("\r" + rest)[1..] == rest;
  }

  /**
   * The text lines of an SRT document (`create_final_videos.py`): the file
   * is read in text mode, stripped, split at newlines, and filtered. None
   * of them is blank, all digits, a timing line, or holds a line break.
   */
  function ExtractTextLines(content: string): (r: seq<string>)
    ensures forall i :: 0 <= i < |r| ==>
      IsTextLine(r[i]) && IsTrimmed(r[i]) && '\n' !in r[i] && '\r' !in r[i]
  {
    var read := Strip(ReadText(content));
    var lines := Split(AnyOf({'\n'}), read);
    var r := KeepText(lines);
    KeepTextFrom(lines);
    StripAvoids(ReadText(content), {'\r'});
    SplitLinesAvoid(read);
    KeepTextAvoids(lines, {'\n', '\r'});
    assert forall i :: 0 <= i < |r| ==> r[i] in r;
    r
  }

  /** Stripping keeps a text free of the characters it was free of. */
  lemma {:induction false} StripAvoids(s: string, cs: set<char>)
    requires Avoids(s, cs)
    ensures Avoids(Strip(s), cs)
  {
    var t := Strip(s);
    forall k | 0 <= k < |t|
      ensures t[k] !in cs
    {
      assert t[k] == s[StripOffset(s) + k];
    }
  }

  /** Text without a '\r' splits at newlines into lines with no line break. */
  lemma {:induction false} SplitLinesAvoid(s: string)
    requires Avoids(s, {'\r'})
    ensures forall j :: 0 <= j < |Split(AnyOf({'\n'}), s)| ==> Avoids(Split(AnyOf({'\n'}), s)[j], {'\n', '\r'})
  {
    var lines := Split(AnyOf({'\n'}), s);
    SplitPiecesUnbroken(AnyOf({'\n'}), s);
    SplitCharsFrom(AnyOf({'\n'}), s);
    forall j | 0 <= j < |lines|
      ensures Avoids(lines[j], {'\n', '\r'})
    {
      UnbrokenAnyOf({'\n'}, lines[j]);
    }
  }

  /** Lines without a character of `cs` keep none after the filter. */
  lemma {:induction false} KeepTextAvoids(lines: seq<string>, cs: set<char>)
    requires forall j :: 0 <= j < |lines| ==> Avoids(lines[j], cs)
    ensures forall x :: x in KeepText(lines) ==> Avoids(x, cs)
  {
    KeepTextFrom(lines);
    forall x | x in KeepText(lines)
      ensures Avoids(x, cs)
    {
      var j :| 0 <= j < |lines| && x == Strip(lines[j]);
      StripAvoids(lines[j], cs);
    }
  }

  /**
   * The narration sent to speech synthesis: the text lines joined by single
   * spaces, which makes it one line.
   */
  function NarrationText(content: string): (r: string)
    ensures '\n' !in r
  {
    var lines := ExtractTextLines(content);
    JoinAvoids(lines, " ", {'\n'});
    Join(lines, " ")
  }

  /** A text the reader gives back intact. */
  predicate ReadableText(text: string) {
    IsTextLine(text) && IsTrimmed(text) && '\n' !in text && '\r' !in text
  }

  /** A well-formed 29-character timing line. */
  predicate IsTimingLine(line: string) {
    |line| == 29 && StartsWithTimestampRange(line)
  }

  /** A record the reader gives back intact: a timing line and a readable text. */
  predicate Readable(rec: Record) {
    IsTimingLine(rec.timing) && ReadableText(rec.text)
  }

  /** A timing line is trimmed, not all digits, and has no newline. */
  lemma {:induction false} TimingLineShape(line: string)
    requires IsTimingLine(line)
    ensures line != [] && IsTrimmed(line) && !IsAllDigits(line) && '\n' !in line && '\r' !in line
  {
    assert !IsDigit(line[2]);
    assert line[12..17] == " --> ";
    forall k | 0 <= k < |line|
      ensures line[k] != '\n' && line[k] != '\r'
    {
      if 12 <= k < 17 {
        assert line[k] == line[12..17][k - 12];
      }
    }
  }

  /** Segments whose times are in clock range and whose texts are readable give readable records. */
  lemma {:induction false} ReadableRecords(segs: seq<Segment>)
    requires forall i :: 0 <= i < |segs| ==>
      InClockRange(segs[i].start) && InClockRange(segs[i].end) && ReadableText(segs[i].text)
    ensures forall i :: 0 <= i < |segs| ==> Readable(Records(segs)[i])
    ensures RecordTexts(Records(segs)) == Texts(segs)
  {
    forall i | 0 <= i < |segs|
      ensures Readable(Records(segs)[i])
    {
      TimestampLineRecognised(segs[i].start, segs[i].end);
    }
  }

  /** A decimal number line is trimmed, has no newline, and is skipped. */
  lemma {:induction false} DecimalLineShape(n: nat)
    ensures Decimal(n) != [] && IsTrimmed(Decimal(n)) && '\n' !in Decimal(n) && '\r' !in Decimal(n)
    ensures Strip(Decimal(n)) == Decimal(n) && !IsTextLine(Decimal(n))
  {
    var d := Decimal(n);
    assert IsDigit(d[0]) && IsDigit(d[|d| - 1]);
    assert forall k :: 0 <= k < |d| ==> IsDigit(d[k]);
  }

  lemma SkipEmpty()
    ensures KeepText([""]) == []
  {
    assert Kept("") == [];
    assert [""][1..] == [];
  }

  /** The reader keeps exactly the text of a readable record. */
  lemma {:induction false} KeepRecord(rec: Record)
    requires Readable(rec)
    ensures KeepText(RecordLines(rec)) == [rec.text]
  {
    var n, t, x := Decimal(rec.number), rec.timing, rec.text;
    assert RecordLines(rec) == [n] + ([t] + ([x] + [""]));
    DecimalLineShape(rec.number);
    TimingLineShape(t);
    assert Kept(n) == [] && Kept(t) == [] && Kept(x) == [x];
    KeepCons(n, [t] + ([x] + [""]));
    KeepCons(t, [x] + [""]);
    KeepCons(x, [""]);
    SkipEmpty();
  }

  /** The texts of records in front of others. */
  lemma {:induction false} RecordTextsCons(recs: seq<Record>)
    requires |recs| > 0
    ensures RecordTexts(recs) == [recs[0].text] + RecordTexts(recs[1..])
  {
    var r, rest := RecordTexts(recs), RecordTexts(recs[1..]);
    forall i | 0 < i < |recs|
      ensures r[i] == rest[i - 1]
    {
      assert recs[1..][i - 1] == recs[i];
    }
  }

  lemma {:induction false} KeepLines(recs: seq<Record>)
    requires forall i :: 0 <= i < |recs| ==> Readable(recs[i])
    ensures KeepText(Lines(recs)) == RecordTexts(recs)
    decreases |recs|
  {
    if |recs| > 0 {
      KeepRecord(recs[0]);
      KeepLines(recs[1..]);
      KeepTextAppend(RecordLines(recs[0]), Lines(recs[1..]));
      RecordTextsCons(recs);
    }
  }

  /** No line of a readable record holds a line break. */
  lemma {:induction false} RecordAvoidsNewline(rec: Record)
    requires Readable(rec)
    ensures forall k :: 0 <= k < 4 ==> '\n' !in RecordLines(rec)[k] && '\r' !in RecordLines(rec)[k]
  {
    var ls := RecordLines(rec);
    forall k | 0 <= k < 4
      ensures '\n' !in ls[k] && '\r' !in ls[k]
    {
      if k == 0 {
        DecimalLineShape(rec.number);
      } else if k == 1 {
        TimingLineShape(rec.timing);
      } else if k == 3 {
        assert ls[k] == [];
      }
    }
  }

  lemma {:induction false} LinesAvoidNewline(recs: seq<Record>)
    requires forall i :: 0 <= i < |recs| ==> Readable(recs[i])
    ensures forall k :: 0 <= k < |Lines(recs)| ==> '\n' !in Lines(recs)[k] && '\r' !in Lines(recs)[k]
    decreases |recs|
  {
    if |recs| > 0 {
      var head, rest := RecordLines(recs[0]), Lines(recs[1..]);
      assert forall k :: 0 <= k < 4 ==> '\n' !in head[k] && '\r' !in head[k] by {
        RecordAvoidsNewline(recs[0]);
      }
      assert forall k :: 0 <= k < |rest| ==> '\n' !in rest[k] && '\r' !in rest[k] by {
        LinesAvoidNewline(recs[1..]);
      }
      var ls := Lines(recs);
      assert ls == head + rest;
      forall k | 0 <= k < |ls|
        ensures '\n' !in ls[k] && '\r' !in ls[k]
      {
        if k >= 4 {
          assert ls[k] == rest[k - 4];
        } else {
          assert ls[k] == head[k];
        }
      }
    }
  }

  /** The lines of records end with the last text and an empty line. */
  lemma {:induction false} LinesEnd(recs: seq<Record>)
    requires |recs| > 0
    ensures var ls := Lines(recs);
      ls == ls[..|ls| - 1] + [""] && ls[|ls| - 2] == recs[|recs| - 1].text
    decreases |recs|
  {
    if |recs| > 1 {
      LinesEnd(recs[1..]);
      var ls := Lines(recs);
      var rest := Lines(recs[1..]);
      assert ls == RecordLines(recs[0]) + rest;
      assert ls[|ls| - 2] == rest[|rest| - 2];
      assert ls[|ls| - 1] == rest[|rest| - 1];
    }
  }

  /** All lines of the records but the final empty one. */
  function Body(recs: seq<Record>): (r: seq<string>)
    requires |recs| > 0
    ensures |r| == 4 * |recs| - 1
  {
    Lines(recs)[..4 * |recs| - 1]
  }

  /** Records joined by newlines are their body, one more newline, and the tail. */
  lemma {:induction false} DocumentShape(recs: seq<Record>, tail: string)
    requires |recs| > 0
    ensures Join(Lines(recs), "\n") + tail == Join(Body(recs), "\n") + ("\n" + tail)
  {
    LinesEnd(recs);
    JoinAppend(Body(recs), [""], "\n");
  }

  /** Parts whose outer ends are not whitespace join into a trimmed text. */
  lemma {:induction false} JoinTrimmed(parts: seq<string>, sep: string)
    requires |parts| > 0 && parts[0] != [] && parts[|parts| - 1] != []
    requires !IsSpace(parts[0][0])
    requires !IsSpace(parts[|parts| - 1][|parts[|parts| - 1]| - 1])
    ensures Join(parts, sep) != [] && IsTrimmed(Join(parts, sep))
  {
    JoinFirst(parts, sep);
    JoinLast(parts, sep);
  }

  /** The body starts with a record number and ends with a trimmed text. */
  lemma {:induction false} BodyTrimmed(recs: seq<Record>)
    requires |recs| > 0 && forall i :: 0 <= i < |recs| ==> Readable(recs[i])
    ensures Join(Body(recs), "\n") != [] && IsTrimmed(Join(Body(recs), "\n"))
  {
    var body := Body(recs);
    assert body[0] != [] && !IsSpace(body[0][0]) by {
      DecimalLineShape(recs[0].number);
      assert body[0] == Lines(recs)[0] == Decimal(recs[0].number);
    }
    var last := body[|body| - 1];
    assert last != [] && !IsSpace(last[|last| - 1]) by {
      LinesEnd(recs);
      assert last == recs[|recs| - 1].text;
      assert Readable(recs[|recs| - 1]);
    }
    JoinTrimmed(body, "\n");
  }

  lemma {:induction false} BlankAfterNewline(tail: string)
    requires IsBlank(tail)
    ensures IsBlank("\n" + tail)
  {
    assert forall k :: 0 < k < |"\n" + tail| ==> ("\n" + tail)[k] == tail[k - 1];
  }

  /** The body's lines hold no newline and are read back as the texts. */
  lemma {:induction false} BodyLines(recs: seq<Record>)
    requires |recs| > 0 && forall i :: 0 <= i < |recs| ==> Readable(recs[i])
    ensures Split(AnyOf({'\n'}), Join(Body(recs), "\n")) == Body(recs)
    ensures KeepText(Body(recs)) == RecordTexts(recs)
  {
    var body := Body(recs);
    LinesEnd(recs);
    LinesAvoidNewline(recs);
    assert forall i :: 0 <= i < |body| ==> body[i] == Lines(recs)[i];
    SplitJoin('\n', body);
    KeepLines(recs);
    KeepTextAppend(body, [""]);
    SkipEmpty();
  }

  /** Records joined by newlines, then whitespace, strip and split into their body's lines. */
  lemma {:induction false} ReadLines(recs: seq<Record>, tail: string)
    requires |recs| > 0 && forall i :: 0 <= i < |recs| ==> Readable(recs[i])
    requires IsBlank(tail)
    ensures KeepText(Split(AnyOf({'\n'}), Strip(Join(Lines(recs), "\n") + tail))) == RecordTexts(recs)
  {
    DocumentShape(recs, tail);
    BlankAfterNewline(tail);
    BodyTrimmed(recs);
    StripBlankSuffix(Join(Body(recs), "\n"), "\n" + tail);
    BodyLines(recs);
  }

  /** The lines of readable records, joined by newlines, hold no '\r'. */
  lemma {:induction false} JoinedLinesAvoidReturn(recs: seq<Record>)
    requires forall i :: 0 <= i < |recs| ==> Readable(recs[i])
    ensures '\r' !in Join(Lines(recs), "\n")
  {
    LinesAvoidNewline(recs);
    JoinAvoids(Lines(recs), "\n", {'\r'});
    var j := Join(Lines(recs), "\n");
    assert forall k :: 0 <= k < |j| ==> j[k] != '\r';
  }

  /**
   * Reading records written as their lines joined by newlines, followed by
   * any whitespace, gives back the records' texts in order.
   */
  lemma {:induction false} ReadBack(recs: seq<Record>, tail: string)
    requires |recs| > 0 && forall i :: 0 <= i < |recs| ==> Readable(recs[i])
    requires IsBlank(tail)
    ensures ExtractTextLines(Join(Lines(recs), "\n") + tail) == RecordTexts(recs)
  {
    var j := Join(Lines(recs), "\n");
    JoinedLinesAvoidReturn(recs);
    ReadTextAppend(j, tail);
    ReadLines(recs, ReadText(tail));
  }

  /**
   * Segments with clock-range times and readable texts, written as records
   * joined by newlines, read back as their texts.
   */
  lemma {:induction false} SegmentsReadBack(segs: seq<Segment>)
    requires |segs| > 0
    requires forall i :: 0 <= i < |segs| ==>
      InClockRange(segs[i].start) && InClockRange(segs[i].end) && ReadableText(segs[i].text)
    ensures ExtractTextLines(Join(Lines(Records(segs)), "\n")) == Texts(segs)
  {
    var recs := Records(segs);
    ReadableRecords(segs);
    assert IsBlank("");
    ReadBack(recs, "");
    assert Join(Lines(recs), "\n") + "" == Join(Lines(recs), "\n");
  }
}
