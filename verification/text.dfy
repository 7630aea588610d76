/**
 * Character classes and the Python string operations the caption pipeline
 * relies on: `str.strip`, `str.isdigit`, `str.join`, decimal rendering with
 * zero padding (`f"{n:02d}"`) and `int(...)` parsing. Whitespace and digits
 * are the ASCII ones.
 */
module Text {
  import opened Wrappers

  /** Whitespace as understood by `str.strip()` and by the regex class `\s`. */
  predicate IsSpace(c: char) {
    c == ' ' || c == '\t' || c == '\n' || c == '\r' || c == '\U{B}' || c == '\U{C}'
  }

  predicate IsDigit(c: char) {
    '0' <= c <= '9'
  }

  /** `str.isdigit()`: non-empty and made of digits only. */
  predicate IsAllDigits(s: string) {
    |s| > 0 && forall i :: 0 <= i < |s| ==> IsDigit(s[i])
  }

  predicate IsBlank(s: string) {
    forall i :: 0 <= i < |s| ==> IsSpace(s[i])
  }

  /** No whitespace at either end. */
  predicate IsTrimmed(s: string) {
    |s| == 0 || (!IsSpace(s[0]) && !IsSpace(s[|s| - 1]))
  }

  /** Every character of `t` occurs somewhere in `s`. */
  predicate CharsFrom(t: string, s: string) {
    forall i :: 0 <= i < |t| ==> t[i] in s
  }

  /** No character of `s` belongs to `cs`. */
  predicate Avoids(s: string, cs: set<char>) {
    forall i :: 0 <= i < |s| ==> s[i] !in cs
  }

  lemma {:induction false} InfixCharsFrom(s: string, i: nat, j: nat)
    requires i <= j <= |s|
    ensures CharsFrom(s[i..j], s)
  {
    forall k | 0 <= k < j - i
      ensures s[i..j][k] in s
    {
      assert s[i..j][k] == s[i + k];
    }
  }

  lemma {:induction false} CharsFromTrans(a: string, b: string, c: string)
    requires CharsFrom(a, b) && CharsFrom(b, c)
    ensures CharsFrom(a, c)
  {
    forall k | 0 <= k < |a|
      ensures a[k] in c
    {
      var j :| 0 <= j < |b| && b[j] == a[k];
    }
  }

  lemma {:induction false} CharsFromAvoids(t: string, s: string, cs: set<char>)
    requires CharsFrom(t, s) && Avoids(s, cs)
    ensures Avoids(t, cs)
  {
    forall k | 0 <= k < |t|
      ensures t[k] !in cs
    {
      var j :| 0 <= j < |s| && s[j] == t[k];
    }
  }

  /** Number of whitespace characters `s` starts with. */
  function LeadingSpace(s: string): (k: nat)
    ensures k <= |s|
    ensures forall i :: 0 <= i < k ==> IsSpace(s[i])
    ensures k < |s| ==> !IsSpace(s[k])
  {
    if |s| > 0 && IsSpace(s[0]) then 1 + LeadingSpace(s[1..]) else 0
  }

  /** Number of whitespace characters `s` ends with. */
  function TrailingSpace(s: string): (k: nat)
    ensures k <= |s|
    ensures forall i :: |s| - k <= i < |s| ==> IsSpace(s[i])
    ensures k < |s| ==> !IsSpace(s[|s| - k - 1])
  {
    if |s| > 0 && IsSpace(s[|s| - 1]) then 1 + TrailingSpace(s[..|s| - 1]) else 0
  }

  /** `str.lstrip()`. */
  function TrimStart(s: string): (r: string)
    ensures |r| <= |s| && r == s[|s| - |r|..]
    ensures |r| > 0 ==> !IsSpace(r[0])
    ensures IsBlank(s[..|s| - |r|])
  {
    s[LeadingSpace(s)..]
  }

  /** `str.rstrip()`. */
  function TrimEnd(s: string): (r: string)
    ensures |r| <= |s| && r == s[..|r|]
    ensures |r| > 0 ==> !IsSpace(r[|r| - 1])
    ensures IsBlank(s[|r|..])
  {
    s[..|s| - TrailingSpace(s)]
  }

  /** Nothing is left after trimming the start exactly when all of it is whitespace. */
  lemma {:induction false} TrimStartEmpty(s: string)
    ensures TrimStart(s) == [] <==> IsBlank(s)
  {
    if LeadingSpace(s) < |s| {
      assert !IsSpace(s[LeadingSpace(s)]);
    }
  }

  /** Nothing is left after trimming the end exactly when all of it is whitespace. */
  lemma {:induction false} TrimEndEmpty(s: string)
    ensures TrimEnd(s) == [] <==> IsBlank(s)
  {
    var k := TrailingSpace(s);
    if k < |s| {
      assert !IsSpace(s[|s| - k - 1]);
    }
  }

  /** Where `Strip(s)` begins inside `s`. */
  function StripOffset(s: string): (k: nat)
    ensures k <= |s|
  {
    |s| - |TrimStart(s)|
  }

  /** A prefix of a suffix of `s` is an infix of `s`. */
  lemma PrefixOfSuffix<T>(s: seq<T>, o: nat, t: seq<T>, r: seq<T>)
    requires o <= |s| && t == s[o..] && |r| <= |t| && r == t[..|r|]
    ensures o + |r| <= |s| && r == s[o..o + |r|]
  {
    assert s[o..][..|r|] == s[o..o + |r|];
  }

  /** Whitespace ending a suffix of `s` is whitespace ending `s`. */
  lemma BlankEndOfSuffix(s: string, o: nat, t: string, n: nat)
    requires o <= |s| && t == s[o..] && n <= |t| && IsBlank(t[n..])
    ensures o + n <= |s| && IsBlank(s[o + n..])
  {
    assert s[o + n..] == t[n..];
  }

  /** Trimming both ends leaves an infix that starts where the leading whitespace ends. */
  lemma {:induction false} TrimBothInfix(s: string)
    ensures var r := TrimEnd(TrimStart(s)); var o := StripOffset(s);
      o + |r| <= |s| && r == s[o..o + |r|]
  {
    PrefixOfSuffix(s, StripOffset(s), TrimStart(s), TrimEnd(TrimStart(s)));
  }

  /** What trimming both ends drops is whitespace. */
  lemma {:induction false} TrimBothBlankEnds(s: string)
    ensures var r := TrimEnd(TrimStart(s)); var o := StripOffset(s);
      IsBlank(s[..o]) && IsBlank(s[o + |r|..])
  {
    var t := TrimStart(s);
    BlankEndOfSuffix(s, StripOffset(s), t, |TrimEnd(t)|);
  }

  /** Trimming both ends leaves nothing exactly when all of `s` is whitespace. */
  lemma {:induction false} TrimBothEmpty(s: string)
    ensures TrimEnd(TrimStart(s)) == [] <==> IsBlank(s)
  {
    var t := TrimStart(s);
    TrimStartEmpty(s);
    TrimEndEmpty(t);
    assert t != [] ==> !IsSpace(t[0]);
  }

  /** Trimming both ends of a trimmed text changes nothing. */
  lemma {:induction false} TrimBothTrimmed(s: string)
    ensures IsTrimmed(s) ==> TrimEnd(TrimStart(s)) == s
  {
    if IsTrimmed(s) && s != [] {
      assert LeadingSpace(s) == 0 && s[0..] == s;
      assert TrailingSpace(s) == 0 && s[..|s|] == s;
    }
  }

  /** Everything `Strip` promises, stated of trimming both ends. */
  lemma {:induction false} TrimBoth(s: string)
    ensures IsTrimmed(TrimEnd(TrimStart(s)))
    ensures StripOffset(s) + |TrimEnd(TrimStart(s))| <= |s|
    ensures TrimEnd(TrimStart(s)) == s[StripOffset(s)..StripOffset(s) + |TrimEnd(TrimStart(s))|]
    ensures IsBlank(s[..StripOffset(s)])
    ensures IsBlank(s[StripOffset(s) + |TrimEnd(TrimStart(s))|..])
    ensures TrimEnd(TrimStart(s)) == [] <==> IsBlank(s)
    ensures IsTrimmed(s) ==> TrimEnd(TrimStart(s)) == s
  {
    TrimBothInfix(s);
    TrimBothBlankEnds(s);
    TrimBothEmpty(s);
    TrimBothTrimmed(s);
  }

  /** `str.strip()`: the infix of `s` left after dropping whitespace at both ends. */
  function Strip(s: string): (r: string)
    ensures IsTrimmed(r)
    ensures StripOffset(s) + |r| <= |s| && r == s[StripOffset(s)..StripOffset(s) + |r|]
    ensures IsBlank(s[..StripOffset(s)]) && IsBlank(s[StripOffset(s) + |r|..])
    ensures r == [] <==> IsBlank(s)
    ensures IsTrimmed(s) ==> r == s
  {
    TrimBoth(s);
    TrimEnd(TrimStart(s))
  }

  lemma {:induction false} TrimStartBlankPrefix(w: string, x: string)
    requires IsBlank(w) && x != [] && !IsSpace(x[0])
    ensures TrimStart(w + x) == x
    decreases |w|
  {
    if |w| > 0 {
      assert (w + x)[1..] == w[1..] + x;
      TrimStartBlankPrefix(w[1..], x);
    } else {
      assert w + x == x;
    }
  }

  /** Leading whitespace before trimmed text is what `str.strip()` removes. */
  lemma {:induction false} StripBlankPrefix(w: string, x: string)
    requires IsBlank(w) && x != [] && IsTrimmed(x)
    ensures Strip(w + x) == x
  {
    TrimStartBlankPrefix(w, x);
  }

  lemma {:induction false} StripCharsFrom(s: string)
    ensures CharsFrom(Strip(s), s)
  {
    InfixCharsFrom(s, StripOffset(s), StripOffset(s) + |Strip(s)|);
  }

  lemma {:induction false} StripAvoids(s: string, cs: set<char>)
    requires Avoids(s, cs)
    ensures Avoids(Strip(s), cs)
  {
    StripCharsFrom(s);
    CharsFromAvoids(Strip(s), s, cs);
  }

  /** Trailing whitespace after a non-blank text is what `str.strip()` removes. */
  lemma {:induction false} TrimEndAppendBlank(x: string, w: string)
    requires |x| > 0 && !IsSpace(x[|x| - 1]) && IsBlank(w)
    ensures TrimEnd(x + w) == x
    decreases |w|
  {
    if |w| > 0 {
      assert (x + w)[..|x + w| - 1] == x + w[..|w| - 1];
      TrimEndAppendBlank(x, w[..|w| - 1]);
    } else {
      assert x + w == x;
    }
  }

  /** Trailing whitespace after trimmed text is what `str.strip()` removes. */
  lemma {:induction false} StripBlankSuffix(x: string, w: string)
    requires x != [] && IsTrimmed(x) && IsBlank(w)
    ensures Strip(x + w) == x
  {
    assert TrimStart(x + w) == x + w;
    TrimEndAppendBlank(x, w);
  }

  /** Trimming the end of `x + y` only touches `y` when `y` is not blank. */
  lemma {:induction false} TrimEndAppend(x: string, y: string)
    requires !IsBlank(y)
    ensures TrimEnd(x + y) == x + TrimEnd(y)
    decreases |y|
  {
    var n := |y| - 1;
    if IsSpace(y[n]) {
      assert (x + y)[..|x + y| - 1] == x + y[..n];
      assert !IsBlank(y[..n]);
      TrimEndAppend(x, y[..n]);
    }
  }

  /** The `n` characters `c`. */
  function Repeat(c: char, n: nat): (r: string)
    ensures |r| == n && forall i :: 0 <= i < n ==> r[i] == c
  {
    if n == 0 then [] else [c] + Repeat(c, n - 1)
  }

  /** Number of occurrences of `c` in `s` (Python's `str.count` for one character). */
  function Count(s: string, c: char): (n: nat)
    ensures n <= |s|
    ensures n == 0 <==> c !in s
  {
    if |s| == 0 then 0 else (if s[0] == c then 1 else 0) + Count(s[1..], c)
  }

  lemma {:induction false} CountAppend(a: string, b: string, c: char)
    ensures Count(a + b, c) == Count(a, c) + Count(b, c)
  {
    if |a| > 0 {
      assert (a + b)[1..] == a[1..] + b;
      CountAppend(a[1..], b, c);
    } else {
      assert a + b == b;
    }
  }

  /** `sep.join(parts)`. */
  function Join(parts: seq<string>, sep: string): string
  {
    if |parts| == 0 then []
    else if |parts| == 1 then parts[0]
    else parts[0] + sep + Join(parts[1..], sep)
  }

  lemma {:induction false} JoinAppend(a: seq<string>, b: seq<string>, sep: string)
    requires |a| > 0 && |b| > 0
    ensures Join(a + b, sep) == Join(a, sep) + sep + Join(b, sep)
  {
    if |a| == 1 {
      assert (a + b)[1..] == b;
    } else {
      assert (a + b)[1..] == a[1..] + b;
      JoinAppend(a[1..], b, sep);
    }
  }

  /** A joined text holds only characters of its parts and of the separator. */
  lemma {:induction false} JoinAvoids(parts: seq<string>, sep: string, cs: set<char>)
    requires forall i :: 0 <= i < |parts| ==> Avoids(parts[i], cs)
    requires Avoids(sep, cs)
    ensures Avoids(Join(parts, sep), cs)
    decreases |parts|
  {
    if |parts| > 1 {
      JoinAvoids(parts[1..], sep, cs);
    }
  }

  /** A join begins with its first part. */
  lemma {:induction false} JoinFirst(parts: seq<string>, sep: string)
    requires |parts| > 0 && parts[0] != []
    ensures |Join(parts, sep)| > 0 && Join(parts, sep)[0] == parts[0][0]
  {
  }

  /** A join ends with its last part. */
  lemma {:induction false} JoinLast(parts: seq<string>, sep: string)
    requires |parts| > 0 && parts[|parts| - 1] != []
    ensures var j := Join(parts, sep);
      |j| > 0 && j[|j| - 1] == parts[|parts| - 1][|parts[|parts| - 1]| - 1]
    decreases |parts|
  {
    if |parts| > 1 {
      JoinLast(parts[1..], sep);
    }
  }

  /** Concatenation is associative. */
  lemma ConcatAssoc<T>(a: seq<T>, b: seq<T>, c: seq<T>)
    ensures a + (b + c) == (a + b) + c
  {
  }

  /** A sequence that is the head of `ws` followed by its tail is `ws`. */
  lemma HeadThenTail<T>(xs: seq<T>, ws: seq<T>)
    requires |ws| > 0 && xs == [ws[0]] + ws[1..]
    ensures xs == ws
  {
  }

  /** The first element followed by a prefix of the rest is a prefix. */
  lemma HeadPrefix<T>(s: seq<T>, n: nat)
    requires 0 < n <= |s|
    ensures [s[0]] + s[1..][..n - 1] == s[..n]
  {
    assert ([s[0]] + s[1..][..n - 1])[0] == s[0];
  }

  /** `f` applied to every element, the results concatenated in order. */
  function FlatMap<T, U>(f: T -> seq<U>, xs: seq<T>): seq<U>
  {
    if |xs| == 0 then [] else f(xs[0]) + FlatMap(f, xs[1..])
  }

  lemma {:induction false} FlatMapAppend<T, U>(f: T -> seq<U>, a: seq<T>, b: seq<T>)
    ensures FlatMap(f, a + b) == FlatMap(f, a) + FlatMap(f, b)
  {
    if |a| > 0 {
      FlatMapAppend(f, a[1..], b);
      assert (a + b)[0] == a[0] && (a + b)[1..] == a[1..] + b;
      ConcatAssoc(f(a[0]), FlatMap(f, a[1..]), FlatMap(f, b));
    } else {
      assert a + b == b;
    }
  }

  /** Every element of the result comes from the image of some element. */
  lemma {:induction false} FlatMapFrom<T, U>(f: T -> seq<U>, xs: seq<T>)
    ensures forall y :: y in FlatMap(f, xs) ==> exists i :: 0 <= i < |xs| && y in f(xs[i])
    decreases |xs|
  {
    if |xs| > 0 {
      FlatMapFrom(f, xs[1..]);
      forall y | y in FlatMap(f, xs)
        ensures exists i :: 0 <= i < |xs| && y in f(xs[i])
      {
        if y !in f(xs[0]) {
          assert y in FlatMap(f, xs[1..]);
          var j :| 0 <= j < |xs[1..]| && y in f(xs[1..][j]);
          assert xs[1..][j] == xs[j + 1];
        }
      }
    }
  }

  /** Every element of the image of an element is in the result. */
  lemma {:induction false} FlatMapAll<T, U>(f: T -> seq<U>, xs: seq<T>)
    ensures forall i, y :: 0 <= i < |xs| && y in f(xs[i]) ==> y in FlatMap(f, xs)
    decreases |xs|
  {
    if |xs| > 0 {
      FlatMapAll(f, xs[1..]);
      forall i, y | 0 < i < |xs| && y in f(xs[i])
        ensures y in FlatMap(f, xs[1..])
      {
        assert xs[1..][i - 1] == xs[i];
      }
    }
  }

  /** Concatenation of all parts. */
  function Concat(parts: seq<string>): string
  {
    if |parts| == 0 then [] else parts[0] + Concat(parts[1..])
  }

  /** A part stripped, or nothing when that leaves it empty. */
  function Stripped(part: string): (r: seq<string>)
    ensures r == [] || r == [Strip(part)]
  {
    var t := Strip(part);
    if t == [] then [] else [t]
  }

  lemma {:induction false} StrippedPart(part: string, x: string)
    requires x in Stripped(part)
    ensures x == Strip(part) && x != [] && IsTrimmed(x)
  {
  }

  /**
   * Every piece `NonBlank(parts)` gives is one of the parts stripped, and is
   * neither empty nor has whitespace at either end.
   */
  lemma {:induction false} NonBlankFrom(parts: seq<string>)
    ensures forall x :: x in FlatMap(Stripped, parts) ==>
      x != [] && IsTrimmed(x) && exists j :: 0 <= j < |parts| && x == Strip(parts[j])
  {
    FlatMapFrom(Stripped, parts);
    forall x | x in FlatMap(Stripped, parts)
      ensures x != [] && IsTrimmed(x) && exists j :: 0 <= j < |parts| && x == Strip(parts[j])
    {
      var j :| 0 <= j < |parts| && x in Stripped(parts[j]);
      StrippedPart(parts[j], x);
    }
  }

  /** The stripped, non-empty pieces, in order: `[p.strip() for p in parts if p.strip()]`. */
  function NonBlank(parts: seq<string>): (r: seq<string>)
    ensures forall i :: 0 <= i < |r| ==> r[i] != [] && IsTrimmed(r[i])
  {
    var r := FlatMap(Stripped, parts);
    NonBlankFrom(parts);
    assert forall i :: 0 <= i < |r| ==> r[i] in r;
    r
  }

  lemma {:induction false} NonBlankAppend(a: seq<string>, b: seq<string>)
    ensures NonBlank(a + b) == NonBlank(a) + NonBlank(b)
  {
    FlatMapAppend(Stripped, a, b);
  }

  lemma {:induction false} NonBlankAvoids(parts: seq<string>, cs: set<char>)
    requires forall i :: 0 <= i < |parts| ==> Avoids(parts[i], cs)
    ensures forall i :: 0 <= i < |NonBlank(parts)| ==> Avoids(NonBlank(parts)[i], cs)
  {
    var r := NonBlank(parts);
    NonBlankFrom(parts);
    forall i | 0 <= i < |r|
      ensures Avoids(r[i], cs)
    {
      assert r[i] in r;
      var j :| 0 <= j < |parts| && r[i] == Strip(parts[j]);
      StripAvoids(parts[j], cs);
    }
  }

  /** One part gives its stripped self, or nothing when that is empty. */
  lemma {:induction false} NonBlankOne(t: string)
    ensures NonBlank([t]) == Stripped(t)
  {
    assert [t][0] == t && [t][1..] == [];
    assert FlatMap(Stripped, [t]) == Stripped(t) + FlatMap(Stripped, []);
  }

  /** A trimmed, non-empty piece survives `NonBlank` unchanged. */
  lemma {:induction false} NonBlankSingle(t: string)
    requires t != [] && IsTrimmed(t)
    ensures NonBlank([t]) == [t]
  {
    NonBlankOne(t);
    assert Stripped(t) == [t];
  }

  // ----- decimal numbers -----

  function DigitChar(d: nat): (c: char)
    requires d < 10
    ensures IsDigit(c)
  {
    (48 + d) as char
  }

  function DigitValue(c: char): (d: nat)
    requires IsDigit(c)
    ensures d < 10
  {
    (c as int) - 48
  }

  /** `str(n)` for a natural number. */
  function Decimal(n: nat): (r: string)
    ensures IsAllDigits(r)
    decreases n
  {
    if n < 10 then [DigitChar(n)] else Decimal(n / 10) + [DigitChar(n % 10)]
  }

  /** The number written by a string of digits, most significant first. */
  function DigitsValue(s: string): nat
    requires forall i :: 0 <= i < |s| ==> IsDigit(s[i])
  {
    if |s| == 0 then 0 else 10 * DigitsValue(s[..|s| - 1]) + DigitValue(s[|s| - 1])
  }

  /** Reading back `str(n)` gives `n`. */
  lemma {:induction false} DecimalValue(n: nat)
    ensures DigitsValue(Decimal(n)) == n
    decreases n
  {
    if n >= 10 {
      var d := Decimal(n);
      assert d[..|d| - 1] == Decimal(n / 10);
      DecimalValue(n / 10);
    }
  }

  lemma {:induction false} DecimalLength(n: nat, k: nat)
    requires n < Pow10(k) && k >= 1
    ensures |Decimal(n)| <= k
    decreases k
  {
    if n >= 10 {
      DecimalLength(n / 10, k - 1);
    }
  }

  function Pow10(k: nat): (p: nat)
    ensures p >= 1
  {
    if k == 0 then 1 else 10 * Pow10(k - 1)
  }

  lemma {:induction false} LeadingZeros(z: nat, s: string)
    requires forall i :: 0 <= i < |s| ==> IsDigit(s[i])
    ensures DigitsValue(Repeat('0', z) + s) == DigitsValue(s)
    decreases |s|
  {
    var t := Repeat('0', z) + s;
    if |s| == 0 {
      assert t == Repeat('0', z);
      ZerosValue(z);
    } else {
      assert t[..|t| - 1] == Repeat('0', z) + s[..|s| - 1];
      LeadingZeros(z, s[..|s| - 1]);
    }
  }

  lemma {:induction false} ZerosValue(z: nat)
    ensures DigitsValue(Repeat('0', z)) == 0
  {
    if z > 0 {
      var t := Repeat('0', z);
      assert t[..|t| - 1] == Repeat('0', z - 1);
      ZerosValue(z - 1);
    }
  }

  /** `f"{n:0{width}d}"` for a natural number: digits, left-padded with zeros. */
  function ZeroPad(n: nat, width: nat): (r: string)
    ensures IsAllDigits(r)
    ensures |r| >= width
    ensures 1 <= width && n < Pow10(width) ==> |r| == width
    ensures DigitsValue(r) == n
  {
    var d := Decimal(n);
    var z := if |d| < width then width - |d| else 0;
    LeadingZeros(z, d);
    DecimalValue(n);
    assert 1 <= width && n < Pow10(width) ==> |d| <= width by {
      if 1 <= width && n < Pow10(width) {
        DecimalLength(n, width);
      }
    }
    Repeat('0', z) + d
  }

  /** `f"{n:0{width}d}"` for any integer: the sign counts towards the width. */
  function FormatInt(n: int, width: nat): (r: string)
    ensures 0 <= n ==> r == ZeroPad(n, width)
    ensures n < 0 ==> |r| > 0 && r[0] == '-'
  {
    if n >= 0 then ZeroPad(n, width)
    else "-" + ZeroPad(-n, if width > 0 then width - 1 else 0)
  }

  /** The digits with single underscores between them that Python's `int()` accepts. */
  predicate WellGrouped(s: string) {
    && |s| > 0
    && IsDigit(s[0])
    && IsDigit(s[|s| - 1])
    && forall i :: 0 <= i < |s| ==> IsDigit(s[i]) || (s[i] == '_' && i + 1 < |s| && IsDigit(s[i + 1]))
  }

  function DropUnderscores(s: string): (r: string)
    requires forall i :: 0 <= i < |s| ==> IsDigit(s[i]) || s[i] == '_'
    ensures forall i :: 0 <= i < |r| ==> IsDigit(r[i])
    ensures (forall i :: 0 <= i < |s| ==> IsDigit(s[i])) ==> r == s
  {
    if |s| == 0 then []
    else (if s[0] == '_' then [] else [s[0]]) + DropUnderscores(s[1..])
  }

  lemma {:induction false} WellGroupedChars(s: string)
    requires WellGrouped(s)
    ensures forall i :: 0 <= i < |s| ==> IsDigit(s[i]) || s[i] == '_'
  {
    forall i | 0 <= i < |s|
      ensures IsDigit(s[i]) || s[i] == '_'
    {
      assert IsDigit(s[i]) || (s[i] == '_' && i + 1 < |s| && IsDigit(s[i + 1]));
    }
  }

  /**
   * Python's `int(s)` in base 10: surrounding whitespace, an optional sign,
   * then digits optionally grouped by single underscores; `None` where
   * Python raises `ValueError`.
   */
  function ParseInt(s: string): (r: Option<int>)
    ensures r.Some? ==> Strip(s) != []
  {
    var t := Strip(s);
    var signed := |t| > 0 && (t[0] == '-' || t[0] == '+');
    var body := if signed then t[1..] else t;
    if WellGrouped(body) then
      WellGroupedChars(body);
      var v: int := DigitsValue(DropUnderscores(body));
      Some(if signed && t[0] == '-' then -v else v)
    else None
  }

  /** `int(str(n)) == n`: the partner of `Decimal`. */
  lemma {:induction false} ParseDecimal(n: nat)
    ensures ParseInt(Decimal(n)) == Some(n)
  {
    var d := Decimal(n);
    assert IsTrimmed(d) by {
      assert !IsSpace(d[0]) && !IsSpace(d[|d| - 1]);
    }
    DecimalValue(n);
  }

  /** Distinct numbers have distinct decimal renderings. */
  lemma {:induction false} DecimalInjective(m: nat, n: nat)
    requires Decimal(m) == Decimal(n)
    ensures m == n
  {
    DecimalValue(m);
    DecimalValue(n);
  }
}
