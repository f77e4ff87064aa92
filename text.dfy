/** The Python string built-ins the calculators rely on: `str.strip()`,
    `str.split()`, `str.splitlines()`, `str(n)` for a non-negative integer,
    `str.rjust`, `str.ljust`, `sep.join`, `str * n` and `max(len(..))`.
    Characters are Unicode scalar values; the whitespace and line-break
    classes are the fixed sets Python's `str.isspace` and `str.splitlines`
    use. */
module Text {

  /** The characters for which Python's `str.isspace()` holds; `strip()` and
      `split()` without arguments remove and split on exactly these. */
  predicate IsWhitespace(c: char) {
    ('\t' <= c <= '\r') || ('\U{1C}' <= c <= ' ') || c == '\U{85}' || c == '\U{A0}'
    || c == '\U{1680}' || ('\U{2000}' <= c <= '\U{200A}') || c == '\U{2028}'
    || c == '\U{2029}' || c == '\U{202F}' || c == '\U{205F}' || c == '\U{3000}'
  }

  /** The line boundaries of `str.splitlines()` (the pair "\r\n" counts as one). */
  predicate IsLineBreak(c: char) {
    c == '\n' || c == '\r' || c == '\U{0B}' || c == '\U{0C}' || ('\U{1C}' <= c <= '\U{1E}')
    || c == '\U{85}' || c == '\U{2028}' || c == '\U{2029}'
  }

  /** Every character of `s` is whitespace (Python: `not s.strip()`). */
  predicate Blank(s: string) {
    forall c :: c in s ==> IsWhitespace(c)
  }

  predicate NoWhitespace(s: string) {
    forall c :: c in s ==> !IsWhitespace(c)
  }

  predicate NoLineBreak(s: string) {
    forall c :: c in s ==> !IsLineBreak(c)
  }

  /** Neither end of `s` is whitespace. */
  predicate IsStripped(s: string) {
    s == [] || (!IsWhitespace(s[0]) && !IsWhitespace(s[|s| - 1]))
  }

  // ---------------------------------------------------------------------
  // strip()
  // ---------------------------------------------------------------------

  /** `s.lstrip()`: the suffix of `s` left after its leading whitespace. */
  function TrimLeft(s: string): (r: string)
    ensures |r| <= |s| && r == s[|s| - |r|..]
    ensures forall k :: 0 <= k < |s| - |r| ==> IsWhitespace(s[k])
    ensures r != [] ==> !IsWhitespace(r[0])
  {
    if s != [] && IsWhitespace(s[0]) then TrimLeft(s[1..]) else s
  }

  /** `s.rstrip()`: the prefix of `s` left after its trailing whitespace. */
  function TrimRight(s: string): (r: string)
    ensures |r| <= |s| && r == s[..|r|]
    ensures forall k :: |r| <= k < |s| ==> IsWhitespace(s[k])
    ensures r != [] ==> !IsWhitespace(r[|r| - 1])
  {
    if s != [] && IsWhitespace(s[|s| - 1]) then TrimRight(s[..|s| - 1]) else s
  }

  /** Only whitespace lies before offset `i` and from offset `j` on. */
  predicate WhitespaceOutside(s: string, i: nat, j: nat) {
    && (forall k :: 0 <= k < i && k < |s| ==> IsWhitespace(s[k]))
    && (forall k :: j <= k < |s| ==> IsWhitespace(s[k]))
  }

  /** `s.strip()`: the result is the slice of `s` left when its leading and
      trailing whitespace are removed; it is stripped, and it is empty
      exactly when `s` is blank. */
  function Strip(s: string): (r: string)
    ensures IsStripped(r)
    ensures forall c :: c in r ==> c in s
    ensures r == [] <==> Blank(s)
    ensures exists i, j :: 0 <= i <= j <= |s| && r == s[i..j] && WhitespaceOutside(s, i, j)
  {
    var t := TrimLeft(s);
    var r := TrimRight(t);
    TrimmedSlice(s, t, r);
    var i, j := |s| - |t|, |s| - |t| + |r|;
    assert r == s[i..j] && WhitespaceOutside(s, i, j);
    SliceMembers(s, i, j, r);
    r
  }

  /** Every character of a slice is a character of the whole. */
  lemma SliceMembers(s: string, i: nat, j: nat, r: string)
    requires i <= j <= |s| && r == s[i..j]
    ensures forall c :: c in r ==> c in s
  {
    forall c | c in r ensures c in s {
      var k :| 0 <= k < j - i && r[k] == c;
      assert s[i + k] == c;
    }
  }

  /** A prefix `r` of a suffix `t` of `s`, with only whitespace cut off
      either side, is a slice of `s` with only whitespace outside it. */
  lemma TrimmedSlice(s: string, t: string, r: string)
    requires |t| <= |s| && t == s[|s| - |t|..]
    requires forall k :: 0 <= k < |s| - |t| ==> IsWhitespace(s[k])
    requires |r| <= |t| && r == t[..|r|]
    requires forall k :: |r| <= k < |t| ==> IsWhitespace(t[k])
    ensures r == s[|s| - |t|..|s| - |t| + |r|]
    ensures WhitespaceOutside(s, |s| - |t|, |s| - |t| + |r|)
  {
    var i := |s| - |t|;
    forall k | i + |r| <= k < |s| ensures IsWhitespace(s[k]) {
      assert s[k] == t[k - i];
    }
  }

  /** Stripping is idempotent. */
  lemma StripIdempotent(s: string)
    ensures Strip(Strip(s)) == Strip(s)
  {
    var t := Strip(s);
    assert TrimLeft(t) == t;
  }

  // ---------------------------------------------------------------------
  // splitlines()
  // ---------------------------------------------------------------------

  /** `s.splitlines()`: pieces separated by line boundaries; no trailing
      empty piece when `s` ends with a boundary, and no piece at all for "". */
  function SplitLines(s: string): (r: seq<string>)
    ensures forall k :: 0 <= k < |r| ==> NoLineBreak(r[k])
  {
    LinesFrom(s, [])
  }

  /** Splits `s` into lines when `cur` holds the line read so far. */
  function LinesFrom(s: string, cur: string): (r: seq<string>)
    requires NoLineBreak(cur)
    ensures forall k :: 0 <= k < |r| ==> NoLineBreak(r[k])
    decreases |s|
  {
    if s == [] then (if cur == [] then [] else [cur])
    else if s[0] == '\r' && |s| > 1 && s[1] == '\n' then [cur] + LinesFrom(s[2..], [])
    else if IsLineBreak(s[0]) then [cur] + LinesFrom(s[1..], [])
    else LinesFrom(s[1..], cur + [s[0]])
  }

  /** The number of line boundaries in `s`, a "\r\n" pair counting once. */
  function Boundaries(s: string): nat
    decreases |s|
  {
    if s == [] then 0
    else if s[0] == '\r' && |s| > 1 && s[1] == '\n' then 1 + Boundaries(s[2..])
    else if IsLineBreak(s[0]) then 1 + Boundaries(s[1..])
    else Boundaries(s[1..])
  }

  /** `s` ends with a line that no boundary closes. */
  predicate OpenTail(s: string) {
    s != [] && !IsLineBreak(s[|s| - 1])
  }

  /** The characters of `s` that are not line breaks, in order. */
  function DropLineBreaks(s: string): string {
    if s == [] then []
    else (if IsLineBreak(s[0]) then [] else [s[0]]) + DropLineBreaks(s[1..])
  }

  /** With `cur` read so far: one line per boundary, plus one when the text
      ends in an unclosed line. */
  lemma {:induction false} LinesFromCount(s: string, cur: string)
    requires NoLineBreak(cur)
    ensures |LinesFrom(s, cur)| == Boundaries(s) + (if OpenTail(cur + s) then 1 else 0)
    decreases |s|
  {
    if s == [] {
      assert cur + s == cur;
    } else if s[0] == '\r' && |s| > 1 && s[1] == '\n' {
      LinesFromCount(s[2..], []);
      OpenTailAfterBreak(cur, s, 2);
      assert LinesFrom(s, cur) == [cur] + LinesFrom(s[2..], []);
      assert Boundaries(s) == 1 + Boundaries(s[2..]);
    } else if IsLineBreak(s[0]) {
      LinesFromCount(s[1..], []);
      OpenTailAfterBreak(cur, s, 1);
      assert LinesFrom(s, cur) == [cur] + LinesFrom(s[1..], []);
      assert Boundaries(s) == 1 + Boundaries(s[1..]);
    } else {
      NoLineBreakSnoc(cur, s[0]);
      LinesFromCount(s[1..], cur + [s[0]]);
      assert LinesFrom(s, cur) == LinesFrom(s[1..], cur + [s[0]]);
      assert Boundaries(s) == Boundaries(s[1..]);
      assert cur + [s[0]] + s[1..] == cur + s;
    }
  }

  /** Whatever precedes a line break does not decide whether the text
      ends in an unclosed line. */
  lemma OpenTailAfterBreak(cur: string, s: string, n: nat)
    requires 1 <= n <= |s| && IsLineBreak(s[n - 1])
    ensures OpenTail(cur + s) == OpenTail([] + s[n..])
  {
    assert [] + s[n..] == s[n..];
    assert (cur + s)[|cur + s| - 1] == s[|s| - 1];
    if n < |s| {
      assert s[n..][|s[n..]| - 1] == s[|s| - 1];
    }
  }

  /** With `cur` read so far, the lines joined are `cur` and the text
      without its line breaks. */
  lemma {:induction false} LinesFromConcat(s: string, cur: string)
    requires NoLineBreak(cur)
    ensures Concat(LinesFrom(s, cur)) == cur + DropLineBreaks(s)
    decreases |s|
  {
    if s == [] {
      if cur != [] {
        ConcatCons(cur, []);
      }
    } else if s[0] == '\r' && |s| > 1 && s[1] == '\n' {
      LinesFromConcatBreak(s, cur, 2);
    } else if IsLineBreak(s[0]) {
      LinesFromConcatBreak(s, cur, 1);
    } else {
      NoLineBreakSnoc(cur, s[0]);
      LinesFromConcat(s[1..], cur + [s[0]]);
      assert LinesFrom(s, cur) == LinesFrom(s[1..], cur + [s[0]]);
      assert DropLineBreaks(s) == [s[0]] + DropLineBreaks(s[1..]);
      assert cur + [s[0]] + DropLineBreaks(s[1..]) == cur + ([s[0]] + DropLineBreaks(s[1..]));
    }
  }

  /** The step of `LinesFromConcat` past a boundary of `n` characters. */
  lemma {:induction false} LinesFromConcatBreak(s: string, cur: string, n: nat)
    requires NoLineBreak(cur)
    requires 1 <= n <= 2 && n <= |s|
    requires LinesFrom(s, cur) == [cur] + LinesFrom(s[n..], [])
    requires forall k :: 0 <= k < n ==> IsLineBreak(s[k])
    ensures Concat(LinesFrom(s, cur)) == cur + DropLineBreaks(s)
    decreases |s|, 0
  {
    LinesFromConcat(s[n..], []);
    ConcatCons(cur, LinesFrom(s[n..], []));
    assert DropLineBreaks(s) == DropLineBreaks(s[1..]);
    if n == 2 {
      assert s[1..][1..] == s[2..];
      assert DropLineBreaks(s[1..]) == DropLineBreaks(s[2..]);
    }
  }

  lemma NoLineBreakSnoc(cur: string, c: char)
    requires NoLineBreak(cur) && !IsLineBreak(c)
    ensures NoLineBreak(cur + [c])
  {
    assert forall d :: d in cur + [c] ==> d in cur || d == c;
  }

  lemma ConcatCons(x: string, xs: seq<string>)
    ensures Concat([x] + xs) == x + Concat(xs)
  {
    assert ([x] + xs)[1..] == xs;
  }

  /** `splitlines()` gives one line per boundary, plus one for a last line
      that no boundary ends; joined, the lines are the text without its
      line breaks. */
  lemma SplitLinesShape(s: string)
    ensures |SplitLines(s)| == Boundaries(s) + (if OpenTail(s) then 1 else 0)
    ensures Concat(SplitLines(s)) == DropLineBreaks(s)
  {
    LinesFromCount(s, []);
    LinesFromConcat(s, []);
    assert [] + s == s;
  }

  /** `s` with every line boundary replaced by a single "\n" (a "\r\n"
      pair becomes one). */
  function NormalizeBreaks(s: string): string
    decreases |s|
  {
    if s == [] then []
    else if s[0] == '\r' && |s| > 1 && s[1] == '\n' then "\n" + NormalizeBreaks(s[2..])
    else if IsLineBreak(s[0]) then "\n" + NormalizeBreaks(s[1..])
    else [s[0]] + NormalizeBreaks(s[1..])
  }

  /** With `cur` read so far, the lines are the pieces of the normalised
      text between newlines, except for the empty piece after a final
      boundary, which `splitlines()` does not return. */
  lemma {:induction false} LinesFromSplitOn(s: string, cur: string)
    requires NoLineBreak(cur)
    ensures LinesFrom(s, cur) + (if OpenTail(cur + s) then [] else [[]])
         == SplitOnFrom(NormalizeBreaks(s), '\n', cur)
    decreases |s|
  {
    if s == [] {
      assert cur + s == cur;
    } else if s[0] == '\r' && |s| > 1 && s[1] == '\n' {
      LinesFromSplitOnBreak(s, cur, 2);
    } else if IsLineBreak(s[0]) {
      LinesFromSplitOnBreak(s, cur, 1);
    } else {
      NoLineBreakSnoc(cur, s[0]);
      LinesFromSplitOnChar(s, cur);
    }
  }

  /** The step of `LinesFromSplitOn` past a character that is no boundary. */
  lemma {:induction false} LinesFromSplitOnChar(s: string, cur: string)
    requires s != [] && !IsLineBreak(s[0])
    requires NoLineBreak(cur) && NoLineBreak(cur + [s[0]])
    requires LinesFrom(s, cur) == LinesFrom(s[1..], cur + [s[0]])
    requires NormalizeBreaks(s) == [s[0]] + NormalizeBreaks(s[1..])
    ensures LinesFrom(s, cur) + (if OpenTail(cur + s) then [] else [[]])
         == SplitOnFrom(NormalizeBreaks(s), '\n', cur)
    decreases |s|, 0
  {
    LinesFromSplitOn(s[1..], cur + [s[0]]);
    var t := NormalizeBreaks(s[1..]);
    assert ([s[0]] + t)[0] == s[0] && ([s[0]] + t)[1..] == t;
    assert cur + [s[0]] + s[1..] == cur + s;
  }

  /** The step of `LinesFromSplitOn` past a boundary of `n` characters. */
  lemma {:induction false} LinesFromSplitOnBreak(s: string, cur: string, n: nat)
    requires NoLineBreak(cur)
    requires 1 <= n <= 2 && n <= |s|
    requires LinesFrom(s, cur) == [cur] + LinesFrom(s[n..], [])
    requires NormalizeBreaks(s) == "\n" + NormalizeBreaks(s[n..])
    requires IsLineBreak(s[n - 1])
    ensures LinesFrom(s, cur) + (if OpenTail(cur + s) then [] else [[]])
         == SplitOnFrom(NormalizeBreaks(s), '\n', cur)
    decreases |s|, 0
  {
    LinesFromSplitOn(s[n..], []);
    OpenTailAfterBreak(cur, s, n);
    var t := NormalizeBreaks(s[n..]);
    assert ("\n" + t)[0] == '\n' && ("\n" + t)[1..] == t;
    assert SplitOnFrom("\n" + t, '\n', cur) == [cur] + SplitOnFrom(t, '\n', []);
    var rest := LinesFrom(s[n..], []);
    var tail: seq<string> := if OpenTail(cur + s) then [] else [[]];
    assert [cur] + rest + tail == [cur] + (rest + tail);
  }

  /** `splitlines()` cuts the text exactly at its line boundaries: its lines
      are the pieces between boundaries, in order, without the empty piece
      that follows a final boundary. */
  lemma SplitLinesCuts(s: string)
    ensures SplitLines(s) + (if OpenTail(s) then [] else [[]]) == SplitOn(NormalizeBreaks(s), '\n')
  {
    LinesFromSplitOn(s, []);
    assert [] + s == s;
  }

  predicate AllBlank(ls: seq<string>) {
    forall k :: 0 <= k < |ls| ==> Blank(ls[k])
  }

  lemma BlankAppend(a: string, b: string)
    ensures Blank(a + b) <==> Blank(a) && Blank(b)
  {
    assert forall c :: c in a + b <==> c in a || c in b;
  }

  lemma AllBlankCons(x: string, ls: seq<string>)
    ensures AllBlank([x] + ls) <==> Blank(x) && AllBlank(ls)
  {
    var xs := [x] + ls;
    assert xs[0] == x;
    assert forall k :: 0 <= k < |ls| ==> xs[k + 1] == ls[k];
  }

  /** Every line is blank exactly when the text read so far and the rest are. */
  lemma {:induction false} LinesFromBlank(s: string, cur: string)
    requires NoLineBreak(cur)
    ensures AllBlank(LinesFrom(s, cur)) <==> Blank(cur + s)
    decreases |s|
  {
    if s == [] {
      assert cur + s == cur;
      if cur != [] {
        AllBlankCons(cur, []);
      }
    } else if s[0] == '\r' && |s| > 1 && s[1] == '\n' {
      LinesFromBlankBreak(s, cur, 2);
    } else if IsLineBreak(s[0]) {
      LinesFromBlankBreak(s, cur, 1);
    } else {
      NoLineBreakSnoc(cur, s[0]);
      LinesFromBlank(s[1..], cur + [s[0]]);
      assert LinesFrom(s, cur) == LinesFrom(s[1..], cur + [s[0]]);
      assert cur + s == (cur + [s[0]]) + s[1..];
    }
  }

  /** The step of `LinesFromBlank` past a boundary of `n` characters. */
  lemma {:induction false} LinesFromBlankBreak(s: string, cur: string, n: nat)
    requires NoLineBreak(cur)
    requires 1 <= n <= 2 && n <= |s|
    requires LinesFrom(s, cur) == [cur] + LinesFrom(s[n..], [])
    requires forall k :: 0 <= k < n ==> IsLineBreak(s[k])
    ensures AllBlank(LinesFrom(s, cur)) <==> Blank(cur + s)
    decreases |s|, 0
  {
    LinesFromBlank(s[n..], []);
    assert [] + s[n..] == s[n..];
    BreaksBlank(s, n);
    BlankSplit(cur, s, n);
    AllBlankCons(cur, LinesFrom(s[n..], []));
  }

  /** Line breaks are whitespace. */
  lemma BreaksBlank(s: string, n: nat)
    requires n <= |s|
    requires forall k :: 0 <= k < n ==> IsLineBreak(s[k])
    ensures Blank(s[..n])
  {
    forall c | c in s[..n] ensures IsWhitespace(c) {
      var k :| 0 <= k < n && s[..n][k] == c;
      assert IsLineBreak(s[k]);
    }
  }

  /** After a blank prefix of `s`, `cur + s` is blank exactly when `cur` and
      the rest of `s` are. */
  lemma BlankSplit(cur: string, s: string, n: nat)
    requires n <= |s| && Blank(s[..n])
    ensures Blank(cur + s) <==> Blank(cur) && Blank(s[n..])
  {
    assert cur + s == cur + (s[..n] + s[n..]);
    BlankAppend(cur, s[..n] + s[n..]);
    BlankAppend(s[..n], s[n..]);
  }

  /** All lines of `s` are blank exactly when `s` is. */
  lemma SplitLinesBlank(s: string)
    ensures AllBlank(SplitLines(s)) <==> Blank(s)
  {
    LinesFromBlank(s, []);
    assert [] + s == s;
  }

  // ---------------------------------------------------------------------
  // split()
  // ---------------------------------------------------------------------

  /** `s.split()`: the maximal runs of non-whitespace characters, in order. */
  function Words(s: string): (r: seq<string>)
    ensures forall k :: 0 <= k < |r| ==> r[k] != [] && NoWhitespace(r[k])
    ensures !Blank(s) ==> |r| >= 1
  {
    WordsFrom(s, [])
  }

  /** Splits `s` into words when `cur` holds the word read so far. */
  function WordsFrom(s: string, cur: string): (r: seq<string>)
    requires NoWhitespace(cur)
    ensures forall k :: 0 <= k < |r| ==> r[k] != [] && NoWhitespace(r[k])
    ensures (cur != [] || !Blank(s)) ==> |r| >= 1
    decreases |s|
  {
    if s == [] then (if cur == [] then [] else [cur])
    else if IsWhitespace(s[0]) then
      assert !Blank(s) ==> !Blank(s[1..]) by {
        if !Blank(s) {
          var c :| c in s && !IsWhitespace(c);
          assert c in s[1..];
        }
      }
      if cur == [] then WordsFrom(s[1..], []) else [cur] + WordsFrom(s[1..], [])
    else WordsFrom(s[1..], cur + [s[0]])
  }

  /** The non-whitespace characters of `s`, in order. */
  function DropWhitespace(s: string): string {
    if s == [] then []
    else (if IsWhitespace(s[0]) then [] else [s[0]]) + DropWhitespace(s[1..])
  }

  function Concat(ss: seq<string>): string {
    if ss == [] then [] else ss[0] + Concat(ss[1..])
  }

  /** Joined back together, the words are exactly the non-whitespace
      characters of the input, in order. */
  lemma {:induction false} WordsFromConcat(s: string, cur: string)
    requires NoWhitespace(cur)
    ensures Concat(WordsFrom(s, cur)) == cur + DropWhitespace(s)
    decreases |s|
  {
    if s == [] {
      if cur != [] {
        assert Concat([cur]) == cur + Concat([]);
      }
    } else if IsWhitespace(s[0]) {
      WordsFromConcat(s[1..], []);
      if cur != [] {
        var rest := WordsFrom(s[1..], []);
        assert ([cur] + rest)[1..] == rest;
      }
    } else {
      WordsFromConcat(s[1..], cur + [s[0]]);
    }
  }

  lemma WordsConcat(s: string)
    ensures Concat(Words(s)) == DropWhitespace(s)
  {
    WordsFromConcat(s, []);
  }

  /** The number of word starts in `s`: non-whitespace characters at the
      start of `s` (when `afterSpace`) or right after whitespace. */
  function WordStarts(s: string, afterSpace: bool): nat
    decreases |s|
  {
    if s == [] then 0
    else if IsWhitespace(s[0]) then WordStarts(s[1..], true)
    else (if afterSpace then 1 else 0) + WordStarts(s[1..], false)
  }

  /** While a word `cur` is being read, the words found are `cur`, if any,
      plus one per word start in the rest. */
  lemma {:induction false} WordsFromCount(s: string, cur: string)
    requires NoWhitespace(cur)
    ensures |WordsFrom(s, cur)| == (if cur == [] then 0 else 1) + WordStarts(s, cur == [])
    decreases |s|
  {
    if s != [] {
      if IsWhitespace(s[0]) {
        WordsFromCount(s[1..], []);
      } else {
        WordsFromCount(s[1..], cur + [s[0]]);
      }
    }
  }

  /** `split()` yields one word per maximal run of non-whitespace
      characters: as many words as characters that start such a run. */
  lemma WordsCount(s: string)
    ensures |Words(s)| == WordStarts(s, true)
  {
    WordsFromCount(s, []);
  }

  // ---------------------------------------------------------------------
  // str(n), padding, join, max
  // ---------------------------------------------------------------------

  predicate IsDigits(s: string) {
    forall k :: 0 <= k < |s| ==> '0' <= s[k] <= '9'
  }

  function Digit(d: nat): char
    requires d < 10
  {
    (('0' as int) + d) as char
  }

  /** `str(n)` for a non-negative integer: decimal digits, no leading zero. */
  function NatToString(n: nat): (r: string)
    ensures |r| >= 1
    ensures IsDigits(r) && '\n' !in r
    ensures |r| > 1 ==> r[0] != '0'
  {
    if n < 10 then [Digit(n)] else NatToString(n / 10) + [Digit(n % 10)]
  }

  /** The value of a string of decimal digits. */
  function ParseNat(s: string): nat
    requires IsDigits(s)
  {
    if s == [] then 0
    else ParseNat(s[..|s| - 1]) * 10 + ((s[|s| - 1] as int) - ('0' as int))
  }

  /** Reading back `str(n)` gives `n`. */
  lemma {:induction false} NatToStringRoundTrip(n: nat)
    ensures ParseNat(NatToString(n)) == n
  {
    var s := NatToString(n);
    if n >= 10 {
      NatToStringRoundTrip(n / 10);
      assert s[..|s| - 1] == NatToString(n / 10);
    }
  }

  /** `c * n`: `n` copies of `c`. */
  function Repeat(c: char, n: nat): (r: string)
    ensures |r| == n && forall k :: 0 <= k < n ==> r[k] == c
  {
    if n == 0 then [] else [c] + Repeat(c, n - 1)
  }

  /** `' ' * n` for any integer `n`; a negative count gives "". */
  function Pad(n: int): (r: string)
    ensures |r| == (if n > 0 then n else 0) && forall k :: 0 <= k < |r| ==> r[k] == ' '
  {
    Repeat(' ', if n > 0 then n else 0)
  }

  /** `s.rjust(w)`: `s` preceded by spaces up to width `w`; never truncated. */
  function RJust(s: string, w: nat): (r: string)
    ensures |r| == (if |s| < w then w else |s|)
  {
    if |s| < w then Repeat(' ', w - |s|) + s else s
  }

  /** What `rjust` returns is spaces followed by the original string, so it
      holds no character but a space that the original does not. */
  lemma RJustEndsWith(s: string, w: nat)
    ensures forall k :: 0 <= k < |RJust(s, w)| - |s| ==> RJust(s, w)[k] == ' '
    ensures RJust(s, w)[|RJust(s, w)| - |s|..] == s
    ensures forall c :: c in RJust(s, w) ==> c == ' ' || c in s
  {
  }

  /** `s.ljust(w)`: `s` followed by spaces up to width `w`; never truncated. */
  function LJust(s: string, w: nat): (r: string)
    ensures |r| == (if |s| < w then w else |s|)
    ensures forall k :: 0 <= k < |s| ==> r[k] == s[k]
    ensures forall k :: |s| <= k < |r| ==> r[k] == ' '
  {
    if |s| < w then s + Repeat(' ', w - |s|) else s
  }

  /** `max(len(s) for s in ss)`, taken as 0 for no strings. */
  function MaxLen(ss: seq<string>): (m: nat)
    ensures forall k :: 0 <= k < |ss| ==> |ss[k]| <= m
    ensures ss != [] ==> exists k :: 0 <= k < |ss| && |ss[k]| == m
    ensures ss == [] ==> m == 0
  {
    if ss == [] then 0
    else
      var rest := MaxLen(ss[1..]);
      assert forall k :: 1 <= k < |ss| ==> ss[k] == ss[1..][k - 1];
      if |ss[0]| >= rest then |ss[0]| else rest
  }

  /** `s` holds no newline character. */
  predicate NoNewline(s: string) {
    '\n' !in s
  }

  /** `sep.join(xs)` for a one-character separator: the pieces in order
      with one separator between neighbours, so "" for no pieces. */
  function Join(xs: seq<string>, sep: char): (r: string)
    ensures |xs| == 0 ==> r == []
    ensures |xs| >= 1 ==> |r| == |Concat(xs)| + |xs| - 1
    ensures |xs| >= 1 ==> r[..|xs[0]|] == xs[0]
  {
    if |xs| == 0 then []
    else if |xs| == 1 then xs[0]
    else xs[0] + [sep] + Join(xs[1..], sep)
  }

  /** `s.split(sep)`: the pieces between separators, including empty ones. */
  function SplitOn(s: string, sep: char): seq<string> {
    SplitOnFrom(s, sep, [])
  }

  function SplitOnFrom(s: string, sep: char, cur: string): seq<string>
    decreases |s|
  {
    if s == [] then [cur]
    else if s[0] == sep then [cur] + SplitOnFrom(s[1..], sep, [])
    else SplitOnFrom(s[1..], sep, cur + [s[0]])
  }

  lemma {:induction false} SplitOnFromPiece(w: string, t: string, sep: char, cur: string)
    requires sep !in w
    ensures SplitOnFrom(w + t, sep, cur) == SplitOnFrom(t, sep, cur + w)
    decreases |w|
  {
    if w == [] {
      assert w + t == t;
      assert cur + w == cur;
    } else {
      assert (w + t)[0] == w[0];
      assert (w + t)[1..] == w[1..] + t;
      SplitOnFromPiece(w[1..], t, sep, cur + [w[0]]);
      assert cur + [w[0]] + w[1..] == cur + w;
    }
  }

  /** Splitting a join on its separator gives the pieces back, as long as no
      piece contains the separator. */
  lemma {:induction false} SplitJoin(xs: seq<string>, sep: char)
    requires |xs| >= 1
    requires forall k :: 0 <= k < |xs| ==> sep !in xs[k]
    ensures SplitOn(Join(xs, sep), sep) == xs
  {
    if |xs| == 1 {
      SplitOnFromPiece(xs[0], [], sep, []);
      assert xs[0] + [] == xs[0];
      assert [] + xs[0] == xs[0];
    } else {
      var rest := Join(xs[1..], sep);
      assert Join(xs, sep) == xs[0] + ([sep] + rest);
      SplitOnFromPiece(xs[0], [sep] + rest, sep, []);
      assert [] + xs[0] == xs[0];
      assert ([sep] + rest)[1..] == rest;
      SplitJoin(xs[1..], sep);
      assert xs == [xs[0]] + xs[1..];
    }
  }

  /** When `r` starts with `p + x`, it starts with `p`, followed by `x`. */
  lemma PrefixParts(r: string, p: string, x: string)
    requires |p| + |x| <= |r| && r[..|p| + |x|] == p + x
    ensures r[..|p|] == p && r[|p|..|p| + |x|] == x
  {
    assert r[..|p|] == (p + x)[..|p|];
    assert r[|p|..|p| + |x|] == (p + x)[|p|..];
  }
}
