/** The analysis engine of the tokens calculator: multi-line text is cut
    into stripped, non-blank lines; each line gets its 1-based index, its
    word count and its token count; totals and averages are accumulated;
    the per-line table is laid out in fixed-width columns; and the
    capacity projection turns an average token count and a daily demand
    into Compute Units per day.

    The tokenizer selected for a model name is the parameter `tok`: it maps
    a line to the length of its encoding. Averages and capacity figures are
    exact reals. */
module TokensCalculator {
  import opened Text

  /** Output tokens per input token (`OUTPUT_FACTOR`). */
  const OutputFactor: real := 4.0

  /** One analysed line (`LineResult`, and the per-line dictionaries). */
  datatype LineResult = LineResult(index: nat, text: string, words: nat, tokens: nat)

  /** The aggregate figures of an analysis (`Aggregate`). */
  datatype Aggregate = Aggregate(
    totalWords: nat,
    totalTokens: nat,
    avgWordsPerLine: real,
    avgTokensPerLine: real,
    tokensPerWord: real)

  /** The dictionary returned by `analyze_multiline`. */
  datatype Analysis = Analysis(
    model: string,
    linesCount: nat,
    lines: seq<LineResult>,
    totalWords: nat,
    totalTokens: nat,
    avgWordsPerLine: real,
    avgTokensPerLine: real,
    tokensPerWord: real)

  /** The dictionary returned by `analyze_block`. */
  datatype Block = Block(lines: seq<LineResult>, aggregate: Aggregate, model: string)

  /** The dictionary returned by `capacity_calc`. */
  datatype CapacityEstimate = CapacityEstimate(
    avgInputTokens: real,
    outputTokensEst: real,
    cuSecondsPerRequest: real,
    cuHoursPerRequest: real,
    requestsDay: real,
    capacityNeed: real)

  // ---------------------------------------------------------------------
  // Line selection: every line stripped, blank ones dropped
  // ---------------------------------------------------------------------

  /** Every line stripped, in order. */
  function StripAll(lines: seq<string>): seq<string> {
    seq(|lines|, k requires 0 <= k < |lines| => Strip(lines[k]))
  }

  /** The non-empty strings among `ss[i..]`, in order. */
  function NonEmptyFrom(ss: seq<string>, i: nat): seq<string>
    decreases |ss| - i
  {
    if i >= |ss| then []
    else (if ss[i] != [] then [ss[i]] else []) + NonEmptyFrom(ss, i + 1)
  }

  /** The lines an analysis keeps. */
  function KeptLines(text: string): seq<string> {
    NonEmptyFrom(StripAll(SplitLines(text)), 0)
  }

  /** The positions `j >= i` at which `ss[j]` is not empty, in order; a
      witness for `KeptLinesExactly`. */
  ghost function Positions(ss: seq<string>, i: nat): seq<nat>
    decreases |ss| - i
  {
    if i >= |ss| then []
    else (if ss[i] != [] then [i] else []) + Positions(ss, i + 1)
  }

  /** The positions in `Positions(ss, i)` lie in `i..|ss|`. */
  lemma {:induction false} PositionsBounded(ss: seq<string>, i: nat)
    ensures forall k :: 0 <= k < |Positions(ss, i)| ==> i <= Positions(ss, i)[k] < |ss|
    decreases |ss| - i
  {
    if i < |ss| {
      PositionsBounded(ss, i + 1);
    }
  }

  /** The k-th string of `NonEmptyFrom(ss, i)` is the one at position
      `Positions(ss, i)[k]`. */
  lemma {:induction false} NonEmptyFromAt(ss: seq<string>, i: nat)
    ensures |Positions(ss, i)| == |NonEmptyFrom(ss, i)|
    ensures forall k :: 0 <= k < |Positions(ss, i)| ==>
      Positions(ss, i)[k] < |ss| && NonEmptyFrom(ss, i)[k] == ss[Positions(ss, i)[k]]
    decreases |ss| - i
  {
    if i < |ss| {
      NonEmptyFromAt(ss, i + 1);
      var r', idx' := NonEmptyFrom(ss, i + 1), Positions(ss, i + 1);
      var r, idx := NonEmptyFrom(ss, i), Positions(ss, i);
      if ss[i] != [] {
        assert r == [ss[i]] + r';
        assert idx == [i] + idx';
        forall k | 1 <= k < |idx| ensures idx[k] < |ss| && r[k] == ss[idx[k]] {
          assert idx[k] == idx'[k - 1] && r[k] == r'[k - 1];
        }
      } else {
        assert r == r';
        assert idx == idx';
      }
    }
  }

  /** The positions in `Positions(ss, i)` increase. */
  lemma {:induction false} PositionsIncrease(ss: seq<string>, i: nat)
    ensures forall k :: 0 <= k < |Positions(ss, i)| - 1 ==> Positions(ss, i)[k] < Positions(ss, i)[k + 1]
    decreases |ss| - i
  {
    if i < |ss| {
      PositionsIncrease(ss, i + 1);
      PositionsBounded(ss, i + 1);
      var idx' := Positions(ss, i + 1);
      var idx := Positions(ss, i);
      if ss[i] != [] {
        assert idx == [i] + idx';
        IncreasingCons(i, idx');
      } else {
        assert idx == idx';
      }
    }
  }

  /** Putting a smaller number in front of an increasing sequence keeps it
      increasing. */
  lemma IncreasingCons(x: nat, xs: seq<nat>)
    requires forall k :: 0 <= k < |xs| ==> x < xs[k]
    requires forall k :: 0 <= k < |xs| - 1 ==> xs[k] < xs[k + 1]
    ensures forall k :: 0 <= k < |[x] + xs| - 1 ==> ([x] + xs)[k] < ([x] + xs)[k + 1]
  {
    var ys := [x] + xs;
    forall k | 0 <= k < |ys| - 1 ensures ys[k] < ys[k + 1] {
      assert ys[k + 1] == xs[k];
      if k > 0 { assert ys[k] == xs[k - 1]; }
    }
  }

  /** A position `j >= i` is listed in `Positions(ss, i)` exactly when
      `ss[j]` is not empty. */
  lemma {:induction false} PositionsComplete(ss: seq<string>, i: nat)
    ensures forall j :: i <= j < |ss| ==> (ss[j] != [] <==> j in Positions(ss, i))
    decreases |ss| - i
  {
    if i < |ss| {
      PositionsComplete(ss, i + 1);
      PositionsBounded(ss, i + 1);
      var idx' := Positions(ss, i + 1);
      var idx := Positions(ss, i);
      assert i !in idx';
      if ss[i] != [] {
        assert idx == [i] + idx';
      } else {
        assert idx == idx';
      }
    }
  }

  /** The kept lines are exactly the stripped forms of the lines whose
      stripped form is non-empty, in their original order: the k-th kept
      line is the stripped line at position idx[k], positions increase, and
      a line's position is listed if and only if it is not blank. */
  lemma KeptLinesExactly(text: string, lines: seq<string>, idx: seq<nat>)
    requires lines == SplitLines(text) && idx == Positions(StripAll(lines), 0)
    ensures |idx| == |KeptLines(text)|
    ensures forall k :: 0 <= k < |idx| ==> idx[k] < |lines| && KeptLines(text)[k] == Strip(lines[idx[k]])
    ensures forall k :: 0 <= k < |idx| - 1 ==> idx[k] < idx[k + 1]
    ensures forall j :: 0 <= j < |lines| ==> (Strip(lines[j]) != [] <==> j in idx)
  {
    NonEmptyFromAt(StripAll(lines), 0);
    PositionsIncrease(StripAll(lines), 0);
    PositionsComplete(StripAll(lines), 0);
  }

  /** Every kept line is non-empty, stripped and free of line breaks. */
  lemma KeptLinesShape(text: string)
    ensures forall k :: 0 <= k < |KeptLines(text)| ==>
      KeptLines(text)[k] != [] && IsStripped(KeptLines(text)[k]) && NoLineBreak(KeptLines(text)[k])
  {
    var lines := SplitLines(text);
    var idx := Positions(StripAll(lines), 0);
    KeptLinesExactly(text, lines, idx);
    PositionsComplete(StripAll(lines), 0);
    forall k | 0 <= k < |KeptLines(text)|
      ensures KeptLines(text)[k] != [] && NoLineBreak(KeptLines(text)[k])
    {
      assert idx[k] in idx;
    }
  }

  /** An analysis keeps no line exactly when the whole text is blank. */
  lemma KeptLinesEmpty(text: string)
    ensures KeptLines(text) == [] <==> Blank(text)
  {
    var lines := SplitLines(text);
    SplitLinesBlank(text);
    var idx := Positions(StripAll(lines), 0);
    KeptLinesExactly(text, lines, idx);
    if KeptLines(text) == [] {
      forall k | 0 <= k < |lines| ensures Blank(lines[k]) {
        assert k !in idx;
      }
    } else {
      assert idx[0] in idx;
    }
  }

  // ---------------------------------------------------------------------
  // Per-line records and totals
  // ---------------------------------------------------------------------

  /** The record of each kept line, numbered from 1 (`enumerate(.., start=1)`). */
  function Records(kept: seq<string>, tok: string -> nat): seq<LineResult> {
    if kept == [] then []
    else Records(kept[..|kept| - 1], tok) + [LineOf(kept[|kept| - 1], |kept|, tok)]
  }

  /** The k-th record is that of the k-th kept line, at position k + 1. */
  lemma {:induction false} RecordsAt(kept: seq<string>, tok: string -> nat)
    ensures |Records(kept, tok)| == |kept|
    ensures forall k :: 0 <= k < |kept| ==> Records(kept, tok)[k] == LineOf(kept[k], k + 1, tok)
  {
    if kept != [] {
      var init := kept[..|kept| - 1];
      RecordsAt(init, tok);
      assert forall k :: 0 <= k < |init| ==> init[k] == kept[k];
    }
  }

  /** Extending the kept prefix by one line appends that line's record. */
  lemma RecordsSnoc(kept: seq<string>, i: nat, tok: string -> nat)
    requires i < |kept|
    ensures Records(kept[..i + 1], tok) == Records(kept[..i], tok) + [LineOf(kept[i], i + 1, tok)]
  {
    assert kept[..i + 1][..i] == kept[..i];
  }

  /** Appending a record adds its counts to the totals. */
  lemma SumsSnoc(ls: seq<LineResult>, x: LineResult)
    ensures SumWords(ls + [x]) == SumWords(ls) + x.words
    ensures SumTokens(ls + [x]) == SumTokens(ls) + x.tokens
  {
    assert (ls + [x])[..|ls|] == ls;
  }

  /** The record of the line `text` at 1-based position `index`. */
  function LineOf(text: string, index: nat, tok: string -> nat): LineResult {
    LineResult(index, text, |Words(text)|, tok(text))
  }

  function SumWords(ls: seq<LineResult>): nat {
    if ls == [] then 0 else SumWords(ls[..|ls| - 1]) + ls[|ls| - 1].words
  }

  function SumTokens(ls: seq<LineResult>): nat {
    if ls == [] then 0 else SumTokens(ls[..|ls| - 1]) + ls[|ls| - 1].tokens
  }

  /** When every line has a word, there are at least as many words as lines. */
  lemma {:induction false} SumWordsAtLeastCount(ls: seq<LineResult>)
    requires forall k :: 0 <= k < |ls| ==> ls[k].words >= 1
    ensures SumWords(ls) >= |ls|
  {
    if ls != [] {
      SumWordsAtLeastCount(ls[..|ls| - 1]);
    }
  }

  /** What `analyze_multiline` returns for `text`, given the model's tokenizer. */
  function Analyze(text: string, model: string, tok: string -> nat): Analysis {
    var lines := Records(KeptLines(text), tok);
    Summarize(model, lines, SumWords(lines), SumTokens(lines))
  }

  /** The returned dictionary, given the records and their totals: the
      averages divide by the number of lines, or by 1 when there is none,
      and tokens per word is 0 when there are no words. */
  function Summarize(model: string, lines: seq<LineResult>, totalWords: nat, totalTokens: nat): Analysis {
    var count := if |lines| == 0 then 1 else |lines|;
    Analysis(model, |lines|, lines, totalWords, totalTokens,
      totalWords as real / count as real,
      totalTokens as real / count as real,
      if totalWords != 0 then totalTokens as real / totalWords as real else 0.0)
  }

  /** `analyze_multiline`: one pass over the kept lines that numbers them,
      counts words and tokens and accumulates both totals. */
  method AnalyzeMultiline(text: string, model: string, tok: string -> nat) returns (r: Analysis)
    ensures r == Analyze(text, model, tok)
  {
    var linesRaw := KeptLines(text);
    var perLine: seq<LineResult> := [];
    var totalWords: nat := 0;
    var totalTokens: nat := 0;
    for i := 0 to |linesRaw|
      invariant perLine == Records(linesRaw[..i], tok)
      invariant totalWords == SumWords(perLine)
      invariant totalTokens == SumTokens(perLine)
    {
      var line := linesRaw[i];
      var words := |Words(line)|;
      var tokens := tok(line);
      totalWords := totalWords + words;
      totalTokens := totalTokens + tokens;
      var rec := LineResult(i + 1, line, words, tokens);
      RecordsSnoc(linesRaw, i, tok);
      SumsSnoc(perLine, rec);
      perLine := perLine + [rec];
    }
    assert linesRaw[..|linesRaw|] == linesRaw;
    r := Summarize(model, perLine, totalWords, totalTokens);
  }

  /** Every record of an analysis: its index is its 1-based position, its
      text is the corresponding kept line (non-empty, stripped, free of line
      breaks), it has at least one word, and its word and token counts are
      those of its text. */
  lemma AnalyzeRecords(text: string, model: string, tok: string -> nat, a: Analysis)
    requires a == Analyze(text, model, tok)
    ensures a.model == model
    ensures a.linesCount == |a.lines| == |KeptLines(text)|
    ensures forall k :: 0 <= k < |a.lines| ==>
      && a.lines[k].index == k + 1
      && a.lines[k].text == KeptLines(text)[k]
      && a.lines[k].text != [] && IsStripped(a.lines[k].text) && NoLineBreak(a.lines[k].text)
      && a.lines[k].words == |Words(a.lines[k].text)| >= 1
      && a.lines[k].tokens == tok(a.lines[k].text)
  {
    var kept := KeptLines(text);
    RecordsAt(kept, tok);
    KeptLinesShape(text);
    forall k | 0 <= k < |kept| ensures |Words(kept[k])| >= 1 {
      assert kept[k][0] in kept[k];
    }
  }

  /** The aggregates of an analysis: with no kept line every figure is 0;
      otherwise the averages divide the totals by the number of lines, there
      is at least one word per line, so `tokens_per_word` always divides by
      the total word count, and there are no words exactly when there are no
      lines. */
  lemma AnalyzeAggregates(text: string, model: string, tok: string -> nat, a: Analysis)
    requires a == Analyze(text, model, tok)
    ensures a.totalWords == 0 <==> a.linesCount == 0
    ensures a.linesCount == 0 ==>
      && a.lines == [] && a.totalWords == 0 && a.totalTokens == 0
      && a.avgWordsPerLine == 0.0 && a.avgTokensPerLine == 0.0 && a.tokensPerWord == 0.0
    ensures a.linesCount > 0 ==>
      && a.totalWords >= a.linesCount
      && a.avgWordsPerLine == a.totalWords as real / a.linesCount as real
      && a.avgTokensPerLine == a.totalTokens as real / a.linesCount as real
      && a.tokensPerWord == a.totalTokens as real / a.totalWords as real
  {
    AnalyzeRecords(text, model, tok, a);
    SumWordsAtLeastCount(a.lines);
    SummarizeFigures(model, a.lines, a.totalWords, a.totalTokens, a);
  }

  /** The figures `Summarize` derives from totals that are 0 without lines
      and count at least one word per line. */
  lemma SummarizeFigures(model: string, lines: seq<LineResult>, totalWords: nat, totalTokens: nat, a: Analysis)
    requires lines == [] ==> totalWords == 0 && totalTokens == 0
    requires totalWords >= |lines|
    requires a == Summarize(model, lines, totalWords, totalTokens)
    ensures a.lines == lines && a.linesCount == |lines|
    ensures a.totalWords == totalWords && a.totalTokens == totalTokens
    ensures lines == [] ==> a.avgWordsPerLine == 0.0 && a.avgTokensPerLine == 0.0 && a.tokensPerWord == 0.0
    ensures lines != [] ==>
      && a.avgWordsPerLine == totalWords as real / |lines| as real
      && a.avgTokensPerLine == totalTokens as real / |lines| as real
      && a.tokensPerWord == totalTokens as real / totalWords as real
  {
  }

  /** An analysis keeps no line exactly when the text is blank (with
      `AnalyzeAggregates`, its figures are then all zero). */
  lemma AnalyzeBlank(text: string, model: string, tok: string -> nat)
    ensures Analyze(text, model, tok).linesCount == 0 <==> Blank(text)
  {
    KeptLinesEmpty(text);
  }

  /** `analyze_block`: the records and aggregate figures of the analysis,
      repackaged; lines are neither added, dropped nor reordered. */
  function AnalyzeBlock(text: string, model: string, tok: string -> nat): (b: Block)
    ensures b.model == model
    ensures b.lines == Analyze(text, model, tok).lines
    ensures |b.lines| == |KeptLines(text)|
    ensures forall k :: 0 <= k < |b.lines| ==> b.lines[k].index == k + 1 && b.lines[k].text == KeptLines(text)[k]
    ensures b.aggregate.totalWords == SumWords(b.lines)
    ensures b.aggregate.totalTokens == SumTokens(b.lines)
    ensures b.aggregate.avgWordsPerLine == Analyze(text, model, tok).avgWordsPerLine
    ensures b.aggregate.avgTokensPerLine == Analyze(text, model, tok).avgTokensPerLine
    ensures b.aggregate.tokensPerWord == Analyze(text, model, tok).tokensPerWord
  {
    var data := Analyze(text, model, tok);
    RecordsAt(KeptLines(text), tok);
    var lines := seq(|data.lines|, k requires 0 <= k < |data.lines| =>
      LineResult(data.lines[k].index, data.lines[k].text, data.lines[k].words, data.lines[k].tokens));
    assert lines == data.lines;
    Block(lines,
      Aggregate(data.totalWords, data.totalTokens, data.avgWordsPerLine,
                data.avgTokensPerLine, data.tokensPerWord),
      data.model)
  }

  // ---------------------------------------------------------------------
  // Capacity projection
  // ---------------------------------------------------------------------

  /** `capacity_calc`: no validation; a request costs 17/10 CU-seconds per
      input token, and the daily need is the demand times the CU-hours per
      request, spread over 24 hours. */
  function CapacityCalc(avgInputTokens: real, usersPerDay: real, questionsPerUser: real): (c: CapacityEstimate)
    ensures c.avgInputTokens == avgInputTokens
    ensures c.outputTokensEst == 4.0 * avgInputTokens
    ensures c.cuSecondsPerRequest == 17.0 * avgInputTokens / 10.0
    ensures c.cuHoursPerRequest == 17.0 * avgInputTokens / 36000.0
    ensures c.requestsDay == usersPerDay * questionsPerUser
    ensures c.capacityNeed == c.requestsDay * 17.0 * avgInputTokens / 864000.0
    ensures usersPerDay == 0.0 || questionsPerUser == 0.0 ==> c.capacityNeed == 0.0
    ensures avgInputTokens >= 0.0 && usersPerDay >= 0.0 && questionsPerUser >= 0.0 ==>
      c.outputTokensEst >= 0.0 && c.cuSecondsPerRequest >= 0.0 && c.cuHoursPerRequest >= 0.0
      && c.requestsDay >= 0.0 && c.capacityNeed >= 0.0
  {
    var outputTokens := avgInputTokens * OutputFactor;
    var cuSeconds := (avgInputTokens * 100.0 + outputTokens * 400.0) / 1000.0;
    var cuHours := cuSeconds / 3600.0;
    var requestsDay := usersPerDay * questionsPerUser;
    var capacityNeed := (requestsDay * cuHours) / 24.0;
    CapacityEstimate(avgInputTokens, outputTokens, cuSeconds, cuHours, requestsDay, capacityNeed)
  }

  /** A worked figure with the CLI example's demand (1500 users a day, 5
      questions each) and 100 input tokens a request. */
  lemma CapacityExample()
    ensures CapacityCalc(100.0, 1500.0, 5.0)
         == CapacityEstimate(100.0, 400.0, 170.0, 170.0 / 3600.0, 7500.0, 2125.0 / 144.0)
  {
  }

  // ---------------------------------------------------------------------
  // Per-line table: format_lines
  // ---------------------------------------------------------------------

  /** The three numeric columns of the per-line table. */
  datatype Column = IndexColumn | WordsColumn | TokensColumn

  function Cell(l: LineResult, c: Column): string {
    match c
    case IndexColumn => NatToString(l.index)
    case WordsColumn => NatToString(l.words)
    case TokensColumn => NatToString(l.tokens)
  }

  /** The `str(..)` values of one column, one per record. */
  function Cells(lines: seq<LineResult>, c: Column): seq<string> {
    seq(|lines|, k requires 0 <= k < |lines| => Cell(lines[k], c))
  }

  /** The width of a column: `max(len(str(..)) for l in lines)`. */
  function Width(lines: seq<LineResult>, c: Column): nat {
    MaxLen(Cells(lines, c))
  }

  /** The header line for column widths `wi`, `ww` and `wt`. */
  function Header(wi: nat, ww: nat, wt: nat): string {
    "# ." + Pad(wi - 1) + "  WORDS" + Pad(if ww - 5 > 0 then ww - 5 else 0)
      + "  TOKENS" + Pad(if wt - 6 > 0 then wt - 6 else 0) + "  TEXT"
  }

  /** One table row: the three numbers right-justified to their column
      widths, two spaces between columns, then the text. */
  function Row(l: LineResult, wi: nat, ww: nat, wt: nat): string {
    RJust(NatToString(l.index), wi) + "  " + RJust(NatToString(l.words), ww) + "  "
      + RJust(NatToString(l.tokens), wt) + "  " + l.text
  }

  /** One row per record, in order. */
  function Rows(lines: seq<LineResult>, wi: nat, ww: nat, wt: nat): seq<string> {
    seq(|lines|, k requires 0 <= k < |lines| => Row(lines[k], wi, ww, wt))
  }

  /** Extending the prefix of records by one appends that record's row. */
  lemma RowsSnoc(lines: seq<LineResult>, i: nat, wi: nat, ww: nat, wt: nat)
    requires i < |lines|
    ensures Rows(lines[..i + 1], wi, ww, wt) == Rows(lines[..i], wi, ww, wt) + [Row(lines[i], wi, ww, wt)]
  {
    var r, r' := Rows(lines[..i + 1], wi, ww, wt), Rows(lines[..i], wi, ww, wt) + [Row(lines[i], wi, ww, wt)];
    forall k | 0 <= k < i + 1 ensures r[k] == r'[k] {
      assert lines[..i + 1][k] == lines[k];
      if k < i { assert lines[..i][k] == lines[k]; }
    }
  }

  /** The text `format_lines` returns. */
  function FormattedLines(lines: seq<LineResult>): string {
    if lines == [] then "(No lines)"
    else
      var wi := Width(lines, IndexColumn);
      var ww := Width(lines, WordsColumn);
      var wt := Width(lines, TokensColumn);
      var header := Header(wi, ww, wt);
      Join([header, Repeat('-', |header|)] + Rows(lines, wi, ww, wt), '\n')
  }

  /** `format_lines`: column widths from the widest values, then one row
      appended per record. */
  method FormatLines(lines: seq<LineResult>) returns (out: string)
    ensures out == FormattedLines(lines)
  {
    if lines == [] {
      return "(No lines)";
    }
    var wIdx := Width(lines, IndexColumn);
    var wWords := Width(lines, WordsColumn);
    var wTokens := Width(lines, TokensColumn);
    var header := Header(wIdx, wWords, wTokens);
    var sep := Repeat('-', |header|);
    var body: seq<string> := [];
    for i := 0 to |lines|
      invariant body == Rows(lines[..i], wIdx, wWords, wTokens)
    {
      var row := Row(lines[i], wIdx, wWords, wTokens);
      RowsSnoc(lines, i, wIdx, wWords, wTokens);
      body := body + [row];
    }
    assert lines[..|lines|] == lines;
    out := Join([header, sep] + body, '\n');
  }

  /** The columns of a row whose numbers fit their widths: the index
      right-justified in the first `wi` characters, then two spaces, the
      word count right-justified in the next `ww`, two spaces, the token
      count right-justified in the next `wt`, two spaces, and the text from
      offset `wi + ww + wt + 6` on. */
  lemma RowColumns(l: LineResult, wi: nat, ww: nat, wt: nat, r: string)
    requires |NatToString(l.index)| <= wi
    requires |NatToString(l.words)| <= ww
    requires |NatToString(l.tokens)| <= wt
    requires r == Row(l, wi, ww, wt)
    ensures |r| == wi + ww + wt + 6 + |l.text|
    ensures r[..wi] == RJust(NatToString(l.index), wi)
    ensures r[wi..wi + 2] == "  "
    ensures r[wi + 2..wi + 2 + ww] == RJust(NatToString(l.words), ww)
    ensures r[wi + 2 + ww..wi + ww + 4] == "  "
    ensures r[wi + ww + 4..wi + ww + wt + 4] == RJust(NatToString(l.tokens), wt)
    ensures r[wi + ww + wt + 4..wi + ww + wt + 6] == "  "
    ensures r[wi + ww + wt + 6..] == l.text
  {
    var a, b, c, g := RJust(NatToString(l.index), wi), RJust(NatToString(l.words), ww), RJust(NatToString(l.tokens), wt), "  ";
    assert |a| == wi && |b| == ww && |c| == wt && |g| == 2;
    FieldsAt(a, g, b, c, l.text, r);
  }

  /** Where each part of `a + g + b + g + c + g + t` lies. */
  lemma FieldsAt(a: string, g: string, b: string, c: string, t: string, r: string)
    requires r == a + g + b + g + c + g + t
    ensures r[..|a|] == a
    ensures r[|a|..|a| + |g|] == g
    ensures r[|a| + |g|..|a| + |g| + |b|] == b
    ensures r[|a| + |g| + |b|..|a| + |b| + 2 * |g|] == g
    ensures r[|a| + |b| + 2 * |g|..|a| + |b| + |c| + 2 * |g|] == c
    ensures r[|a| + |b| + |c| + 2 * |g|..|a| + |b| + |c| + 3 * |g|] == g
    ensures r[|a| + |b| + |c| + 3 * |g|..] == t
  {
    var p2 := a + g;
    var p3 := p2 + b;
    var p4 := p3 + g;
    var p5 := p4 + c;
    var p6 := p5 + g;
    assert r[..|r|] == p6 + t;
    PrefixParts(r, p6, t);
    PrefixParts(r, p5, g);
    PrefixParts(r, p4, c);
    PrefixParts(r, p3, g);
    PrefixParts(r, p2, b);
    PrefixParts(r, a, g);
  }

  lemma RowNoNewline(l: LineResult, wi: nat, ww: nat, wt: nat)
    requires NoNewline(l.text)
    ensures NoNewline(Row(l, wi, ww, wt))
  {
    var a, b, c := RJust(NatToString(l.index), wi), RJust(NatToString(l.words), ww), RJust(NatToString(l.tokens), wt);
    assert '\n' !in a && '\n' !in b && '\n' !in c;
    assert Row(l, wi, ww, wt) == a + "  " + b + "  " + c + "  " + l.text;
  }

  /** The column widths are those of the widest index, word count and
      token count: every value fits its column and some record fills it. */
  lemma ColumnWidths(lines: seq<LineResult>, wi: nat, ww: nat, wt: nat)
    requires lines != []
    requires wi == Width(lines, IndexColumn)
    requires ww == Width(lines, WordsColumn)
    requires wt == Width(lines, TokensColumn)
    ensures forall k :: 0 <= k < |lines| ==>
      |NatToString(lines[k].index)| <= wi && |NatToString(lines[k].words)| <= ww
      && |NatToString(lines[k].tokens)| <= wt
    ensures exists k :: 0 <= k < |lines| && |NatToString(lines[k].index)| == wi
    ensures exists k :: 0 <= k < |lines| && |NatToString(lines[k].words)| == ww
    ensures exists k :: 0 <= k < |lines| && |NatToString(lines[k].tokens)| == wt
  {
    var ic, wc, tc := Cells(lines, IndexColumn), Cells(lines, WordsColumn), Cells(lines, TokensColumn);
    forall k | 0 <= k < |lines|
      ensures |NatToString(lines[k].index)| <= wi && |NatToString(lines[k].words)| <= ww
      ensures |NatToString(lines[k].tokens)| <= wt
    {
      assert ic[k] == NatToString(lines[k].index);
      assert wc[k] == NatToString(lines[k].words);
      assert tc[k] == NatToString(lines[k].tokens);
    }
    var k0 :| 0 <= k0 < |ic| && |ic[k0]| == wi;
    var k1 :| 0 <= k1 < |wc| && |wc[k1]| == ww;
    var k2 :| 0 <= k2 < |tc| && |tc[k2]| == wt;
    assert |NatToString(lines[k0].index)| == wi;
    assert |NatToString(lines[k1].words)| == ww;
    assert |NatToString(lines[k2].tokens)| == wt;
  }

  lemma HeaderNoNewline(wi: nat, ww: nat, wt: nat)
    ensures NoNewline(Header(wi, ww, wt))
  {
    var p1, p2, p3 := Pad(wi - 1), Pad(if ww - 5 > 0 then ww - 5 else 0), Pad(if wt - 6 > 0 then wt - 6 else 0);
    assert '\n' !in p1 && '\n' !in p2 && '\n' !in p3;
    var l0, l1, l2, l3 := "# .", "  WORDS", "  TOKENS", "  TEXT";
    assert '\n' !in l0 && '\n' !in l1 && '\n' !in l2 && '\n' !in l3;
    assert Header(wi, ww, wt) == l0 + p1 + l1 + p2 + l2 + p3 + l3;
  }

  /** A non-empty table read back line by line: the header, a row of dashes
      as long as the header, then one row per record, in order (provided no
      text holds a newline of its own). With `ColumnWidths` and `RowColumns`
      this gives every row its numbers right-justified to the widest value
      of their column and its text at the same offset. */
  lemma FormattedLinesLayout(lines: seq<LineResult>, out: seq<string>, wi: nat, ww: nat, wt: nat)
    requires lines != []
    requires forall k :: 0 <= k < |lines| ==> NoNewline(lines[k].text)
    requires wi == Width(lines, IndexColumn)
    requires ww == Width(lines, WordsColumn)
    requires wt == Width(lines, TokensColumn)
    requires out == SplitOn(FormattedLines(lines), '\n')
    ensures |out| == |lines| + 2
    ensures out[0] == Header(wi, ww, wt)
    ensures out[1] == Repeat('-', |out[0]|)
    ensures forall k :: 0 <= k < |lines| ==> out[k + 2] == Row(lines[k], wi, ww, wt)
  {
    var header := Header(wi, ww, wt);
    var rows := Rows(lines, wi, ww, wt);
    assert FormattedLines(lines) == Join([header, Repeat('-', |header|)] + rows, '\n');
    HeaderNoNewline(wi, ww, wt);
    forall k | 0 <= k < |rows| ensures NoNewline(rows[k]) {
      RowNoNewline(lines[k], wi, ww, wt);
    }
    JoinedTableSplits(header, Repeat('-', |header|), rows);
  }

  /** A header, a rule and rows, none holding a newline, read back from
      their newline-joined text. */
  lemma JoinedTableSplits(header: string, rule: string, rows: seq<string>)
    requires NoNewline(header) && NoNewline(rule)
    requires forall k :: 0 <= k < |rows| ==> NoNewline(rows[k])
    ensures SplitOn(Join([header, rule] + rows, '\n'), '\n') == [header, rule] + rows
  {
    var all := [header, rule] + rows;
    TableNoNewline(header, rule, rows, all);
    SplitJoin(all, '\n');
  }

  lemma TableNoNewline(header: string, rule: string, rows: seq<string>, all: seq<string>)
    requires all == [header, rule] + rows
    requires NoNewline(header) && NoNewline(rule)
    requires forall k :: 0 <= k < |rows| ==> NoNewline(rows[k])
    ensures forall k :: 0 <= k < |all| ==> NoNewline(all[k])
  {
    forall k | 0 <= k < |all| ensures NoNewline(all[k]) {
      if k >= 2 {
        assert all[k] == rows[k - 2];
      }
    }
  }

  /** As written, the header's "TEXT" label starts at least two columns to
      the right of where every row's text starts: the "# ." label takes
      `wi + 2` characters before the two-space gap, and the WORDS and
      TOKENS labels are never narrower than their columns. */
  lemma HeaderTextOffset(wi: nat, ww: nat, wt: nat, h: string)
    requires wi >= 1
    requires h == Header(wi, ww, wt)
    ensures |h| >= 4 && h[|h| - 4..] == "TEXT"
    ensures |h| - 4 >= (wi + ww + wt + 6) + 2
  {
    assert h[|h| - 4..] == "TEXT";
  }
}
