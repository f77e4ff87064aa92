/** The manual Compute Unit estimator: from an average number of input
    tokens per question, a number of users a day and a number of questions
    per user, it derives the output tokens, the CU-seconds, CU-minutes and
    CU-hours of one request, the requests a day and the capacity needed,
    refusing non-positive inputs; and it lays caption/value pairs out as an
    aligned two-column table.

    The inputs are exact reals. */
module ManualCuEstimator {
  import opened Text
  import TokensCalculator

  /** Output tokens per input token (`FACTOR_OUTPUT`). */
  const FactorOutput: real := 4.0

  const AvgInputTokensMessage: string := "Average input tokens must be > 0"
  const UsersPerDayMessage: string := "Users per day must be > 0"
  const QuestionsPerUserMessage: string := "Questions per user must be > 0"

  /** `CapacityResult`. */
  datatype CapacityResult = CapacityResult(
    inputTokens: real,
    outputTokens: real,
    cuSeconds: real,
    cuMinutes: real,
    cuHours: real,
    usersPerDay: real,
    questionsPerUser: real,
    requestsDay: real,
    capacityNeed: real)

  /** A value, or the message of the `ValueError` raised instead. */
  datatype Result<T> = Success(value: T) | ValueError(message: string)

  datatype Option<T> = None | Some(value: T)

  // ---------------------------------------------------------------------
  // compute_capacity
  // ---------------------------------------------------------------------

  /** `compute_capacity`: the inputs are checked in order (average input
      tokens, then users, then questions) and the first non-positive one is
      reported; otherwise every figure follows from the formulas. */
  function ComputeCapacity(avgInputTokens: real, usersPerDay: real, questionsPerUser: real): (r: Result<CapacityResult>)
    ensures r.ValueError? <==> avgInputTokens <= 0.0 || usersPerDay <= 0.0 || questionsPerUser <= 0.0
    ensures avgInputTokens <= 0.0 ==> r == ValueError(AvgInputTokensMessage)
    ensures avgInputTokens > 0.0 && usersPerDay <= 0.0 ==> r == ValueError(UsersPerDayMessage)
    ensures avgInputTokens > 0.0 && usersPerDay > 0.0 && questionsPerUser <= 0.0 ==> r == ValueError(QuestionsPerUserMessage)
    ensures r.Success? ==>
      && r.value.inputTokens == avgInputTokens
      && r.value.usersPerDay == usersPerDay
      && r.value.questionsPerUser == questionsPerUser
      && r.value.outputTokens == 4.0 * avgInputTokens
      && r.value.cuSeconds == 17.0 * avgInputTokens / 10.0
      && r.value.cuMinutes * 60.0 == r.value.cuSeconds
      && r.value.cuHours * 3600.0 == r.value.cuSeconds
      && r.value.requestsDay == usersPerDay * questionsPerUser
      && r.value.capacityNeed * 24.0 == r.value.requestsDay * r.value.cuHours
  {
    if avgInputTokens <= 0.0 then ValueError(AvgInputTokensMessage)
    else if usersPerDay <= 0.0 then ValueError(UsersPerDayMessage)
    else if questionsPerUser <= 0.0 then ValueError(QuestionsPerUserMessage)
    else
      var outputTokens := avgInputTokens * FactorOutput;
      var cuSeconds := (avgInputTokens * 100.0 + outputTokens * 400.0) / 1000.0;
      var cuMinutes := cuSeconds / 60.0;
      var cuHours := cuMinutes / 60.0;
      var requestsDay := usersPerDay * questionsPerUser;
      var capacityNeed := (requestsDay * cuHours) / 24.0;
      Success(CapacityResult(avgInputTokens, outputTokens, cuSeconds, cuMinutes, cuHours,
        usersPerDay, questionsPerUser, requestsDay, capacityNeed))
  }

  /** Every figure of an accepted estimate is positive, and the capacity
      needed is 17/864000 CU per input token, user and question. */
  lemma ComputeCapacityPositive(avgInputTokens: real, usersPerDay: real, questionsPerUser: real)
    requires avgInputTokens > 0.0 && usersPerDay > 0.0 && questionsPerUser > 0.0
    ensures ComputeCapacity(avgInputTokens, usersPerDay, questionsPerUser).Success?
    ensures var c := ComputeCapacity(avgInputTokens, usersPerDay, questionsPerUser).value;
      && c.outputTokens > 0.0 && c.cuSeconds > 0.0 && c.cuMinutes > 0.0 && c.cuHours > 0.0
      && c.requestsDay > 0.0 && c.capacityNeed > 0.0
      && c.capacityNeed == usersPerDay * questionsPerUser * avgInputTokens * 17.0 / 864000.0
  {
  }

  /** For accepted inputs the estimator agrees, figure for figure, with the
      capacity projection of the tokens calculator, which does no
      validation. */
  lemma ComputeCapacityAgreesWithCalc(avgInputTokens: real, usersPerDay: real, questionsPerUser: real)
    requires avgInputTokens > 0.0 && usersPerDay > 0.0 && questionsPerUser > 0.0
    ensures ComputeCapacity(avgInputTokens, usersPerDay, questionsPerUser).Success?
    ensures var c := ComputeCapacity(avgInputTokens, usersPerDay, questionsPerUser).value;
      var e := TokensCalculator.CapacityCalc(avgInputTokens, usersPerDay, questionsPerUser);
      && c.inputTokens == e.avgInputTokens
      && c.outputTokens == e.outputTokensEst
      && c.cuSeconds == e.cuSecondsPerRequest
      && c.cuHours == e.cuHoursPerRequest
      && c.requestsDay == e.requestsDay
      && c.capacityNeed == e.capacityNeed
  {
    ComputeCapacityPositive(avgInputTokens, usersPerDay, questionsPerUser);
  }

  // ---------------------------------------------------------------------
  // format_table
  // ---------------------------------------------------------------------

  /** The labels of caption/value pairs, in order. */
  function Labels(rows: seq<(string, string)>): seq<string> {
    seq(|rows|, k requires 0 <= k < |rows| => rows[k].0)
  }

  /** One line of the table: the caption left-justified to `width`, then
      ": ", then the value. */
  function TableLine(caption: string, value: string, width: nat): string {
    LJust(caption, width) + ": " + value
  }

  /** The lines of the table, one per pair, in order. */
  function TableLines(rows: seq<(string, string)>, width: nat): seq<string> {
    seq(|rows|, k requires 0 <= k < |rows| => TableLine(rows[k].0, rows[k].1, width))
  }

  /** What `format_table` returns: `None` for no rows, where `max()` of an
      empty sequence raises `ValueError`; otherwise the lines, labels padded
      to two more than the longest caption, joined by newlines. */
  function FormattedTable(rows: seq<(string, string)>): (r: Option<string>)
    ensures r.None? <==> rows == []
  {
    if rows == [] then None
    else Some(Join(TableLines(rows, MaxLen(Labels(rows)) + 2), '\n'))
  }

  /** `format_table`: the width from the longest caption, then one line
      appended per pair, then the lines joined. */
  method FormatTable(rows: seq<(string, string)>) returns (r: Option<string>)
    ensures r == FormattedTable(rows)
  {
    if rows == [] {
      return None;
    }
    var width := MaxLen(Labels(rows)) + 2;
    var lines: seq<string> := [];
    for i := 0 to |rows|
      invariant lines == TableLines(rows[..i], width)
    {
      TableLinesSnoc(rows, i, width);
      lines := lines + [TableLine(rows[i].0, rows[i].1, width)];
    }
    assert rows[..|rows|] == rows;
    r := Some(Join(lines, '\n'));
  }

  lemma TableLinesSnoc(rows: seq<(string, string)>, i: nat, width: nat)
    requires i < |rows|
    ensures TableLines(rows[..i + 1], width) == TableLines(rows[..i], width) + [TableLine(rows[i].0, rows[i].1, width)]
  {
    var r, r' := TableLines(rows[..i + 1], width), TableLines(rows[..i], width) + [TableLine(rows[i].0, rows[i].1, width)];
    forall k | 0 <= k < i + 1 ensures r[k] == r'[k] {
      assert rows[..i + 1][k] == rows[k];
      if k < i { assert rows[..i][k] == rows[k]; }
    }
  }

  /** The layout of one line whose caption is narrower than `width`: the
      caption, spaces up to `width`, ": " at offset `width`, then the value. */
  lemma TableLineLayout(caption: string, value: string, width: nat, line: string)
    requires |caption| < width
    requires line == TableLine(caption, value, width)
    ensures |line| == width + 2 + |value|
    ensures line[..|caption|] == caption
    ensures forall k :: |caption| <= k < width ==> line[k] == ' '
    ensures line[width..width + 2] == ": "
    ensures line[width + 2..] == value
  {
    var p, g := LJust(caption, width), ": ";
    assert |p| == width && |g| == 2;
    assert line == p + g + value;
    assert line[..|p| + |g| + |value|] == line;
    PrefixParts(line, p + g, value);
    PrefixParts(line, p, g);
    assert p[..|caption|] == caption;
  }

  /** A non-empty table read back line by line, when no caption or value holds
      a newline: one line per pair, in order, all with the ": " separator at
      the same offset, two columns right of the longest caption. */
  lemma FormattedTableLayout(rows: seq<(string, string)>, width: nat, out: seq<string>)
    requires rows != []
    requires forall k :: 0 <= k < |rows| ==> NoNewline(rows[k].0) && NoNewline(rows[k].1)
    requires width == MaxLen(Labels(rows)) + 2
    requires out == SplitOn(FormattedTable(rows).value, '\n')
    ensures |out| == |rows|
    ensures forall k :: 0 <= k < |rows| ==> out[k] == TableLine(rows[k].0, rows[k].1, width)
    ensures forall k :: 0 <= k < |rows| ==> |rows[k].0| + 2 <= width
    ensures exists k :: 0 <= k < |rows| && |rows[k].0| + 2 == width
  {
    var lines := TableLines(rows, width);
    TableLinesNoNewline(rows, width, lines);
    SplitJoin(lines, '\n');
    TableWidth(rows, width);
  }

  /** The width is two more than the longest caption: every caption fits,
      and one fills it. */
  lemma TableWidth(rows: seq<(string, string)>, width: nat)
    requires rows != []
    requires width == MaxLen(Labels(rows)) + 2
    ensures forall k :: 0 <= k < |rows| ==> |rows[k].0| + 2 <= width
    ensures exists k :: 0 <= k < |rows| && |rows[k].0| + 2 == width
  {
    var labels := Labels(rows);
    assert forall k :: 0 <= k < |rows| ==> labels[k] == rows[k].0;
    var k0 :| 0 <= k0 < |labels| && |labels[k0]| == width - 2;
    assert |rows[k0].0| + 2 == width;
  }

  lemma TableLinesNoNewline(rows: seq<(string, string)>, width: nat, lines: seq<string>)
    requires forall k :: 0 <= k < |rows| ==> NoNewline(rows[k].0) && NoNewline(rows[k].1)
    requires lines == TableLines(rows, width)
    ensures forall k :: 0 <= k < |lines| ==> NoNewline(lines[k])
  {
    forall k | 0 <= k < |lines| ensures NoNewline(lines[k]) {
      var p := LJust(rows[k].0, width);
      assert forall c :: c in p ==> c == ' ' || c in rows[k].0;
      assert lines[k] == p + ": " + rows[k].1;
    }
  }
}
