# Token counting and Compute Unit capacity estimation

A Dafny model of the two calculators of the repository:

- `tokens_calculator.py` (module `TokensCalculator`) takes pasted
  multi-line text. It keeps the stripped, non-blank lines. It numbers them
  from 1 and counts each line's words (`str.split()`) and tokens (the
  model's encoding). It totals and averages both counts and computes tokens
  per word. It lays the per-line results out as a fixed-width table, and it
  projects an average token count and a daily demand onto the Compute
  Units (CU) needed per day.
- `manual_cu_estimator.py` (module `ManualCuEstimator`) does the same
  capacity projection from typed-in figures. It refuses non-positive
  inputs with a `ValueError`, and it prints caption/value pairs as an
  aligned two-column table.
- Module `Text` models the Python string built-ins both files rely on:
  `strip`, `split`, `splitlines`, `str` of a non-negative integer,
  `rjust`, `ljust`, `join`, `str * n` and `max(len(..))`. Whitespace and
  line breaks are the exact character sets Python uses.

The tokenizer is a parameter `tok: string -> nat`, the token count of a
line. Floating-point figures are exact reals. The loops of
`analyze_multiline`, `format_lines` and `format_table` are methods with
loop invariants. Each is proved equal to a specification function
(`Analyze`, `FormattedLines`, `FormattedTable`), and lemmas state what those
functions guarantee.

These two files have no separator choice, no lowercasing, no character
counts and no tokenizer tiers: lines are always cut by `splitlines()`, and
one encoding counts every line.

## Model

| member | source | states |
|---|---|---|
| TokensCalculator.AnalyzeMultiline | tokens_calculator.py:46-90 | The one-pass loop (numbering, word and token counts, running totals, averages with `len or 1`, tokens per word 0 without words) returns exactly the analysis `Analyze` specifies |
| TokensCalculator.KeptLinesExactly | tokens_calculator.py:57 | The kept lines are the stripped forms of the lines that are not blank, in their original order: the k-th kept line is line idx[k] stripped, positions increase, and a line is kept if and only if its stripped form is non-empty |
| TokensCalculator.KeptLinesShape | tokens_calculator.py:57 | Every kept line is non-empty, stripped at both ends and free of line breaks |
| TokensCalculator.KeptLinesEmpty | tokens_calculator.py:55-57 | No line is kept if and only if the whole text is whitespace |
| TokensCalculator.RecordsAt | tokens_calculator.py:64-74 | The k-th record is that of the k-th kept line, with index k + 1 (`enumerate(.., start=1)`), its word count and its token count |
| TokensCalculator.SumWordsAtLeastCount | tokens_calculator.py:65-67 | When every line has at least one word, the word total is at least the number of lines |
| TokensCalculator.AnalyzeRecords | tokens_calculator.py:57-83 | The analysis echoes the model, `lines_count` equals the number of records and of kept lines, and each record has its 1-based index, its kept line as text (non-empty, stripped, no line break), at least one word, and the word and token counts of that text |
| TokensCalculator.AnalyzeAggregates | tokens_calculator.py:76-79 | There are no words exactly when there are no lines; with no lines every figure is 0; otherwise the averages are the totals divided by the line count and tokens per word is the token total divided by the word total |
| TokensCalculator.SummarizeFigures | tokens_calculator.py:76-90 | The figures of the returned dictionary for given records and totals: the `or 1` count makes the averages 0 without lines, and tokens per word divides by the word total |
| TokensCalculator.AnalyzeBlank | tokens_calculator.py:55-57 | An analysis has zero lines if and only if the text is blank |
| TokensCalculator.AnalyzeBlock | tokens_calculator.py:126-136 | The block holds the analysis's records unchanged (same count, 1-based indices, kept texts), the model, and an aggregate whose totals are the sums of the records and whose averages and tokens per word are those of the analysis |
| TokensCalculator.CapacityCalc | tokens_calculator.py:165-178 | Without validation: output tokens are 4 times the input, a request costs 17/10 CU-seconds and 17/36000 CU-hours per input token, requests a day are users times questions, the need is requests times 17 times tokens over 864000, zero demand needs zero CU, and non-negative inputs give non-negative figures |
| TokensCalculator.CapacityExample | tokens_calculator.py:165-178 | 100 tokens, 1500 users and 5 questions give 400 output tokens, 170 CU-seconds, 7500 requests a day and 2125/144 CU |
| TokensCalculator.FormatLines | tokens_calculator.py:139-150 | The loop that appends one row per record returns exactly `FormattedLines`: "(No lines)" for no records, otherwise the header, a dash rule as long as the header, and the rows, joined by newlines |
| TokensCalculator.ColumnWidths | tokens_calculator.py:142-144 | Each column width is that of its widest value: every index, word count and token count fits its column, and some record fills each column |
| TokensCalculator.RowColumns | tokens_calculator.py:149 | A row of fitting numbers has the index right-justified in the first `wi` characters, then two spaces, the words right-justified in the next `ww`, two spaces, the tokens right-justified in the next `wt`, two spaces, and the text from offset `wi + ww + wt + 6` on |
| TokensCalculator.FormattedLinesLayout | tokens_calculator.py:145-150 | A non-empty table splits back into exactly the header, a rule of dashes as long as the header, and one row per record in order |
| TokensCalculator.HeaderTextOffset | tokens_calculator.py:145 | The header ends in "TEXT", and that label starts at least two columns to the right of where every row's text starts |
| Text.Strip | tokens_calculator.py:57 | `strip()` returns the slice of its input that only whitespace precedes and follows, with no whitespace at either end of it; it is empty exactly for blank input |
| Text.StripIdempotent | tokens_calculator.py:57 | Stripping twice is stripping once |
| Text.SplitLinesShape | tokens_calculator.py:57 | `splitlines()` gives one line per line boundary (a "\r\n" pair counting once), plus one for a last line no boundary ends; joined, the lines are the text without its line breaks |
| Text.SplitLinesCuts | tokens_calculator.py:57 | `splitlines()` cuts exactly at the line boundaries: with every boundary (a "\r\n" pair counting once) made a single newline, its lines are the pieces between newlines, in order, except the empty piece after a final boundary |
| Text.SplitLines | tokens_calculator.py:57 | No line of `splitlines()` holds a line break |
| Text.SplitLinesBlank | tokens_calculator.py:57 | Every line of `splitlines()` is blank exactly when the text is |
| Text.Words | tokens_calculator.py:65 | `split()` gives non-empty words without whitespace, and at least one word for text that is not blank |
| Text.WordsCount | tokens_calculator.py:65 | `split()` gives exactly one word per maximal run of non-whitespace characters: as many words as characters that begin such a run |
| Text.WordsConcat | tokens_calculator.py:65 | The words of `split()`, concatenated, are the text with its whitespace removed: no character is lost or reordered |
| Text.NatToString | tokens_calculator.py:149 | `str(n)` is a non-empty string of decimal digits without a leading zero |
| Text.NatToStringRoundTrip | tokens_calculator.py:149 | Reading `str(n)` back as a decimal number gives `n` |
| Text.RJustEndsWith | tokens_calculator.py:149 | `rjust` puts only spaces before the string and ends with the string itself |
| Text.LJust | manual_cu_estimator.py:82 | `ljust(w)` keeps the string as its prefix, pads with spaces up to `w`, and never truncates |
| Text.MaxLen | manual_cu_estimator.py:79 | The maximum length is at least every length and equals one of them |
| Text.Repeat | tokens_calculator.py:146 | `c * n` is `n` copies of `c` |
| Text.Pad | tokens_calculator.py:145 | `' ' * n` is `n` spaces, and "" for a negative `n` |
| Text.Join | tokens_calculator.py:150 | `sep.join` of no pieces is ""; otherwise it starts with the first piece and is as long as the pieces plus one separator between each pair of neighbours |
| Text.SplitJoin | tokens_calculator.py:150 | Splitting a newline join of newline-free pieces gives the pieces back |
| ManualCuEstimator.ComputeCapacity | manual_cu_estimator.py:51-75 | Raises `ValueError` exactly when an input is not positive, with the message of the first failing check in the order tokens, users, questions; otherwise echoes the inputs, output is 4 times the input, CU-seconds are 17/10 per token, minutes and hours are seconds over 60 and 3600, requests a day are users times questions, and the need is requests times CU-hours over 24 |
| ManualCuEstimator.ComputeCapacityPositive | manual_cu_estimator.py:51-64 | Positive inputs are accepted, every figure is positive, and the need is users times questions times tokens times 17/864000 |
| ManualCuEstimator.ComputeCapacityAgreesWithCalc | manual_cu_estimator.py:59-64 | For accepted inputs, every figure the estimator shares with `capacity_calc` of the tokens calculator is equal |
| ManualCuEstimator.FormattedTable | manual_cu_estimator.py:78-83 | There is no table exactly when there are no rows (`max()` of nothing raises) |
| ManualCuEstimator.FormatTable | manual_cu_estimator.py:78-83 | The loop that appends one line per pair returns exactly `FormattedTable` |
| ManualCuEstimator.TableLineLayout | manual_cu_estimator.py:82 | A line whose caption is narrower than the width holds the caption, spaces up to the width, ": " at offset `width`, then the value |
| ManualCuEstimator.FormattedTableLayout | manual_cu_estimator.py:78-83 | A non-empty table splits back into one line per pair, in order, each with its separator at the same width, which is two more than the longest caption, so every caption fits and one fills it |

## Left out

- The tokenizer (`_get_encoding`, tiktoken and its `cl100k_base` fallback) is not modelled: the token count of a line is the parameter `tok`. The model name only passes through to the result. `tok` is total: the real encoder raises `ValueError` on a line holding a special-token string such as `<|endoftext|>`, and loading the encoding can fail, so `analyze_multiline` and `analyze_block` can raise where `AnalyzeMultiline` and `AnalyzeBlock` return an analysis.
- Reading input and the command-line front ends are I/O and are not modelled: `read_multiline`, `interactive`, `interactive_flow`, `parse_args` and both `main` functions.
- `format_aggregate` is not modelled. It formats floats to fixed decimals, and when the average is 0 it prints the built-in `len` function object instead of a count.
- `CapacityResult.to_rows` is not modelled: it formats floats to fixed decimals. `FormatTable` takes any caption/value pairs.
- Floating point is exact real arithmetic. Rounding is not modelled, and neither is a NaN input getting past the `<= 0` guards of `compute_capacity`.
- ManualCuEstimator.ComputeCapacityAgreesWithCalc: the agreement of the CU-hours holds over reals only. `compute_capacity` divides by 60 twice and `capacity_calc` divides by 3600 once, and with doubles the two can differ in the last place, and so can the capacity needed.
- ManualCuEstimator.ComputeCapacity: minutes and hours are stated by `cuMinutes * 60 == cuSeconds` and `cuHours * 3600 == cuSeconds` rather than as quotients. This is the same value for reals.
- ManualCuEstimator.FormattedTable: `format_table` on no rows raises `ValueError` from `max()`. The model returns `None` instead of an exception.
- TokensCalculator.LineResult: the counts are natural numbers, since every producer yields non-negative values. `str()` of a negative number is not modelled.
- TokensCalculator.HeaderTextOffset: the header's labels do not line up with the row columns. This is proved as written and not corrected, since the intended layout cannot be read from the code.
- Text: characters are Unicode scalar values, so a lone surrogate (U+D800 to U+DFFF), which a Python `str` can hold, for example after decoding input with `surrogateescape`, cannot be represented. Neither file normalises or case-folds text.
