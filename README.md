# Interval splitting into overlapping windows

A Dafny model of `scripts/split_intervals.py`. The script reads genomic intervals, one per line: a chromosome, a start, a stop and any further columns. It cuts each interval into windows of a fixed size. Consecutive windows overlap by a fixed amount. For every window it writes one line with the record's chromosome, the window and the record's further columns.

The core is `split_interval`. It takes a closed, 1-based inclusive interval `(s, e)`, a window size `w` and an overlap `o`. Let `L = e - s + 1` and `step = w - o`. The function does three things:

- It emits `ceil((L - w) / step)` regular windows `(s + i*step, s + i*step + w - 1)`. It emits none when that count is zero or negative.
- It builds a trailing window `(max(e - w + 1, s), e)`. This window is right-anchored and clamped on the left.
- It appends the trailing window only if that window is not already in the list.

Files:

- `windows.dfy` (module `Windows`): the intervals, the parameter condition `ValidParams` (`w >= 1` and `0 <= o < w`), exact integer ceiling division, and the specification function `Split` built from `RegularWindow` and `TrailingWindow`.
- `window_properties.dfy` (module `WindowProperties`): lemmas about `Split`. They cover the number of windows, the fact that the membership test never drops the trailing window, anchoring at both ends, bounds, window lengths, the step between starts, strict ordering, the absence of duplicates and gaps, exact coverage, and the six documented examples.
- `splitter.dfy` (module `Splitter`): `SplitInterval`, the loop that grows the list as the source does, proved equal to `Split`.
- `script.dfy` (module `Script`): the option check, the expansion of parsed records into output rows, and the whole run over a sequence of records.

The splitter does not require `start <= stop`. The source never checks this, and neither does the model. For `start > stop` the result is the single window `(start, stop)`. `ShortIntervalIsSingleWindow` and `Coverage` hold for such inputs too. `ValidParams` is required because with `o == w` the source divides by zero at line 26.

## Model

| member | source | states |
|---|---|---|
| `Windows.CeilDiv` | scripts/split_intervals.py:26 | the result `q` is the ceiling of `a / b`: `(q - 1) * b < a <= q * b`, negative `a` included |
| `WindowProperties.WindowCountPositive` | scripts/split_intervals.py:25-26 | the regular-window count is positive exactly when the interval is longer than one window |
| `WindowProperties.RegularBeforeTrailing` | scripts/split_intervals.py:29-33 | every regular window ends strictly before the interval's end and starts strictly before the trailing window |
| `WindowProperties.SplitShape` | scripts/split_intervals.py:25-38 | the result is `max(count, 0)` regular windows followed by the trailing window; the membership test never drops it, so the length is `max(count, 0) + 1` |
| `WindowProperties.ShortIntervalIsSingleWindow` | scripts/split_intervals.py:25-36 | the result is exactly `[(s, e)]` if and only if `L <= w`; it has one element if and only if `L <= w` |
| `WindowProperties.Anchored` | scripts/split_intervals.py:30-36 | the result is non-empty, the first window starts at `s` and the last window ends at `e` |
| `WindowProperties.WindowsWithinBounds` | scripts/split_intervals.py:30-33 | every window starts at or after `s` and ends at or before `e` |
| `WindowProperties.WindowLengths` | scripts/split_intervals.py:30-33 | every window is `w` long when `L > w`; otherwise the window is `L` long |
| `WindowProperties.RegularStep` | scripts/split_intervals.py:29-31 | consecutive regular windows start exactly `w - o` apart |
| `WindowProperties.StrictlyIncreasing` | scripts/split_intervals.py:29-36 | window starts and window ends both strictly increase along the result |
| `WindowProperties.NoDuplicates` | scripts/split_intervals.py:33-36 | no two positions of the result hold the same window |
| `WindowProperties.NoGaps` | scripts/split_intervals.py:30-33 | each window starts no later than one past the previous window's end |
| `WindowProperties.Coverage` | scripts/split_intervals.py:25-38 | an integer lies in some window if and only if it lies in `[s, e]` |
| `WindowProperties.DocumentedExamples` | scripts/split_intervals.py:11-22 | the six documented splits give exactly the documented windows |
| `Splitter.SplitInterval` | scripts/split_intervals.py:8-38 | the loop-built list equals `Split`; it has `max(count, 0) + 1` windows, starts at `s` and ends with the trailing window |
| `Script.AsWrittenAcceptance` | scripts/split_intervals.py:53-59 | the option check as written accepts the valid options and also exactly `o == w` with `w >= 1` |
| `Script.AsWrittenAdmitsZeroStep` | scripts/split_intervals.py:57 | `w = 100, o = 100` passes the check as written, yet the step `w - o` is zero |
| `Script.Validate` | scripts/split_intervals.py:53-59 | the corrected check passes exactly the valid options; a window size below 1 is reported first, then an overlap out of range |
| `Script.ExpandRecord` | scripts/split_intervals.py:70-72 | one row per window in window order; each row has the record's chromosome and further columns unchanged |
| `Script.SplitRecords` | scripts/split_intervals.py:66-72 | the rows are those of every record in input order (`AllRows`) |
| `Script.Run` | scripts/split_intervals.py:53-72 | invalid options give the check's error and process no record; valid options give all rows |
| `Script.AllRowsAppend` | scripts/split_intervals.py:66-72 | the rows of `a + b` are the rows of `a` followed by the rows of `b` |
| `Script.AllRowsProvenance` | scripts/split_intervals.py:70-72 | every output row has the chromosome and further columns of some input record and one of that record's windows |
| `Script.DefaultOptionsExample` | scripts/split_intervals.py:66-72 | `chr1 151 300 geneA` with window 100 and overlap 50 gives the rows `(151, 250)` and `(201, 300)`, both with `chr1` and `geneA` |

## Left out

- Argument parsing, default option values, reading the input file and writing to standard output and standard error (lines 41-51, 62-63, 72). These are I/O. The model works on already parsed records and returns rows as values.
- The error messages and the exit status 1 (lines 54-55, 58-59). They become an `Err` result carrying which check failed.
- Splitting a line on whitespace and converting fields with `int()` (line 67). A line with fewer than three fields, or with a non-integer start or stop, makes the script raise an exception. The model starts from parsed `Record` values and does not model these failures.
- Turning a row into a tab-separated line with `str` and `join` (line 72). This is output formatting. `Row` keeps the fields as values.
- The unused variable `length` at line 68.
- The floating-point division inside `math.ceil` (line 26). The model uses exact integer ceiling division. The two agree while the operands stay below 2^53.
- The division by zero when `overlap == window`. The splitter requires `overlap < window`. The finding below covers the case.

## Findings

| source | as written | input that shows it | evidently intended | confidence | as-written member | corrected member |
|---|---|---|---|---|---|---|
| scripts/split_intervals.py:57 | the check rejects only `overlap > window`, so an overlap equal to the window size gets through | `--window 100 --overlap 100`: the check passes, then line 26 divides by `window - overlap = 0` on the first record | reject `overlap >= window`, as the message at line 58 says (`< window_size`) | high, not executed | `Script.AsWrittenAdmitsZeroStep` (over `Script.ValidateAsWritten`) | `Script.Validate` |
