# Profit tracker ledger — a Dafny model

This project models the log-derived trade ledger of the bot manager:

- the `Trade` record and its derived figures;
- `parse_log_line`, which turns a free-text log line into at most one trade;
- the incremental `update`, which reads what was appended to the bot's log since the stored cursor and keeps the cursor file current;
- the JSON snapshot (`to_dict`, `save_history`, `load_history`) and the CSV export rows;
- the period filter, `get_stats`, `get_fee_stats`, `get_top_pairs` and `get_recent_trades`;
- from the log monitor: `format_lines`, the keyword classifier that gives each log line an icon and a colour, and the source-selection branch of `tail_logs`.

Modules, one per file:

| module | file | models |
|---|---|---|
| `Base` | base.dfy | `Option`, `Result` (the exception a call raises), `FlatMap` |
| `PyText` | pytext.dfy | Python's `str.lower`/`upper`, `in`, `strip`, `split('\n')`, `readlines()`, `int()` and `str()` |
| `Trades` | trades.dfy | `Trade`, `gross_profit`, `net_profit`, `profit_percent` |
| `LedgerStore` | ledger_store.dfy | `to_dict`, `save_history`, `load_history`, CSV rows |
| `Extractor` | extractor.dfy | the two regular expressions of `parse_log_line`, matched by hand |
| `StableSort` | stable_sort.dfy | `sorted(..., reverse=True)` / `list.sort` and `xs[:limit]` |
| `Aggregation` | aggregation.dfy | `_filter_by_period`, `get_stats`, `get_fee_stats`, `get_top_pairs`, `get_recent_trades`, `export_csv` rows |
| `Tracker` | tracker.dfy | `add_trade`, `_get_last_pos`, `_save_last_pos`, `update`, `parse_log_line` applied to a batch |
| `LogMonitor` | log_monitor.dfy | `format_lines`, `tail_logs` |

Conventions:

- A timestamp is an integer count of seconds. `datetime.now()` is a parameter `now`.
- Amounts are `real`.
- A file's text is a `string` with one character per byte.
- Whatever the operating system decides during an `update` is a field of `Tracker.Poll`. That covers the lock, opening the log, reading it, how writing the cursor file ends (`Tracker.CursorWrite`), and the clock.
- A Python exception is `Result.Raised` or a `None`.

Three behaviours of the code that the model follows exactly:

- Loading passes the stored `net_profit` back to the trade as its override (profit_tracker.py:99). A reloaded trade therefore reports its saved net figure instead of recomputing it. `LedgerStore.Reloaded` models that, and `LedgerStore.SaveThenLoad` shows that every figure survives.
- The trades of a batch are appended and saved before the cursor is written (profit_tracker.py:165-170), and the error is only printed (:175-176).
  - When opening the cursor file fails, the old cursor stays. The next update extracts the same lines again and adds their trades a second time (`Tracker.CursorWriteFailureRepeatsTrades`).
  - `open(..., 'w')` empties the file before writing (:130). When the write fails after that, the empty file reads as 0 (:122-126). The next update then reads the whole log again and adds the trades of every line in it once more (`Tracker.CursorTruncationRereadsLog`).
- When the log has been rotated to an empty file, the cursor reset to 0 is not saved (profit_tracker.py:154-158; see Findings).

## Model

| member | source | states |
|---|---|---|
| Trades.GrossProfit | manager/profit_tracker.py:27-32 | a failed trade has gross profit 0; a successful one has `amount_in + gross == amount_out` |
| Trades.NetProfit | manager/profit_tracker.py:34-41 | an override is the net profit whatever the rest of the trade says; otherwise gross minus fee and tip, which for a failed trade is `-(tx_fee + jito_tip)` |
| Trades.ProfitPercent | manager/profit_tracker.py:43-48 | 0 when `amount_in == 0`, otherwise the percentage whose product with `amount_in` is `100 * net_profit` |
| Trades.OverrideDecidesNet | manager/profit_tracker.py:37-38 | two trades with the same override have the same net profit, whatever their outcome, amounts and fees |
| PyText.Lower | manager/profit_tracker.py:187 | `lower()` keeps the length and lowers each character on its own (A–Z only) |
| PyText.Find | manager/profit_tracker.py:188 | the first occurrence of a word at or after a position, or that there is none |
| PyText.ContainsMeansOccurs | manager/profit_tracker.py:188 | `w in s` holds exactly when `w` occurs at some position of `s` |
| PyText.StripEmptyIffBlank | manager/log_monitor.py:53 | `line.strip()` is empty exactly when every character is whitespace |
| PyText.StripUntrimmed | manager/profit_tracker.py:124 | text that neither starts nor ends with whitespace is its own `strip()` |
| PyText.SplitJoin | manager/log_monitor.py:41 | joining the pieces of `split('\n')` with newlines gives the text back |
| PyText.ReadLinesPartition | manager/profit_tracker.py:161 | the lines of `readlines()` concatenate to the text read; each line holds a newline only at its end, and every line except the last ends in one |
| PyText.ParseIntOfIntToString | manager/profit_tracker.py:118-131 | `int(str(n)) == n` for every integer, negative ones included |
| PyText.ParseInt | manager/profit_tracker.py:124 | `int()` succeeds exactly when the stripped text, after at most one leading `+` or `-`, is digits with single underscores only between digits; a negative result needs the `-`; any result needs a digit |
| PyText.DigitGroupsIff | manager/profit_tracker.py:124 | the digit parser accepts exactly the texts of the form `\d+(_\d+)*` |
| PyText.ParseIntPadded | manager/profit_tracker.py:124 | `int()` reads back a natural number written with an optional `+` or `-` and whitespace on either side, negated after `-` |
| Extractor.CaptureIsGreedyNumber | manager/profit_tracker.py:191 | a capture after `profit` skips only separators, is a signed decimal token, and cannot be extended by one more character |
| Extractor.CaptureIffPattern | manager/profit_tracker.py:191 | the hand-written matcher succeeds at a position exactly when the pattern `profit[:\s]+([+\-]?\d+\.?\d*)` matches there |
| Extractor.NumberEndIsToken | manager/profit_tracker.py:191 | what the number scanner delimits is a number token |
| Extractor.NumberEndIsLongest | manager/profit_tracker.py:191 | the number scanner stops at the longest token, as the greedy regex does |
| Extractor.FindProfit | manager/profit_tracker.py:191 | `re.search` returns the leftmost match, and none exists when it returns nothing |
| Extractor.PairAtIffPattern | manager/profit_tracker.py:198 | the pair matcher succeeds exactly when `([a-z0-9]+)[/-]([a-z0-9]+)` matches there, and its two groups are maximal runs |
| Extractor.FindPair | manager/profit_tracker.py:198 | the pair search returns the leftmost match, or there is none |
| Extractor.FirstPairMatch | manager/profit_tracker.py:198 | no pair is found exactly when the pattern matches nowhere; otherwise the result is the leftmost position where it matches |
| Extractor.PairName | manager/profit_tracker.py:197-200 | with no pair in the line, the pair is `"Unknown"`; otherwise it is the two groups of the leftmost match, each a maximal run of `[a-z0-9]`, upper-cased and joined by `-` |
| Extractor.DecimalValue | manager/profit_tracker.py:193 | `float()` of a captured token is non-positive when it starts with `-` and non-negative otherwise |
| Extractor.DecimalValueScaled | manager/profit_tracker.py:191-193 | `float()` of a captured token is the integer its digits spell with the point removed, divided by ten to the number of fraction digits, and negated after `-` |
| Extractor.DigitsValueConcat | manager/profit_tracker.py:191-193 | appending digits multiplies the value of the digits before them by ten per appended digit and adds the appended digits' value |
| Extractor.ExtractTrade | manager/profit_tracker.py:186-211 | a line yields a trade exactly when its lowered text holds `profit`, `sol` and a profit match; the trade is stamped `now`, succeeded, has route `Unknown`, zero amounts, default fees and the leftmost pair, and its net profit is the captured figure |
| Extractor.ExtractTradeMeaning | manager/profit_tracker.py:187-193 | the same condition stated with the regular expression, and the net profit is the value of the leftmost match's capture |
| LedgerStore.SaveHistory | manager/profit_tracker.py:105-111 | one object per trade, in ledger order, each being `to_dict` of its trade |
| LedgerStore.ItemToTrade | manager/profit_tracker.py:89-100 | an item builds a trade exactly when it is an object whose six required keys hold values of their fields' types and whose optional keys are absent or numbers (`net_profit` may be `null`); a missing required key always raises; each field of the trade is the stored value, or the default for an absent tip or fee, and the override is the stored `net_profit` |
| LedgerStore.LoadItems | manager/profit_tracker.py:89-103 | loading keeps the trades built before the first item that raises, in order, and warns exactly when it stopped early |
| LedgerStore.LoadHistory | manager/profit_tracker.py:81-103 | loading only appends; an absent file adds nothing silently; an unreadable one adds nothing and warns |
| LedgerStore.SaveThenLoad | manager/profit_tracker.py:81-111 | loading a saved ledger gives every trade back, in order and without a warning, with the same fields and the same gross, net and percent figures |
| LedgerStore.SaveIsStable | manager/profit_tracker.py:105-111 | saving what was just loaded writes the same document again |
| LedgerStore.MalformedItemStopsLoad | manager/profit_tracker.py:86-103 | a malformed item ends loading with the warning, and the trades saved before it are kept |
| LedgerStore.LoadStopsAt | manager/profit_tracker.py:89-103 | a first malformed item at position `n` leaves exactly the `n` trades before it |
| LedgerStore.AllLoad | manager/profit_tracker.py:89-101 | when every item builds a trade, all of them are loaded without a warning |
| LedgerStore.CsvRow | manager/profit_tracker.py:363-379 | an export row has exactly the eight header columns |
| LedgerStore.CsvRowIsDictProjection | manager/profit_tracker.py:370-379 | each export column holds the value `to_dict` stores under that name |
| StableSort.SortDesc | manager/profit_tracker.py:330 | the sort is a permutation of its input, in non-increasing key order |
| StableSort.SortDescIsStable | manager/profit_tracker.py:330 | elements with equal keys keep their input order |
| StableSort.SortDescKeepsDistinct | manager/profit_tracker.py:335 | sorting a sequence without repetitions gives one without repetitions |
| StableSort.Take | manager/profit_tracker.py:331 | `xs[:limit]` is a prefix of length `min(limit, len)`, or `len + limit` floored at 0 for a negative limit |
| StableSort.TakeKeepsOrder | manager/profit_tracker.py:331 | a prefix keeps the order and the tie order of what it is cut from |
| Aggregation.Count | manager/profit_tracker.py:240-241 | a count of trades passing a test is at most the number of trades; it is all of them exactly when every trade passes, and 0 exactly when none does |
| Aggregation.SuccessesAndFailuresPartition | manager/profit_tracker.py:240-241 | successful and failed trades together are all the trades |
| Aggregation.FeesSplit | manager/profit_tracker.py:280-282 | total fees are total tips plus total transaction fees |
| Aggregation.SumBetween | manager/profit_tracker.py:243-245 | a sum of values between two bounds lies between the bounds times the count |
| Aggregation.BestNet | manager/profit_tracker.py:258 | `max(profits)` bounds every trade's net profit and is one of them |
| Aggregation.WorstNet | manager/profit_tracker.py:259 | `min(profits)` is below every trade's net profit and is one of them |
| Aggregation.UnitSeconds | manager/profit_tracker.py:345-352 | a period filters only when it ends in `h` or `d`, each a positive number of seconds |
| Aggregation.PeriodCutoff | manager/profit_tracker.py:337-352 | no period, or one with another ending, filters nothing; it raises exactly when the count does not parse (`ValueError`) or the span does not fit a `timedelta` or the cutoff falls outside the `datetime` calendar (`OverflowError`); otherwise the cutoff lies count times the unit before `now` |
| Aggregation.WrittenPeriod | manager/profit_tracker.py:345-350 | a period written as `str(n)` plus `h` or `d` admits exactly the last `n` hours or days when that span is representable, and raises `OverflowError` otherwise |
| Aggregation.BeforeCalendarRaises | manager/profit_tracker.py:345-350 | a span reaching back before 0001-01-01 raises `OverflowError`, whatever the clock reads |
| Aggregation.Since | manager/profit_tracker.py:354 | the filter keeps each trade at or after the cutoff as often as it occurs, and nothing else |
| Aggregation.SinceConcat | manager/profit_tracker.py:354 | the filter keeps relative order, because it distributes over concatenation |
| Aggregation.FilterByPeriod | manager/profit_tracker.py:337-354 | raises exactly when the period does; with no cutoff it returns the whole ledger; otherwise `Since(ledger, cutoff)`: the trades at or after the cutoff in ledger order (`Aggregation.SinceConcat`), each as often as it occurs in the ledger, and nothing else |
| Aggregation.Percent | manager/profit_tracker.py:253 | a success rate is between 0 and 100, and times the total it gives `100 * part` |
| Aggregation.AverageOfSumBetween | manager/profit_tracker.py:257-259 | an average of values between two bounds lies between the bounds |
| Aggregation.SummarizeSome | manager/profit_tracker.py:240-260 | the counts are those of the successful and the failed trades and partition the trades; gross, fees and net are the sums over the trades; the success rate is the percentage of successes, in [0, 100]; the average is net over count; worst ≤ average ≤ best; best and worst bound every net profit and are attained |
| Aggregation.Summarize | manager/profit_tracker.py:226-238 | no trades gives the all-zero statistics |
| Aggregation.GetStats | manager/profit_tracker.py:219-260 | raises exactly when the period does; all zeros for an empty window; otherwise the counts and the gross, fee and net sums are those of the window's trades, and every other field is as `SummarizeSome` states |
| Aggregation.SummarizeFees | manager/profit_tracker.py:269-297 | no trades gives zeros; the three totals are the sums of fees, tips and transaction fees over the trades; total fees are tips plus transaction fees, and so are the averages; each average times the count is its total; the total agrees with `get_stats` |
| Aggregation.GetFeeStats | manager/profit_tracker.py:262-297 | raises exactly when the period does; all zeros for an empty window; otherwise the count and the three totals are those of the window's trades, and the average fee, tip and transaction fee are each total over the count (the whole result is `SummarizeFees` of the window) |
| Aggregation.StatsAgreeWithFeeStats | manager/profit_tracker.py:244 | `get_stats` and `get_fee_stats` raise together and report the same fee total and count |
| Aggregation.GroupByPairCorrect | manager/profit_tracker.py:304-316 | the grouping loop makes one group per pair, in order of first appearance, with exactly that pair's count, net-profit sum and success count |
| Aggregation.AddToGroupsCorrect | manager/profit_tracker.py:305-316 | one iteration of the grouping loop keeps the groups exact, distinct, covering and in first-seen order |
| Aggregation.GroupsAtMostTrades | manager/profit_tracker.py:304-316 | there are never more groups than trades |
| Aggregation.Summaries | manager/profit_tracker.py:319-328 | one entry per group, in group order, for the same pair |
| Aggregation.EntriesExact | manager/profit_tracker.py:319-328 | each entry's count, total, average and success rate are those of exactly the trades with its pair |
| Aggregation.RankPairsCorrect | manager/profit_tracker.py:319-331 | the ranking has `min(limit, number of pairs)` entries for a non-negative limit, one per pair, non-increasing in total profit; no unlisted pair has a higher total than a listed one; equal totals keep first-seen order; every entry is exact; with a large enough limit every traded pair appears |
| Aggregation.RankPairsSelects | manager/profit_tracker.py:330-331 | a traded pair left out of the ranking has a total at most that of every listed pair, and on an equal total it was first met later |
| Aggregation.GetTopPairs | manager/profit_tracker.py:299-331 | raises exactly when the period does; otherwise `min(limit, number of pairs in the window)` exact entries (`max(pairs + limit, 0)` for a negative limit), one per pair, non-increasing in total profit, pairs with equal totals in the order first seen in the window, with no left-out pair beating a listed one; an empty window gives none |
| Aggregation.RecentPlacedCorrect | manager/profit_tracker.py:333-335 | the recent trades are `min(limit, len)` distinct ledger entries (`max(len + limit, 0)` for a negative limit), newest first, none left out newer than a kept one, with equal timestamps in ledger order |
| Aggregation.RecentPlacedSelects | manager/profit_tracker.py:333-335 | a ledger position left out of the recent trades is no newer than any kept one, and on an equal timestamp lies later in the ledger |
| Aggregation.RecentTradesFromLedger | manager/profit_tracker.py:333-335 | the recent trades occur in the ledger at least as often as in the result, and exactly as often when the limit covers the ledger |
| Aggregation.RecentTradesAreNewest | manager/profit_tracker.py:333-335 | a ledger trade missing from the recent trades is no newer than any of them |
| Aggregation.GetRecentTrades | manager/profit_tracker.py:333-335 | `min(limit, len)` trades for a non-negative limit and `max(len + limit, 0)` for a negative one, in non-increasing timestamp order, a sub-multiset of the ledger (all of it when the limit covers it), and no ledger trade left out is newer than a kept one |
| Aggregation.ExportRows | manager/profit_tracker.py:356-379 | raises exactly when the period does; otherwise one row per trade of the window, in ledger order; with no period, one per ledger trade |
| Tracker.Open | manager/profit_tracker.py:73-78 | a new tracker keeps the files and starts from an empty ledger when the snapshot is absent or unreadable |
| Tracker.AddTrade | manager/profit_tracker.py:113-116 | appends exactly the trade, leaves the cursor and log alone, and leaves the snapshot equal to the ledger |
| Tracker.LineTrades | manager/profit_tracker.py:180-217 | a line adds at most one trade, and one exactly when the extractor finds one |
| Tracker.Extracted | manager/profit_tracker.py:165-167 | a batch yields at most one trade per line, each one the extractor found in some line, stamped `now`, succeeded, route `Unknown` |
| Tracker.ExtractedConcat | manager/profit_tracker.py:165-167 | extracting from two batches in turn gives the trades of both, in order |
| Tracker.ParseLinesAppends | manager/profit_tracker.py:165-167 | parsing a batch appends exactly its extracted trades and touches neither the cursor nor the log; the snapshot is rewritten only when a trade was added |
| Tracker.ConsumeLines | manager/profit_tracker.py:165-167 | the parsing loop appends the batch's trades, leaves cursor and log alone, and leaves the snapshot current when it added something |
| Tracker.GetLastPos | manager/profit_tracker.py:118-126 | a missing or unreadable cursor file reads as 0; a file whose text parses reads as that number; otherwise 0 |
| Tracker.SavedPosReadsBack | manager/profit_tracker.py:118-131 | reading the cursor file gives back the last position written, also when read as the text `str(pos)` |
| Tracker.WriteCursor | manager/profit_tracker.py:128-131 | after `_save_last_pos(pos)` the file reads back as `pos`; refused at the open it is untouched; failing after the truncating open it is empty and reads as 0 |
| Tracker.ResumeFrom | manager/profit_tracker.py:154-155 | reading restarts at 0 when the log is shorter than the cursor, and resumes at the cursor otherwise |
| Tracker.UpdateAsWritten | manager/profit_tracker.py:133-178 | the update as written only appends trades and never touches the log; with nothing read it changes nothing; a failure leaves the cursor, except a cursor write that fails after truncating the file, which leaves it empty |
| Tracker.Update | manager/profit_tracker.py:133-178 | corrected: appends only; a consumed batch saves the log size as the cursor; with nothing new only a rotation reset may change the cursor; a failure leaves the cursor or, when the cursor write fails after truncating, empties it; the snapshot stays current |
| Tracker.ReadFrom | manager/profit_tracker.py:128-170 | a negative offset or failed read changes nothing; otherwise the trades of the lines after the offset are appended, and the cursor moves to the log size when its write succeeds, stays when the open is refused, and is emptied when the write fails after the open |
| Tracker.UpdateGuards | manager/profit_tracker.py:135-143 | no log, a held lock and a failed lock-file open each end the update, exactly in those cases, with nothing changed |
| Tracker.UpdateReadsAppendedText | manager/profit_tracker.py:146-170 | corrected: when every call succeeds, the update appends the trades of exactly the text after the cursor, or after 0 on rotation, and leaves the cursor at the log size |
| Tracker.UpdateKeepsCursorInLog | manager/profit_tracker.py:154-170 | corrected: after an update that read or found nothing new, the stored cursor lies inside the log |
| Tracker.UpdateIsIdempotent | manager/profit_tracker.py:154-158 | right after a consumed batch, a second update finds nothing new and changes nothing |
| Tracker.UpdateAgreesUnlessRotatedToEmpty | manager/profit_tracker.py:154-158 | the corrected update behaves as written except when the log was rotated to an empty file |
| Tracker.RotatedToEmpty | manager/profit_tracker.py:154-158 | on rotation to an empty log, the update as written returns without saving; the corrected one saves cursor 0; if that write fails it keeps the old cursor or leaves an empty one that reads as 0 |
| Tracker.RotationToEmptySkipsNewText | manager/profit_tracker.py:154-160 | as written, after rotation to an empty log the stale cursor is past the end, and the next update skips the first `n` characters of the new log |
| Tracker.RotationToEmptyRereadsNewLog | manager/profit_tracker.py:154-161 | corrected, the cursor is saved as 0, and the next update reads the whole new log |
| Tracker.CursorWriteFailureRepeatsTrades | manager/profit_tracker.py:165-176 | when opening the cursor file fails after a batch was parsed, the cursor stays and the next update extracts the same lines again |
| Tracker.CursorTruncationRereadsLog | manager/profit_tracker.py:122-176 | when the cursor write fails after the truncating open, the cursor reads as 0 and the next update appends the trades of the whole log again |
| Tracker.UpdateKeepsSnapshot | manager/profit_tracker.py:105-116 | an update keeps the snapshot equal to the ledger, so reopening gives the same number of trades with the same figures |
| LogMonitor.AnyIn | manager/log_monitor.py:59 | `any(word in line_lower for word in words)` holds exactly when some word occurs |
| LogMonitor.StyleTable | manager/log_monitor.py:56-81 | the icon and colour of a line by keyword group, in priority order: success-group lines get green only with `profit` plus a literal `+`, or with `success`, and white otherwise; error, warning and info apply only when no earlier group matched; white for anything else |
| LogMonitor.LowerKeepsPlus | manager/log_monitor.py:60 | lowering does not change whether a line holds `+` |
| LogMonitor.StyleIgnoresCase | manager/log_monitor.py:56 | lines equal after lowering get the same icon and colour |
| LogMonitor.SuccessGroupComesFirst | manager/log_monitor.py:59-65 | for success-group lines only the `success` and `profit`-plus-`+` tests matter; error, warning and info words are never consulted |
| LogMonitor.NonBlank | manager/log_monitor.py:52-54 | the kept lines are input lines that are not blank |
| LogMonitor.NonBlankComplete | manager/log_monitor.py:52-54 | every non-blank line is kept as often as it occurs in the input, and a blank one never is |
| LogMonitor.FormatLineBy | manager/log_monitor.py:52-81 | a blank line yields nothing, any other line exactly one entry carrying the line and its style |
| LogMonitor.FormatLines | manager/log_monitor.py:46-83 | one entry per non-blank line, in input order, holding the original line with its icon and colour |
| LogMonitor.FormatLinesConcat | manager/log_monitor.py:51-83 | formatting distributes over concatenation, so output order follows input order |
| LogMonitor.FormatLinesKeepsNonBlank | manager/log_monitor.py:52-54 | when no line is blank, every line is formatted, in order |
| LogMonitor.FormatLinesDropsBlank | manager/log_monitor.py:53-54 | a batch of blank lines gives no entries |
| LogMonitor.LogFileOf | manager/log_monitor.py:24-29 | `bot` selects the bot log, `jupiter` the Jupiter log, and any other source nothing |
| LogMonitor.TailLogs | manager/log_monitor.py:19-44 | an unknown source gives `[]`; a missing file gives the yellow warning; a failing `tail` gives the red error entry; otherwise the formatted lines of the stripped output |
| LogMonitor.TailOfBlankOutput | manager/log_monitor.py:41-42 | blank output from `tail` gives no entries |

## Left out

- File I/O, `json`/`csv` text encoding, `mkdir`, and the `fcntl` calls are not modelled. A snapshot is the value `json.load` would return, an export row is a field map, and the lock is the outcome in `Poll.lock`. `LOCK_UN` in the `finally` leaves nothing to model.
- `datetime.now()` is a parameter. `update` stamps the trades of one batch with one clock reading, where the source reads the clock once per line.
- ISO-8601 timestamp text is not modelled. A stored timestamp is `Stamp(t)`, and text that `fromisoformat` would accept in other spellings is not distinguished.
- Floating point: amounts and figures are `real`, and `float()` of a capture is its exact decimal value. Rounding and `inf`/`nan` are not modelled.
- `str.lower()`/`upper()` change only ASCII letters. `\d` and `int()` accept only the ASCII digits, where Python also accepts other Unicode decimal digits. `isspace`, `strip` and `\s` use Python's full whitespace set (`PyText.IsSpace`).
- Text decoding and newline translation of the log are not modelled: the log is its decoded text with `'\n'` line ends, one character per byte. A `'\r'` is an ordinary character.
- Tracker.GetLastPos: the cursor file that `_save_last_pos` writes is the value `Saved(pos)`. `Tracker.SavedPosReadsBack` shows it reads back like its text `str(pos)`. Any other content is `Content(text)`, read with `int(text.strip())`.
- LedgerStore.ItemToTrade: a stored value of the wrong JSON type makes the item malformed, so loading stops there and drops every later item. Python keeps such a trade and goes on loading. A `pair`, `route` or `success` of another type is stored as it is: a numeric `success` counts by its truthiness, and a numeric `pair` groups like any other. A JSON `true` or `false` amount or fee is 1 or 0 in arithmetic. Only a non-numeric amount or fee can fail later, in `to_dict` or in the statistics arithmetic. A `timestamp` that is not ISO text does raise at once, as modelled.
- Tracker.WriteCursor: a write that fails after putting part of the numeral on disk is not modelled. A failed write leaves either the old file or an empty one.
- A failing `save_history` inside `add_trade` and the log growing while `update` reads it are not modelled.
- `LogMonitor.follow_logs` (a generator around `tail -f`) and `LogMonitor.get_recent_trades` (a placeholder returning `[]`) are not modelled. The `tail` subprocess of `tail_logs` is the parameter `run`, with the path as a string; `Path` normalisation is not modelled.
- Aggregation.GetRecentTrades: its contract speaks of trades, not ledger positions. Stable tie order and distinct positions are stated by `Aggregation.RecentPlacedCorrect` about the positioned trades it projects.
- Timestamps are whole seconds. Microseconds, and the sub-second limits of `timedelta` and `datetime`, are not modelled. `now` is taken as given and is not itself checked to lie in the calendar.
- The dashboard UI and the command-line entry point are not part of this model.

## Findings

| source | as written | input that shows it | evidently intended | confidence | as-written member | corrected member |
|---|---|---|---|---|---|---|
| manager/profit_tracker.py:154-158 | when the log is rotated to an empty file, `last_pos` is reset to 0 only in memory, and the `current_size == last_pos` return skips `_save_last_pos`; the cursor file keeps the old offset | cursor file holds `120`, log rotated to empty; the log then grows to 200 bytes: the next update reads only bytes 120–200 and loses the trades in the first 120 | persist the reset cursor 0 on rotation, so the next update reads the new log from its start | not executed | Tracker.RotationToEmptySkipsNewText | Tracker.RotationToEmptyRereadsNewLog |
