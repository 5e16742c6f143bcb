# Sector monthly returns: a verified model

The repository keeps a spreadsheet of monthly returns for ten market sectors.
Each sector is a small weighted basket of tickers. Three scripts share one
piece of logic:

- `update_sector_returns.py` computes the month before today and upserts its row.
- `backfill_historical_data.py` writes every month from a start month
  (default 2017-01) through the previous month, using one price provider.
- `backfill_twelvedata.py` does the same with a second provider. That
  provider needs an API key, given by `--api-key KEY` or the
  `TWELVEDATA_API_KEY` environment variable.

The shared functions (`month_bounds`, `monthly_return`, `weighted_return`,
`write_data`) are copied almost word for word across the three files. They
are modelled once. The table below cites one copy of each, and the other
copies are named next to it.

The model is split into these modules:

| module | file | what it holds |
|---|---|---|
| `Optional` | `optional.dfy` | `Option` and `Result` |
| `Decimal` | `decimal.dfy` | `f"{n}"` and `f"{m:02d}"` rendering, and `int(text)` parsing |
| `Calendar` | `calendar.dfy` | the Gregorian month lengths, `month_bounds`, `prev_month`, the month step and the list of months the backfill loop visits |
| `Sectors` | `sectors.dfy` | the `SECTORS` tables of both providers and the header |
| `Returns` | `returns.dfy` | `monthly_return` and `weighted_return`, over a price provider passed in as a function `close(ticker, y, m): Option<real>` |
| `Sheet` | `sheet.dfy` | the worksheet as a `Worksheet` class over the data rows, and `write_data`: upsert, rounded sector cells, Top #1 / Top #2 ranking, average |
| `Cli` | `cli.dfy` | the argument handling of the two backfill `main`s |
| `Drivers` | `drivers.dfy` | the `backfill` month loop and the three `main`s |

`write_data(wb, ym, data)` receives `data` as a dictionary keyed by sector
name. It reads the sector cells with `data.get(s)` in `SECTORS` order, and
`clean` from `data.values()`, which follows the dictionary's insertion
order. Every caller builds that dictionary by iterating `SECTORS`
(update_sector_returns.py:88, backfill_historical_data.py:148-151,
backfill_twelvedata.py:185-188), so both reads are in `SECTORS` order. The
model therefore passes `data` as a `seq<Option<real>>` with one entry per
sector, in header order.

A run's table after the backfill is specified by `Drivers.Replay`: one
`Sheet.Upserted` per month, in order. The loop in `Drivers.Backfill` and the
in-place `Sheet.Worksheet.WriteData` are proved to produce exactly that
table.

## Model

| member | source | states |
|---|---|---|
| Decimal.Digits | update_sector_returns.py:87 | `f"{n}"` of a natural number is a non-empty run of decimal digits with no leading zero (it starts with 0 only for 0), one digit exactly when n < 10 |
| Decimal.DigitsRoundTrip | update_sector_returns.py:87 | reading back the digits written for n gives n |
| Decimal.TwoDigits | update_sector_returns.py:87 | `f"{m:02d}"` for m < 100 is exactly two digits that denote m |
| Decimal.ParseInt | backfill_historical_data.py:175-176 | `int(text)` succeeds exactly on at least one digit with an optional leading `+` or `-`; the digits give the value and a `-` negates it |
| Decimal.ParseNegative | backfill_historical_data.py:175-176 | `int("-" + digits)` is the negated value of the digits |
| Decimal.IntTextRoundTrip | backfill_historical_data.py:175-176 | `int(f"{n}") == n` for every integer n |
| Decimal.IntTextInjective | update_sector_returns.py:87 | different integers are rendered as different text |
| Calendar.DaysInMonth | update_sector_returns.py:30 | `monthrange(y, m)[1]` is 31 for January, March, May, July, August, October and December, 30 for April, June, September and November, and 29 or 28 for February as the Gregorian leap-year rule says |
| Calendar.MonthBounds | update_sector_returns.py:29-31 | both bounds are valid dates in month (y, m), the first is not after the last, and a day belongs to the month exactly when it lies between them (same in backfill_historical_data.py:40-42 and backfill_twelvedata.py:66-68) |
| Calendar.DayBefore | update_sector_returns.py:26 | the day before a date is the valid date immediately before it: the previous day of the same month, or on the first of a month the last day of the month before; there is none only for 0001-01-01, where Python raises OverflowError |
| Calendar.PrevMonth | update_sector_returns.py:24-27 | `prev_month(today)` is a valid month exactly one month before today's month; it fails only in January of year 1 |
| Calendar.PrevYearMonth | update_sector_returns.py:45 | the comparison month of `monthly_return` is a valid month one month before (y, m), so January compares with December of the year before |
| Calendar.NextMonth | backfill_historical_data.py:160-164 | the step at the end of the loop gives a valid month exactly one month later, so December goes to January of the next year |
| Calendar.PrevMonthAgrees | update_sector_returns.py:24-27 | `prev_month` gives the same month as the inline rule of `monthly_return`, and the loop's step undoes it |
| Calendar.MonthRange | backfill_historical_data.py:140-164 | the months the loop visits: consecutive valid months from start, as many as the inclusive span, none when start is after end |
| Calendar.MonthRangeCount | backfill_historical_data.py:140-164 | `months_processed` is 12·(ey−sy)+(em−sm)+1 when start ≤ end, and 0 otherwise |
| Calendar.MonthRangeVisitsEachOnce | backfill_twelvedata.py:178-199 | every month from start through end is visited, exactly once, at its distance from start |
| Calendar.BackfillRangeExample | backfill_historical_data.py:140-164 | a backfill from 2017-01 through 2017-03 visits exactly 2017-01, 2017-02 and 2017-03, keyed "2017-01" to "2017-03" |
| Calendar.MonthKey | update_sector_returns.py:87 | the key `f"{y}-{m:02d}"` is exactly `f"{y}"`, a dash, and two digits; the year part reads back through `int()` as the year and the two digits as the month |
| Calendar.MonthKeyInjective | update_sector_returns.py:87 | two different months never get the same "YYYY-MM" row key |
| Sectors.BasketTables | backfill_twelvedata.py:36-48 | both `SECTORS` tables have ten baskets with positive weights; they are equal except the crypto basket, which has the same weights and differently spelled tickers; the header is "Year-Month", "Notes", the ten sectors in basket order, "Top #1", "Top #2", "Average Return %" (the Yahoo table and the header are update_sector_returns.py:9-21) |
| Returns.MonthlyReturn | update_sector_returns.py:43-47 | the return is missing exactly when this month's or the previous calendar month's close is missing or zero (same in backfill_historical_data.py:58-63 and backfill_twelvedata.py:103-108) |
| Returns.MonthlyReturnGrowth | update_sector_returns.py:47 | a present return r satisfies (1 + r) times the previous close equals this month's close, so it is `lc/prev - 1` |
| Returns.Contributions | update_sector_returns.py:51-53 | the constituents that enter `total` and `wsum` are at most the basket's constituents |
| Returns.ContributionsOne | update_sector_returns.py:51-53 | one constituent contributes its weight and return when its return is present, and nothing otherwise |
| Returns.ContributionsAppend | update_sector_returns.py:51-53 | the contributions of a basket split in two are those of the first part followed by those of the second, so the loop's order is kept |
| Returns.ContributionsEmptyIff | update_sector_returns.py:51-53 | no constituent enters `total` and `wsum` exactly when no constituent has a return |
| Returns.ContributionsPositive | update_sector_returns.py:51-53 | the constituents that enter the sums carry the basket's weights, so they are positive when the basket's are |
| Returns.AccumulateStep | update_sector_returns.py:52-53 | one pass of the loop body adds weight times return to `total` and the weight to `wsum` when the return is present, and nothing otherwise |
| Returns.Accumulate | update_sector_returns.py:50-53 | after the loop `total` and `wsum` are the weighted sum and the weight sum over the constituents with a return |
| Returns.WeightedReturnOf | update_sector_returns.py:54 | `weighted_return` is missing exactly when `wsum` is 0, and otherwise is the r with r · `wsum` = `total` (same in backfill_historical_data.py:65-73 and backfill_twelvedata.py:110-118) |
| Returns.WeightedReturn | update_sector_returns.py:49-54 | `weighted_return` is the weighted mean of the present returns, or missing when `wsum` is 0 (same in backfill_historical_data.py:65-73 and backfill_twelvedata.py:110-118) |
| Returns.WeightedReturnMissingIff | update_sector_returns.py:49-54 | with positive weights a sector return is missing exactly when no constituent has a return, and it is never 0 in place of missing data |
| Returns.WeightedMeanBounded | backfill_historical_data.py:65-73 | a weighted mean with positive weights lies between any bounds of its returns |
| Returns.WeightedReturnBounded | backfill_twelvedata.py:110-118 | with positive weights a present sector return lies between the smallest and the largest present constituent return |
| Returns.MissingConstituentIgnored | update_sector_returns.py:52-53 | a constituent without a return adds to neither `total` nor `wsum`: removing it leaves the result unchanged |
| Returns.SectorReturnsMissingIff | update_sector_returns.py:88 | over both basket tables, a sector's entry of `sector_ret` is missing exactly when none of its constituents has a monthly return |
| Returns.ComputeSectorReturns | backfill_historical_data.py:148-151 | the loop over `SECTORS.items()` builds exactly that sequence of sector returns |
| Sheet.Put | update_sector_returns.py:73 | `ws.cell(row, c, value=v)` creates the cell, padding a short row with blank cells, assigns v only when v is not None, and leaves every other column alone |
| Sheet.Written | update_sector_returns.py:73 | a None value leaves the cell as it was; any other value replaces it |
| Sheet.Round2 | update_sector_returns.py:73 | `round(x, 2)` is a whole number of cents at most half a cent from x |
| Sheet.SectorCell | update_sector_returns.py:73 | the value passed for a sector cell is None exactly when the sector's return is missing, and otherwise the rounded percentage |
| Sheet.SectorCellExample | update_sector_returns.py:73 | a return of 0.0523 is written as 5.23 |
| Sheet.FirstArgMax | update_sector_returns.py:76 | `max(range(len(vals)), key=...)` returns an index of `vals` |
| Sheet.FirstArgMaxIsFirstMax | update_sector_returns.py:76 | that index holds the largest value, and no earlier index holds it |
| Sheet.FirstMaxUnique | update_sector_returns.py:76 | only one index is the first index of the maximum |
| Sheet.Top1 | update_sector_returns.py:76 | Top #1 is a sector index |
| Sheet.Top2 | update_sector_returns.py:77-78 | Top #2 is a sector index |
| Sheet.TopPicks | update_sector_returns.py:75-81 | Top #1 is the first maximum of `vals`; Top #2 is the first maximum once `vals[top1]` is set to -1e10 |
| Sheet.TopTwoDistinct | update_sector_returns.py:75-81 | when present returns are above -1e10, Top #2 differs from Top #1 and is the first maximum over all other sectors (same in backfill_twelvedata.py:149-158) |
| Sheet.PresentOutranksMissing | backfill_historical_data.py:106-116 | when some return above -1e9 is present, Top #1 is a present sector; when one exists besides Top #1, Top #2 is present too |
| Sheet.AllMissingPicks | backfill_historical_data.py:106-116 | with every sector missing, Top #1 is the first sector and Top #2 the second |
| Sheet.RankingExample | update_sector_returns.py:75-81 | with returns 1.0, 3.0 and -2.0 in the first three sectors and the rest missing, Top #1 is the second sector and Top #2 the first |
| Sheet.AverageExample | update_sector_returns.py:82-83 | with those returns the average cell is 66.67 |
| Sheet.Present | update_sector_returns.py:82 | `clean` is no longer than `data` and is empty exactly when every sector is missing |
| Sheet.PresentMembers | update_sector_returns.py:82 | every present return is in `clean`, and everything in `clean` is a present return |
| Sheet.PresentOne | update_sector_returns.py:82 | `clean` of one sector is its value when present and empty when missing |
| Sheet.PresentAppend | update_sector_returns.py:82 | `clean` of two stretches of sectors is the first's `clean` followed by the second's, so `clean` is exactly the present values in order, repeats included |
| Sheet.PresentSkipsMissing | update_sector_returns.py:82 | missing values contribute nothing to `clean` |
| Sheet.SumBounds | update_sector_returns.py:83 | the sum of n values between lo and hi lies between n·lo and n·hi |
| Sheet.MeanBounded | update_sector_returns.py:83 | the mean of values between lo and hi lies between lo and hi |
| Sheet.AverageCell | update_sector_returns.py:82-83 | the average value is None exactly when every sector is missing, and otherwise `round(mean(clean)*100, 2)` (same in backfill_historical_data.py:118-120 and backfill_twelvedata.py:160-161) |
| Sheet.AverageBounded | update_sector_returns.py:82-83 | when every present return lies between lo and hi, so does the mean of `clean`, and the average written is within half a cent of 100·lo..100·hi (same in backfill_twelvedata.py:160-161) |
| Sheet.FilledRow | update_sector_returns.py:71-83 | the written row: key and notes kept; a present sector's cell holds its rounded percentage, a missing sector's cell keeps what it held; the two picks named; the average cell holds the mean of the present returns in percent when one is present and keeps what it held otherwise; later columns kept |
| Sheet.FilledSectors | update_sector_returns.py:72-73 | a present sector's cell becomes its rounded percentage and a missing sector's cell keeps what it held |
| Sheet.FilledAverage | update_sector_returns.py:82-83 | the average cell becomes the mean of the present returns in percent when one is present, and keeps what it held when every sector is missing |
| Sheet.FilledRowIdempotent | update_sector_returns.py:71-83 | filling a row twice with the same data gives the row of one fill |
| Sheet.KeyText | update_sector_returns.py:68 | `str(value)` of a key cell is the text itself, or "None" for an empty cell |
| Sheet.NewRowFilled | update_sector_returns.py:70-83 | on a newly appended row a sector cell is blank exactly when the sector is missing (never a zero), and the average cell is blank exactly when every sector is missing |
| Sheet.LastKeyed | update_sector_returns.py:68-69 | the row found for a key carries that key and no later row does; none is found exactly when no row carries it |
| Sheet.LastKeyedIs | update_sector_returns.py:68 | the last row carrying a key is the one the dictionary keeps |
| Sheet.NewRow | update_sector_returns.py:70 | the appended row `[ym, ""]` is keyed by ym, has empty notes and nothing past them |
| Sheet.Upserted | update_sector_returns.py:66-83 | an existing key keeps the row count and refills its last row in place; a new key appends exactly one row, `[ym, ""]` filled; all other rows and all keys are unchanged; afterwards the key has a row |
| Sheet.UpsertedAsUpdate | update_sector_returns.py:69-70 | the upsert appends `[ym, ""]` when the key is new and then fills the found row |
| Sheet.UpsertIdempotent | update_sector_returns.py:66-83 | writing the same month with the same data twice leaves the table of one write |
| Sheet.UpsertKeepsKeyed | backfill_historical_data.py:89-97 | a key that had a row before an upsert still has one after it |
| Sheet.UpsertKeepsKeysUnique | backfill_historical_data.py:89-97 | an upsert never creates a duplicate key, and afterwards exactly one row carries the month's key |
| Sheet.Worksheet.FindRow | update_sector_returns.py:68-69 | the scan over the rows finds the row the dictionary lookup finds |
| Sheet.Worksheet.Append | update_sector_returns.py:70 | `ws.append` adds one row at the end |
| Sheet.Worksheet.SetCell | update_sector_returns.py:73 | `ws.cell(row, c, value=v)` changes at most one cell of one row, and only when v is not None |
| Sheet.Worksheet.FillRow | update_sector_returns.py:71-83 | once the row is found, writing its sector, pick and average cells turns it into the filled row (missing values keep the old cells) and leaves every other row alone |
| Sheet.Worksheet.WriteSectorCells | update_sector_returns.py:71-74 | the sector loop writes each present sector's cell, leaves a missing sector's cell as it was, and builds `vals` with -1e9 for the missing sectors |
| Sheet.RankTopTwo | update_sector_returns.py:75-78 | the two picks are the first maxima before and after the -1e10 swap-out, and `vals` is restored afterwards |
| Sheet.ArgMax | update_sector_returns.py:76 | the scan returns the first index of the maximum |
| Sheet.Worksheet.WriteData | update_sector_returns.py:66-83 | `write_data` changes the table into exactly its upsert, including the cells a None write leaves alone (same in backfill_historical_data.py:89-120 and backfill_twelvedata.py:134-161) |
| Cli.ValidatedStart | backfill_historical_data.py:174-193 | an accepted start has a month in 1..12 and a year in 1990..current year; a parsed start that passes both checks is accepted; unparsable arguments are refused |
| Cli.DefaultStartUsed | backfill_historical_data.py:178-180 | with fewer than two arguments the start is 2017-01, refused only when the current year is before 2017 |
| Cli.ExplicitStart | backfill_historical_data.py:187-193 | a year and month given in decimal are read back; the month check comes before the year check |
| Cli.IndexOf | backfill_twelvedata.py:213 | `args.index(x)` is the first position holding x |
| Cli.StripApiKey | backfill_twelvedata.py:212-215 | without the flag the arguments are unchanged; with it, a flag in last position is an error; otherwise the next token is the key and the other arguments keep their order |
| Cli.ResolveApiKey | backfill_twelvedata.py:54-63 | the flag's value is used when the flag was given, else the environment variable; an empty or absent key is refused |
| Cli.ParseStart | backfill_historical_data.py:174-184 | with fewer than two arguments the start is 2017-01; with two or more it is the first two read by `int()`, refused when either is not an integer, the year being read first |
| Cli.ValidateStart | backfill_historical_data.py:187-193 | a start passes exactly when its month is in 1..12 and its year in 1990..current year, and is then unchanged; a bad month is reported before a bad year |
| Cli.TwelveDataMain | backfill_twelvedata.py:206-237 | a dangling flag is refused first; with the flag, a run is accepted exactly when the other arguments give a valid start and the flag's value is not empty, and that value is the key; without the flag, exactly when the start is valid and the environment holds a non-empty key, which is then the key |
| Cli.FlagPlacementIrrelevant | backfill_twelvedata.py:212-219 | the flag before or after the positional arguments yields the same start and the flag's key |
| Cli.DanglingFlagFails | backfill_twelvedata.py:214 | `--api-key` as the last token is an error before anything else is checked |
| Drivers.ReplayStep | backfill_historical_data.py:156 | replaying one more month is one more upsert |
| Drivers.BackfillStep | backfill_historical_data.py:143-157 | the month the loop holds at step p is the p-th month of the range, so writing it extends the replay by that month |
| Drivers.Replay | backfill_historical_data.py:143-157 | the table after the backfill keeps the rows that were there and adds at most one row per month |
| Drivers.ReplayKeepsKeys | backfill_historical_data.py:143-157 | the backfill keeps every existing row's key |
| Drivers.ReplayCoversMonths | backfill_historical_data.py:143-157 | after the backfill every visited month has a row keyed by its "YYYY-MM" |
| Drivers.ReplayKeepsKeysUnique | backfill_twelvedata.py:181-193 | a table without duplicate keys has none after the backfill |
| Drivers.Backfill | backfill_historical_data.py:140-164 | the loop counts exactly the months from start through end and leaves the table of upserting them in order (same in backfill_twelvedata.py:178-199) |
| Drivers.WriteMonth | backfill_historical_data.py:144-156 | one month of work: the sector returns over the given baskets, upserted into the row keyed "YYYY-MM" (the same steps as update_sector_returns.py:88-91) |
| Drivers.UpdatePreviousMonth | update_sector_returns.py:85-99 | the updater upserts the previous month's sector returns with status 0; it exits with status 1 and writes nothing exactly when there is no previous month or no calendar month before it (`month_bounds` runs at line 34, before the `try` of `last_close`, so its ValueError reaches the handler of `main`) |
| Drivers.BackfillToPreviousMonth | backfill_historical_data.py:130-164 | with no end given, the backfill runs through the month before today |
| Drivers.RunHistorical | backfill_historical_data.py:172-202 | refused arguments give status 1 and an unchanged table; otherwise every month from the start through the previous month is written |
| Drivers.RunTwelveData | backfill_twelvedata.py:206-246 | refused arguments or a missing key give status 1 and an unchanged table; otherwise the same backfill over the second provider's baskets |

## Left out

- Price fetching (`last_close`, `last_close_td`, the `TDClient` client built by `init_client`): network I/O. The model takes the provider as the function `close`. An exception raised inside the `try` of `last_close` is a `None` close. The month bounds are built before that `try`, so a month with no calendar dates raises out of the run; `Drivers.UpdatePreviousMonth` models that as status 1.
- Workbook file handling (`ensure_excel`, `load_workbook`, `wb.save`) and the header's font and fill: file I/O and styling. The `Worksheet` holds the data rows below the header, and `Sectors.Header` is the header row.
- Clock and environment: `datetime.utcnow()` and `os.environ` are parameters (`today`, the current year, `env`). The backfill `main`s read the clock twice, once to check the year and once for the end month. The model uses one `today` for both, so a run across midnight on New Year's Eve is not modelled.
- Printing, progress output and tracebacks: not modelled. Only the exit status is kept.
- Round2 (Sheet.Round2): uses round-half-even on exact reals. Python rounds binary floats, and those can differ from exact values at the half-cent.
- Floating point in general: returns, weights and sums are exact reals. Float overflow and loss of precision near the -1e9 / -1e10 sentinels are not modelled.
- ParseInt (Decimal.ParseInt): does not accept the surrounding whitespace, underscores between digits or non-ASCII digits that Python's `int()` also accepts.
- KeyText (Sheet.KeyText): a number in the key column is treated as matching no key. Python's `str` of a number never has the form "YYYY-MM", so no month could match it anyway.
- The `try/except: pass` around the ranking is not modelled. With ten sectors neither `max` call can raise.
- BackfillToPreviousMonth (Drivers.BackfillToPreviousMonth): requires that a previous month exists. In January of year 1 the source raises OverflowError. Both `main`s only reach this call with a year of at least 1990.
- Exceptions inside a backfill run (for example a failed save) are not modelled. The source exits with status 1 and loses the unsaved workbook. The model's provider never raises.
- TopTwoDistinct (Sheet.TopTwoDistinct): distinctness is stated only when every present return is above -1e10. With a return at or below -1e10, the swapped-out Top #1 can tie or beat it, and the source may then pick the same sector twice.
- WeightedReturnBounded and WeightedReturnMissingIff (Returns): assume positive weights. Both `SECTORS` tables have them (`Sectors.BasketTables`).
- `check_data_availability.py` is not part of this model: it is a diagnostic that only downloads and prints.
- Backfill (Drivers.Backfill): a start of 0001-01 would make the source raise while building the bounds of 0000-12. Both backfill `main`s only call it with a year of at least 1990, so that failure is not modelled.
