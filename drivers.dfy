/**
 * The three entry points: the incremental update of the previous month
 * (`update_sector_returns.py`), the month loop of `backfill`, and the two
 * backfill `main`s that validate their arguments and then run the loop up to
 * the previous month.
 */
module Drivers {
  import opened Optional
  import opened Calendar
  import opened Sectors
  import opened Returns
  import opened Sheet
  import Cli

  /**
   * The table after upserting each month of `months`, in order: the rows
   * that were there stay, and at most one row is added per month.
   */
  function Replay(rows: seq<Row>, close: Oracle, baskets: seq<Basket>, months: seq<YearMonth>): (r: seq<Row>)
    requires |baskets| == NumSectors
    requires forall k :: 0 <= k < |months| ==> ValidMonth(months[k])
    ensures |rows| <= |r| <= |rows| + |months|
    decreases |months|
  {
    if months == [] then rows
    else
      var last := months[|months| - 1];
      Upserted(Replay(rows, close, baskets, months[..|months| - 1]), MonthKey(last), SectorReturns(close, baskets, last))
  }

  /** Replaying one more month is one more upsert. */
  lemma ReplayStep(rows: seq<Row>, close: Oracle, baskets: seq<Basket>, months: seq<YearMonth>, p: nat)
    requires |baskets| == NumSectors && p < |months|
    requires forall k :: 0 <= k < |months| ==> ValidMonth(months[k])
    ensures Replay(rows, close, baskets, months[..p + 1]) ==
      Upserted(Replay(rows, close, baskets, months[..p]), MonthKey(months[p]), SectorReturns(close, baskets, months[p]))
  {
    assert months[..p + 1][..p] == months[..p];
  }

  /** The replay keeps the keys of the rows that were there, and adds at most one row per month. */
  lemma {:induction false} ReplayKeepsKeys(rows: seq<Row>, close: Oracle, baskets: seq<Basket>, months: seq<YearMonth>)
    requires |baskets| == NumSectors
    requires forall k :: 0 <= k < |months| ==> ValidMonth(months[k])
    ensures var r := Replay(rows, close, baskets, months);
      forall k :: 0 <= k < |rows| ==> Key(r[k]) == Key(rows[k])
    decreases |months|
  {
    if months != [] {
      ReplayKeepsKeys(rows, close, baskets, months[..|months| - 1]);
    }
  }

  /**
   * The month the loop holds at step `p` is the `p`-th month of the range,
   * so writing it extends the replay by one month.
   */
  lemma BackfillStep(rows: seq<Row>, close: Oracle, baskets: seq<Basket>, start: YearMonth, end: YearMonth, p: nat, ym: YearMonth)
    requires ValidMonth(start) && ValidMonth(ym) && |baskets| == NumSectors
    requires MonthIndex(ym) == MonthIndex(start) + p && MonthIndex(ym) <= MonthIndex(end)
    ensures p < |MonthRange(start, end)|
    ensures Replay(rows, close, baskets, MonthRange(start, end)[..p + 1]) ==
      Upserted(Replay(rows, close, baskets, MonthRange(start, end)[..p]), MonthKey(ym), SectorReturns(close, baskets, ym))
  {
    var months := MonthRange(start, end);
    MonthIndexInjective(months[p], ym);
    ReplayStep(rows, close, baskets, months, p);
  }

  /** After the replay every month has a row keyed by its "YYYY-MM". */
  lemma {:induction false} ReplayCoversMonths(rows: seq<Row>, close: Oracle, baskets: seq<Basket>, months: seq<YearMonth>)
    requires |baskets| == NumSectors
    requires forall k :: 0 <= k < |months| ==> ValidMonth(months[k])
    ensures forall k :: 0 <= k < |months| ==>
      LastKeyed(Replay(rows, close, baskets, months), MonthKey(months[k])).Some?
    decreases |months|
  {
    if months != [] {
      var front := months[..|months| - 1];
      var last := months[|months| - 1];
      ReplayCoversMonths(rows, close, baskets, front);
      var before := Replay(rows, close, baskets, front);
      var d := SectorReturns(close, baskets, last);
      var r := Upserted(before, MonthKey(last), d);
      assert Replay(rows, close, baskets, months) == r;
      forall k | 0 <= k < |months|
        ensures LastKeyed(r, MonthKey(months[k])).Some?
      {
        var key := MonthKey(months[k]);
        if k < |front| {
          assert key == MonthKey(front[k]);
          UpsertKeepsKeyed(before, MonthKey(last), d, key);
        } else {
          assert k == |months| - 1;
          assert months[k] == last;
        }
      }
    }
  }

  /** A table without duplicate keys stays without them through the replay. */
  lemma {:induction false} ReplayKeepsKeysUnique(rows: seq<Row>, close: Oracle, baskets: seq<Basket>, months: seq<YearMonth>)
    requires |baskets| == NumSectors && UniqueKeys(rows)
    requires forall k :: 0 <= k < |months| ==> ValidMonth(months[k])
    ensures UniqueKeys(Replay(rows, close, baskets, months))
    decreases |months|
  {
    if months != [] {
      var front := months[..|months| - 1];
      var last := months[|months| - 1];
      ReplayKeepsKeysUnique(rows, close, baskets, front);
      UpsertKeepsKeysUnique(Replay(rows, close, baskets, front), MonthKey(last), SectorReturns(close, baskets, last));
    }
  }

  /**
   * One month of work: the sector returns of `ym` over `baskets`, written
   * into the row keyed "YYYY-MM".
   */
  method WriteMonth(ws: Worksheet, close: Oracle, baskets: seq<Basket>, ym: YearMonth)
    requires ValidMonth(ym) && |baskets| == NumSectors
    modifies ws
    ensures ws.rows == Upserted(old(ws.rows), MonthKey(ym), SectorReturns(close, baskets, ym))
  {
    var sectorRet := ComputeSectorReturns(close, baskets, ym);
    ws.WriteData(MonthKey(ym), sectorRet);
  }

  /**
   * The month loop of `backfill(start_year, start_month, end_year, end_month)`:
   * each month from `start` through `end` is computed and written once, in
   * order, and `months_processed` counts them.
   */
  method Backfill(ws: Worksheet, close: Oracle, baskets: seq<Basket>, start: YearMonth, end: YearMonth)
    returns (processed: nat)
    requires ValidMonth(start) && ValidMonth(end) && |baskets| == NumSectors
    modifies ws
    ensures processed == |MonthRange(start, end)|
    ensures ws.rows == Replay(old(ws.rows), close, baskets, MonthRange(start, end))
  {
    ghost var months := MonthRange(start, end);
    var currentYear, currentMonth := start.year, start.month;
    processed := 0;
    while currentYear < end.year || (currentYear == end.year && currentMonth <= end.month)
      invariant 1 <= currentMonth <= 12
      invariant MonthIndex(YearMonth(currentYear, currentMonth)) == MonthIndex(start) + processed
      invariant processed <= |months|
      invariant ws.rows == Replay(old(ws.rows), close, baskets, months[..processed])
      decreases MonthIndex(end) - MonthIndex(YearMonth(currentYear, currentMonth))
    {
      var ym := YearMonth(currentYear, currentMonth);
      BackfillStep(old(ws.rows), close, baskets, start, end, processed, ym);
      WriteMonth(ws, close, baskets, ym);
      processed := processed + 1;
      if currentMonth == 12 {
        currentYear := currentYear + 1;
        currentMonth := 1;
      } else {
        currentMonth := currentMonth + 1;
      }
    }
    assert months[..processed] == months;
  }

  /**
   * `monthly_return` for month `ym` builds `month_bounds` of the month
   * before it, and does so before the `try` of `last_close`; that month has
   * a calendar date exactly when its year is at least 1, else `date()`
   * raises `ValueError` out of the whole computation.
   */
  predicate ComparisonMonthExists(ym: YearMonth)
  {
    MinYear <= PrevYearMonth(ym.year, ym.month).year
  }

  /**
   * `main()` of `update_sector_returns.py`: compute the previous month's
   * sector returns and upsert its row. Status 1, with nothing written, when
   * there is no previous month or no month before it (the exception
   * handler's exit).
   */
  method UpdatePreviousMonth(ws: Worksheet, close: Oracle, today: Date) returns (status: int)
    requires ValidDate(today)
    modifies ws
    ensures status == 0 || status == 1
    ensures status == 1 <==> PrevMonth(today).None? || !ComparisonMonthExists(PrevMonth(today).value)
    ensures status == 1 ==> ws.rows == old(ws.rows)
    ensures status == 0 ==> (PrevMonth(today).Some? &&
      var p := PrevMonth(today).value;
      ws.rows == Upserted(old(ws.rows), MonthKey(p), SectorReturns(close, YahooBaskets, p)))
  {
    var prev := PrevMonth(today);
    if prev.None? || !ComparisonMonthExists(prev.value) {
      return 1;
    }
    BasketTables();
    WriteMonth(ws, close, YahooBaskets, prev.value);
    status := 0;
  }

  /**
   * `backfill(start_year, start_month)` with the end defaulted to the month
   * before `today`, as both backfill `main`s call it.
   */
  method BackfillToPreviousMonth(ws: Worksheet, close: Oracle, baskets: seq<Basket>, start: YearMonth, today: Date)
    returns (processed: nat)
    requires ValidMonth(start) && ValidDate(today) && |baskets| == NumSectors
    requires PrevMonth(today).Some?
    modifies ws
    ensures processed == |MonthRange(start, PrevMonth(today).value)|
    ensures ws.rows == Replay(old(ws.rows), close, baskets, MonthRange(start, PrevMonth(today).value))
  {
    var end := PrevMonth(today).value;
    processed := Backfill(ws, close, baskets, start, end);
  }

  /**
   * `main()` of `backfill_historical_data.py` (`args` is `sys.argv[1:]`):
   * status 1 and nothing written when the arguments are refused; otherwise
   * every month from the start through the previous month is written.
   */
  method RunHistorical(ws: Worksheet, close: Oracle, args: seq<string>, today: Date) returns (status: int)
    requires ValidDate(today)
    modifies ws
    ensures Cli.ValidatedStart(args, today.year).Err? ==> status == 1 && ws.rows == old(ws.rows)
    ensures Cli.ValidatedStart(args, today.year).Ok? ==> (status == 0 && PrevMonth(today).Some? &&
      ws.rows == Replay(old(ws.rows), close, YahooBaskets,
                        MonthRange(Cli.ValidatedStart(args, today.year).value, PrevMonth(today).value)))
  {
    var outcome := Cli.ValidatedStart(args, today.year);
    if outcome.Err? {
      return 1;
    }
    BasketTables();
    var _ := BackfillToPreviousMonth(ws, close, YahooBaskets, outcome.value, today);
    status := 0;
  }

  /**
   * `main()` of `backfill_twelvedata.py` (`args` is `sys.argv[1:]`, `env`
   * the TWELVEDATA_API_KEY variable): status 1 and nothing written when the
   * arguments or the key are refused; otherwise the same backfill over the
   * Twelve Data baskets. The provider `close` stands for the client built
   * from the accepted key.
   */
  method RunTwelveData(ws: Worksheet, close: Oracle, args: seq<string>, env: Option<string>, today: Date)
    returns (status: int)
    requires ValidDate(today)
    modifies ws
    ensures Cli.TwelveDataMain(args, env, today.year).Err? ==> status == 1 && ws.rows == old(ws.rows)
    ensures Cli.TwelveDataMain(args, env, today.year).Ok? ==> (status == 0 && PrevMonth(today).Some? &&
      ws.rows == Replay(old(ws.rows), close, TwelveDataBaskets,
                        MonthRange(Cli.TwelveDataMain(args, env, today.year).value.0, PrevMonth(today).value)))
  {
    var outcome := Cli.TwelveDataMain(args, env, today.year);
    if outcome.Err? {
      return 1;
    }
    BasketTables();
    var _ := BackfillToPreviousMonth(ws, close, TwelveDataBaskets, outcome.value.0, today);
    status := 0;
  }
}
