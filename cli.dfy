/**
 * Command-line handling of the two backfill scripts: the optional start
 * `[start_year start_month]` (default 2017-01), its validation against the
 * current year, and the Twelve Data script's `--api-key KEY` flag with its
 * fallback to the environment. Every error ends the process with status 1
 * before any work starts.
 */
module Cli {
  import opened Optional
  import opened Decimal
  import opened Calendar

  datatype CliError =
    | NotAnInteger(text: string)   // `int(...)` raised ValueError
    | MonthOutOfRange(month: int)  // "Invalid month"
    | YearOutOfRange(year: int)    // "Invalid year"
    | MissingApiKeyValue           // `args[idx + 1]` raised IndexError
    | NoApiKey                     // neither the flag nor TWELVEDATA_API_KEY gave a key

  const DefaultStart := YearMonth(2017, 1)
  const EarliestYear := 1990
  const ApiKeyFlag := "--api-key"

  /** A start month `main` lets through to `backfill`. */
  predicate StartAllowed(start: YearMonth, currentYear: int)
  {
    1 <= start.month <= 12 && EarliestYear <= start.year <= currentYear
  }

  /**
   * The positional arguments as `main` reads them: year then month when at
   * least two are given (further ones are ignored), the default otherwise.
   */
  function ParseStart(positional: seq<string>): (r: Result<YearMonth, CliError>)
    ensures |positional| < 2 ==> r == Ok(DefaultStart)
    ensures |positional| >= 2 ==>
      (r.Ok? <==> ParseInt(positional[0]).Some? && ParseInt(positional[1]).Some?)
    ensures |positional| >= 2 && r.Ok? ==>
      r.value == YearMonth(ParseInt(positional[0]).value, ParseInt(positional[1]).value)
    ensures |positional| >= 2 && ParseInt(positional[0]).None? ==> r == Err(NotAnInteger(positional[0]))
  {
    if |positional| >= 2 then
      match ParseInt(positional[0])
      case None => Err(NotAnInteger(positional[0]))
      case Some(y) =>
        match ParseInt(positional[1])
        case None => Err(NotAnInteger(positional[1]))
        case Some(m) => Ok(YearMonth(y, m))
    else Ok(DefaultStart)
  }

  /** The two validation checks, month first, then year against the current year. */
  function ValidateStart(start: YearMonth, currentYear: int): (r: Result<YearMonth, CliError>)
    ensures r.Ok? <==> StartAllowed(start, currentYear)
    ensures r.Ok? ==> r.value == start
    ensures !(1 <= start.month <= 12) ==> r == Err(MonthOutOfRange(start.month))
    ensures 1 <= start.month <= 12 && !StartAllowed(start, currentYear) ==> r == Err(YearOutOfRange(start.year))
  {
    if !(1 <= start.month <= 12) then Err(MonthOutOfRange(start.month))
    else if start.year < EarliestYear || start.year > currentYear then Err(YearOutOfRange(start.year))
    else Ok(start)
  }

  /**
   * `main()` of the historical backfill up to the call of `backfill`
   * (`positional` is `sys.argv[1:]`); the Twelve Data script runs the same
   * steps on its arguments once the key flag is stripped. The result is a
   * start month `backfill` accepts, and every parsed start that passes the
   * two checks is accepted.
   */
  function ValidatedStart(positional: seq<string>, currentYear: int): (r: Result<YearMonth, CliError>)
    ensures r.Ok? ==> StartAllowed(r.value, currentYear)
    ensures r.Ok? <==> ParseStart(positional).Ok? && StartAllowed(ParseStart(positional).value, currentYear)
    ensures r.Ok? ==> r.value == ParseStart(positional).value
  {
    match ParseStart(positional)
    case Err(e) => Err(e)
    case Ok(start) => ValidateStart(start, currentYear)
  }

  /** Without two positional arguments the start is 2017-01, accepted unless the clock is before 2017. */
  lemma DefaultStartUsed(positional: seq<string>, currentYear: int)
    requires |positional| < 2
    ensures ValidatedStart(positional, currentYear) ==
      if 2017 <= currentYear then Ok(DefaultStart) else Err(YearOutOfRange(2017))
  {
  }

  /**
   * A year and month written in decimal are read back as that year and
   * month; the month check comes before the year check.
   */
  lemma ExplicitStart(y: int, m: int, rest: seq<string>, currentYear: int)
    ensures var r := ValidatedStart([IntText(y), IntText(m)] + rest, currentYear);
      && (StartAllowed(YearMonth(y, m), currentYear) ==> r == Ok(YearMonth(y, m)))
      && (!(1 <= m <= 12) ==> r == Err(MonthOutOfRange(m)))
      && (1 <= m <= 12 && !(EarliestYear <= y <= currentYear) ==> r == Err(YearOutOfRange(y)))
  {
    IntTextRoundTrip(y);
    IntTextRoundTrip(m);
  }

  /** `args.index(x)`: the position of the first occurrence. */
  function IndexOf(args: seq<string>, x: string): (i: nat)
    requires x in args
    ensures i < |args| && args[i] == x && x !in args[..i]
  {
    if args[0] == x then 0
    else
      assert x in args[1..];
      assert args[1..][..IndexOf(args[1..], x)] == args[1..1 + IndexOf(args[1..], x)];
      1 + IndexOf(args[1..], x)
  }

  /**
   * The `--api-key` handling of the Twelve Data `main`: the first
   * occurrence of the flag and the token after it are removed, that token
   * is the key, and the other arguments keep their order. A flag in last
   * position is an error.
   */
  function StripApiKey(args: seq<string>): (r: Result<(Option<string>, seq<string>), CliError>)
    ensures ApiKeyFlag !in args ==> r == Ok((None, args))
    ensures ApiKeyFlag in args ==>
      var i := IndexOf(args, ApiKeyFlag);
      && (r.Err? <==> i == |args| - 1)
      && (r.Ok? ==> r.value.0 == Some(args[i + 1]) && |r.value.1| == |args| - 2)
      && (r.Ok? ==> forall j :: 0 <= j < |r.value.1| ==> r.value.1[j] == args[if j < i then j else j + 2])
  {
    if ApiKeyFlag in args then
      var i := IndexOf(args, ApiKeyFlag);
      if i + 1 < |args| then Ok((Some(args[i + 1]), args[..i] + args[i + 2..]))
      else Err(MissingApiKeyValue)
    else Ok((None, args))
  }

  /**
   * `init_client(api_key)`'s choice of key: the flag's value when the flag
   * was given, else the environment variable; an empty or absent key is
   * refused. A flag with an empty value hides the environment.
   */
  function ResolveApiKey(flag: Option<string>, env: Option<string>): (key: Option<string>)
    ensures key.Some? ==> key.value != ""
    ensures flag.Some? ==> key == (if flag.value == "" then None else flag)
    ensures flag.None? ==> key == (if env.None? || env.value == "" then None else env)
  {
    var k := if flag.None? then env else flag;
    if k.None? || k.value == "" then None else k
  }

  /**
   * `main()` of the Twelve Data backfill up to the call of `backfill`:
   * strip the key flag, read and validate the start, then resolve the key.
   * A dangling flag is refused first; with the flag, the run is accepted
   * exactly when the remaining arguments give a valid start and the flag's
   * value is not empty, and that value is the key; without it, the
   * environment must hold a non-empty key.
   */
  function TwelveDataMain(args: seq<string>, env: Option<string>, currentYear: int): (r: Result<(YearMonth, string), CliError>)
    ensures r.Ok? ==> StartAllowed(r.value.0, currentYear) && r.value.1 != ""
    ensures ApiKeyFlag !in args ==>
      (r.Ok? <==> ValidatedStart(args, currentYear).Ok? && env.Some? && env.value != "")
    ensures ApiKeyFlag !in args && r.Ok? ==> r.value == (ValidatedStart(args, currentYear).value, env.value)
    ensures StripApiKey(args).Err? ==> r == Err(MissingApiKeyValue)
    ensures ApiKeyFlag in args && StripApiKey(args).Ok? ==>
      var flag, positional := StripApiKey(args).value.0.value, StripApiKey(args).value.1;
      && (r.Ok? <==> ValidatedStart(positional, currentYear).Ok? && flag != "")
      && (r.Ok? ==> r.value == (ValidatedStart(positional, currentYear).value, flag))
  {
    match StripApiKey(args)
    case Err(e) => Err(e)
    case Ok((flag, positional)) =>
      match ValidatedStart(positional, currentYear)
      case Err(e) => Err(e)
      case Ok(start) =>
        match ResolveApiKey(flag, env)
        case None => Err(NoApiKey)
        case Some(key) => Ok((start, key))
  }

  /**
   * With the flag in front of the positional arguments or after them, the
   * Twelve Data `main` reads the same start as the historical one does
   * without the flag, and takes the flag's value as the key.
   */
  lemma FlagPlacementIrrelevant(y: int, m: int, key: string, env: Option<string>, currentYear: int)
    requires key != "" && key != ApiKeyFlag && StartAllowed(YearMonth(y, m), currentYear)
    ensures TwelveDataMain([IntText(y), IntText(m), ApiKeyFlag, key], env, currentYear) == Ok((YearMonth(y, m), key))
    ensures TwelveDataMain([ApiKeyFlag, key, IntText(y), IntText(m)], env, currentYear) == Ok((YearMonth(y, m), key))
  {
    IntTextRoundTrip(y);
    IntTextRoundTrip(m);
    var a := [IntText(y), IntText(m), ApiKeyFlag, key];
    assert IntText(y) != ApiKeyFlag && IntText(m) != ApiKeyFlag by {
      assert IsDigit(IntText(y)[0]) && IsDigit(IntText(m)[0]);
    }
    assert IndexOf(a, ApiKeyFlag) == 2;
    assert a[..2] + a[4..] == [IntText(y), IntText(m)];
    var b := [ApiKeyFlag, key, IntText(y), IntText(m)];
    assert b[..0] + b[2..] == [IntText(y), IntText(m)];
  }

  /** `--api-key` as the last token stops the program before anything else is checked. */
  lemma DanglingFlagFails(positional: seq<string>, env: Option<string>, currentYear: int)
    requires ApiKeyFlag !in positional
    ensures TwelveDataMain(positional + [ApiKeyFlag], env, currentYear) == Err(MissingApiKeyValue)
  {
    var a := positional + [ApiKeyFlag];
    assert a[..|positional|] == positional;
    assert IndexOf(a, ApiKeyFlag) == |positional|;
  }
}
