/**
 * The return calculator: `monthly_return` (`monthly_return_td`) and
 * `weighted_return`, over an abstract price provider `close(ticker, y, m)`
 * that gives the last close of the month, or `None` when the provider had no
 * data or raised.
 */
module Returns {
  import opened Optional
  import opened Calendar
  import opened Sectors

  /** `last_close(ticker, y, m)` / `last_close_td(ticker, y, m)`. */
  type Oracle = (string, int, int) -> Option<real>

  /** Python's `not lc` on a close: `None` and `0.0` are both falsy. */
  predicate Falsy(c: Option<real>) { c.None? || c.value == 0.0 }

  /**
   * `monthly_return(ticker, y, m)`: the return from the previous calendar
   * month's close to this month's close, missing exactly when either close
   * is missing or zero.
   */
  function MonthlyReturn(close: Oracle, ticker: string, y: int, m: int): (r: Option<real>)
    ensures var p := PrevYearMonth(y, m);
      r.None? <==> Falsy(close(ticker, y, m)) || Falsy(close(ticker, p.year, p.month))
  {
    var lc := close(ticker, y, m);
    var p := PrevYearMonth(y, m);
    var prev := close(ticker, p.year, p.month);
    if Falsy(lc) || Falsy(prev) then None else Some(lc.value / prev.value - 1.0)
  }

  /** A present monthly return applied to the previous month's close gives this month's close. */
  lemma MonthlyReturnGrowth(close: Oracle, ticker: string, y: int, m: int)
    ensures var p := PrevYearMonth(y, m);
      var r := MonthlyReturn(close, ticker, y, m);
      r.Some? ==> (1.0 + r.value) * close(ticker, p.year, p.month).value == close(ticker, y, m).value
  {
  }

  /** A constituent whose monthly return is present: it enters both `total` and `wsum`. */
  datatype Contribution = Contribution(weight: real, ret: real)

  /** The constituents of `basket` that have a present return, in basket order. */
  function Contributions(close: Oracle, basket: Basket, y: int, m: int): (cs: seq<Contribution>)
    ensures |cs| <= |basket|
    decreases |basket|
  {
    if basket == [] then []
    else
      var rest := Contributions(close, basket[..|basket| - 1], y, m);
      match MonthlyReturn(close, basket[|basket| - 1].ticker, y, m)
      case None => rest
      case Some(r) => rest + [Contribution(basket[|basket| - 1].weight, r)]
  }

  /**
   * A single constituent contributes its weight and return when the return
   * is present, and nothing otherwise; with `ContributionsAppend` this fixes
   * the contributions of any basket.
   */
  lemma ContributionsOne(close: Oracle, h: Holding, y: int, m: int)
    ensures Contributions(close, [h], y, m) ==
      match MonthlyReturn(close, h.ticker, y, m)
      case None => []
      case Some(r) => [Contribution(h.weight, r)]
  {
    assert [h][..0] == [];
  }

  /** No constituent contributes exactly when no constituent has a return. */
  lemma {:induction false} ContributionsEmptyIff(close: Oracle, basket: Basket, y: int, m: int)
    ensures Contributions(close, basket, y, m) == [] <==>
      forall i :: 0 <= i < |basket| ==> MonthlyReturn(close, basket[i].ticker, y, m).None?
    decreases |basket|
  {
    if basket != [] {
      var front := basket[..|basket| - 1];
      ContributionsEmptyIff(close, front, y, m);
      assert forall i :: 0 <= i < |front| ==> front[i] == basket[i];
    }
  }

  /** Contributions carry the basket's weights, so they are positive when the basket's are. */
  lemma {:induction false} ContributionsPositive(close: Oracle, basket: Basket, y: int, m: int)
    requires PositiveWeights(basket)
    ensures var cs := Contributions(close, basket, y, m);
      |cs| <= |basket| && forall k :: 0 <= k < |cs| ==> cs[k].weight > 0.0
    decreases |basket|
  {
    if basket != [] {
      var front := basket[..|basket| - 1];
      assert forall i :: 0 <= i < |front| ==> front[i] == basket[i];
      ContributionsPositive(close, front, y, m);
    }
  }

  /** `wsum`: the sum of the weights of the contributing constituents. */
  function WeightSum(cs: seq<Contribution>): real
  {
    if cs == [] then 0.0 else WeightSum(cs[..|cs| - 1]) + cs[|cs| - 1].weight
  }

  /** `total`: the sum of weight times return of the contributing constituents. */
  function WeightedTotal(cs: seq<Contribution>): real
  {
    if cs == [] then 0.0 else WeightedTotal(cs[..|cs| - 1]) + cs[|cs| - 1].weight * cs[|cs| - 1].ret
  }

  lemma SumsExtend(cs: seq<Contribution>, c: Contribution)
    ensures WeightSum(cs + [c]) == WeightSum(cs) + c.weight
    ensures WeightedTotal(cs + [c]) == WeightedTotal(cs) + c.weight * c.ret
  {
    assert (cs + [c])[..|cs|] == cs;
  }

  /** `None if wsum == 0 else total / wsum`. */
  function WeightedMean(cs: seq<Contribution>): Option<real>
  {
    if WeightSum(cs) == 0.0 then None else Some(WeightedTotal(cs) / WeightSum(cs))
  }

  /**
   * The value `weighted_return(y, m, basket)` computes: missing when `wsum`
   * is 0, and otherwise the `r` with `r * wsum == total`.
   */
  function WeightedReturnOf(close: Oracle, basket: Basket, y: int, m: int): (r: Option<real>)
    ensures var cs := Contributions(close, basket, y, m);
      && (r.None? <==> WeightSum(cs) == 0.0)
      && (r.Some? ==> r.value * WeightSum(cs) == WeightedTotal(cs))
  {
    WeightedMean(Contributions(close, basket, y, m))
  }

  /**
   * One pass of the loop body: a constituent with a present return adds
   * weight times return to `total` and its weight to `wsum`; one without
   * a return adds nothing.
   */
  lemma AccumulateStep(close: Oracle, basket: Basket, i: nat, y: int, m: int, total: real, wsum: real)
    requires i < |basket|
    requires total == WeightedTotal(Contributions(close, basket[..i], y, m))
    requires wsum == WeightSum(Contributions(close, basket[..i], y, m))
    ensures var ret := MonthlyReturn(close, basket[i].ticker, y, m);
      && (if ret.Some? then total + basket[i].weight * ret.value else total) ==
           WeightedTotal(Contributions(close, basket[..i + 1], y, m))
      && (if ret.Some? then wsum + basket[i].weight else wsum) ==
           WeightSum(Contributions(close, basket[..i + 1], y, m))
  {
    var before := Contributions(close, basket[..i], y, m);
    assert basket[..i + 1][..i] == basket[..i];
    var ret := MonthlyReturn(close, basket[i].ticker, y, m);
    if ret.Some? {
      var c := Contribution(basket[i].weight, ret.value);
      assert Contributions(close, basket[..i + 1], y, m) == before + [c];
      SumsExtend(before, c);
    } else {
      assert Contributions(close, basket[..i + 1], y, m) == before;
    }
  }

  /** The loop of `weighted_return`: `total` and `wsum` over the constituents with a return. */
  method Accumulate(close: Oracle, y: int, m: int, basket: Basket) returns (total: real, wsum: real)
    ensures total == WeightedTotal(Contributions(close, basket, y, m))
    ensures wsum == WeightSum(Contributions(close, basket, y, m))
  {
    total, wsum := 0.0, 0.0;
    for i := 0 to |basket|
      invariant total == WeightedTotal(Contributions(close, basket[..i], y, m))
      invariant wsum == WeightSum(Contributions(close, basket[..i], y, m))
    {
      AccumulateStep(close, basket, i, y, m, total, wsum);
      var ret := MonthlyReturn(close, basket[i].ticker, y, m);
      if ret.Some? {
        total := total + basket[i].weight * ret.value;
        wsum := wsum + basket[i].weight;
      }
    }
    assert basket[..|basket|] == basket;
  }

  /** `weighted_return(y, m, basket)`: `None if wsum == 0 else total / wsum` after the loop. */
  method WeightedReturn(close: Oracle, y: int, m: int, basket: Basket) returns (r: Option<real>)
    ensures r == WeightedReturnOf(close, basket, y, m)
  {
    var total, wsum := Accumulate(close, y, m, basket);
    r := if wsum == 0.0 then None else Some(total / wsum);
  }

  /** The sector returns of one month, in header order (`{s: weighted_return(y, m, b) ...}`). */
  function SectorReturns(close: Oracle, baskets: seq<Basket>, ym: YearMonth): (d: seq<Option<real>>)
    requires |baskets| == NumSectors
    ensures |d| == NumSectors
    ensures forall i :: 0 <= i < NumSectors ==> d[i] == WeightedReturnOf(close, baskets[i], ym.year, ym.month)
  {
    seq(NumSectors, i requires 0 <= i < NumSectors => WeightedReturnOf(close, baskets[i], ym.year, ym.month))
  }

  /** The loop over `SECTORS.items()` that fills `sector_ret` for one month. */
  method ComputeSectorReturns(close: Oracle, baskets: seq<Basket>, ym: YearMonth) returns (d: seq<Option<real>>)
    requires |baskets| == NumSectors
    ensures d == SectorReturns(close, baskets, ym)
  {
    d := [];
    for i := 0 to NumSectors
      invariant |d| == i
      invariant forall k :: 0 <= k < i ==> d[k] == WeightedReturnOf(close, baskets[k], ym.year, ym.month)
    {
      var ret := WeightedReturn(close, ym.year, ym.month, baskets[i]);
      d := d + [ret];
    }
  }

  lemma {:induction false} WeightSumPositive(cs: seq<Contribution>)
    requires cs != [] && forall k :: 0 <= k < |cs| ==> cs[k].weight > 0.0
    ensures WeightSum(cs) > 0.0
  {
    if |cs| > 1 {
      WeightSumPositive(cs[..|cs| - 1]);
    }
  }

  /**
   * With positive weights, `weighted_return` is missing exactly when no
   * constituent has a return — never a zero standing for "no data".
   */
  lemma WeightedReturnMissingIff(close: Oracle, basket: Basket, y: int, m: int)
    requires PositiveWeights(basket)
    ensures WeightedReturnOf(close, basket, y, m).None? <==>
      forall i :: 0 <= i < |basket| ==> MonthlyReturn(close, basket[i].ticker, y, m).None?
  {
    var cs := Contributions(close, basket, y, m);
    ContributionsEmptyIff(close, basket, y, m);
    ContributionsPositive(close, basket, y, m);
    if cs != [] {
      WeightSumPositive(cs);
    }
  }

  /**
   * Over well-formed baskets, a sector's entry of `sector_ret` is missing
   * exactly when none of that sector's constituents has a monthly return.
   */
  lemma SectorReturnsMissingIff(close: Oracle, baskets: seq<Basket>, ym: YearMonth)
    requires WellFormedBaskets(baskets)
    ensures forall i :: 0 <= i < NumSectors ==>
      (SectorReturns(close, baskets, ym)[i].None? <==>
       forall j :: 0 <= j < |baskets[i]| ==> MonthlyReturn(close, baskets[i][j].ticker, ym.year, ym.month).None?)
  {
    forall i | 0 <= i < NumSectors
      ensures SectorReturns(close, baskets, ym)[i].None? <==>
        forall j :: 0 <= j < |baskets[i]| ==> MonthlyReturn(close, baskets[i][j].ticker, ym.year, ym.month).None?
    {
      WeightedReturnMissingIff(close, baskets[i], ym.year, ym.month);
    }
  }

  /** The returns of the contributing constituents. */
  function Rets(cs: seq<Contribution>): (xs: seq<real>)
    ensures |xs| == |cs| && forall k :: 0 <= k < |cs| ==> xs[k] == cs[k].ret
  {
    seq(|cs|, k requires 0 <= k < |cs| => cs[k].ret)
  }

  /** The smallest element of a non-empty sequence. */
  function MinOf(xs: seq<real>): (lo: real)
    requires xs != []
    ensures lo in xs && forall k :: 0 <= k < |xs| ==> lo <= xs[k]
  {
    if |xs| == 1 then xs[0]
    else
      var rest := MinOf(xs[..|xs| - 1]);
      if xs[|xs| - 1] < rest then xs[|xs| - 1] else rest
  }

  /** The largest element of a non-empty sequence. */
  function MaxOf(xs: seq<real>): (hi: real)
    requires xs != []
    ensures hi in xs && forall k :: 0 <= k < |xs| ==> xs[k] <= hi
  {
    if |xs| == 1 then xs[0]
    else
      var rest := MaxOf(xs[..|xs| - 1]);
      if xs[|xs| - 1] > rest then xs[|xs| - 1] else rest
  }

  lemma ScaleMonotone(w: real, a: real, b: real)
    requires w >= 0.0 && a <= b
    ensures w * a <= w * b
  {
  }

  /**
   * Adding one contribution `v * r` with `lo <= r <= hi` to a total `t` of
   * weight `w` keeps the new total `t2` of weight `w2` within the bounds.
   */
  lemma BoundsStep(lo: real, hi: real, w: real, t: real, v: real, r: real, w2: real, t2: real)
    requires lo * w <= t <= hi * w && v > 0.0 && lo <= r <= hi
    requires w2 == w + v && t2 == t + v * r
    ensures lo * w2 <= t2 <= hi * w2
  {
    ScaleMonotone(v, lo, r);
    ScaleMonotone(v, r, hi);
    assert lo * w2 == lo * w + v * lo;
    assert hi * w2 == hi * w + v * hi;
  }

  lemma {:induction false} WeightedTotalBounds(cs: seq<Contribution>, lo: real, hi: real)
    requires forall k :: 0 <= k < |cs| ==> cs[k].weight > 0.0 && lo <= cs[k].ret <= hi
    ensures lo * WeightSum(cs) <= WeightedTotal(cs) <= hi * WeightSum(cs)
  {
    if cs != [] {
      var front, last := cs[..|cs| - 1], cs[|cs| - 1];
      assert forall k :: 0 <= k < |front| ==> front[k] == cs[k];
      WeightedTotalBounds(front, lo, hi);
      var w, t := WeightSum(front), WeightedTotal(front);
      var w2, t2 := WeightSum(cs), WeightedTotal(cs);
      assert w2 == w + last.weight && t2 == t + last.weight * last.ret;
      BoundsStep(lo, hi, w, t, last.weight, last.ret, w2, t2);
    }
  }

  lemma QuotientBounds(t: real, w: real, lo: real, hi: real)
    requires w > 0.0 && lo * w <= t <= hi * w
    ensures lo <= t / w <= hi
  {
  }

  lemma WeightedMeanBounded(cs: seq<Contribution>, lo: real, hi: real)
    requires cs != []
    requires forall k :: 0 <= k < |cs| ==> cs[k].weight > 0.0 && lo <= cs[k].ret <= hi
    ensures WeightedMean(cs).Some? && lo <= WeightedMean(cs).value <= hi
  {
    WeightSumPositive(cs);
    WeightedTotalBounds(cs, lo, hi);
    QuotientBounds(WeightedTotal(cs), WeightSum(cs), lo, hi);
  }

  /**
   * The weighted-average law: with positive weights, a present sector return
   * lies between the smallest and the largest present constituent return.
   */
  lemma WeightedReturnBounded(close: Oracle, basket: Basket, y: int, m: int)
    requires PositiveWeights(basket)
    ensures var cs := Contributions(close, basket, y, m);
      var r := WeightedReturnOf(close, basket, y, m);
      r.Some? ==> cs != [] && MinOf(Rets(cs)) <= r.value <= MaxOf(Rets(cs))
  {
    var cs := Contributions(close, basket, y, m);
    ContributionsPositive(close, basket, y, m);
    if cs != [] {
      var xs := Rets(cs);
      WeightedMeanBounded(cs, MinOf(xs), MaxOf(xs));
    }
  }

  lemma {:induction false} ContributionsAppend(close: Oracle, a: Basket, b: Basket, y: int, m: int)
    ensures Contributions(close, a + b, y, m) == Contributions(close, a, y, m) + Contributions(close, b, y, m)
    decreases |b|
  {
    if b == [] {
      assert a + b == a;
    } else {
      var b' := b[..|b| - 1];
      assert (a + b)[..|a + b| - 1] == a + b';
      ContributionsAppend(close, a, b', y, m);
    }
  }

  /**
   * A constituent without a return adds to neither `total` nor `wsum`: the
   * basket's result is the same with that constituent removed.
   */
  lemma MissingConstituentIgnored(close: Oracle, basket: Basket, i: nat, y: int, m: int)
    requires i < |basket| && MonthlyReturn(close, basket[i].ticker, y, m).None?
    ensures WeightedReturnOf(close, basket, y, m) == WeightedReturnOf(close, basket[..i] + basket[i + 1..], y, m)
  {
    assert basket == basket[..i] + [basket[i]] + basket[i + 1..];
    ContributionsAppend(close, basket[..i] + [basket[i]], basket[i + 1..], y, m);
    ContributionsAppend(close, basket[..i], [basket[i]], y, m);
    ContributionsAppend(close, basket[..i], basket[i + 1..], y, m);
    assert [basket[i]][..0] == [];
  }
}
