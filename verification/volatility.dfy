/** The volatility loop: drop missing prices, take period-over-period returns of
    the surviving prices, and measure their population variance. The final
    square root is not modelled; see `LowestVolatility`. */
module Volatility {
  import opened Options
  import opened Market
  import opened Series
  import Ranking

  /** `series.dropna().values`: the present prices, in date order. */
  function DropMissing(ps: PriceSeries): (r: seq<real>)
    ensures |r| == |PresentDates(ps)|
    ensures forall j :: 0 <= j < |r| ==> ps[PresentDates(ps)[j]] == Some(r[j])
    decreases |ps|
  {
    if ps == [] then []
    else
      var front := ps[..|ps| - 1];
      assert forall i :: 0 <= i < |front| ==> front[i] == ps[i];
      DropMissing(front) + (match ps[|ps| - 1] case Some(p) => [p] case None => [])
  }

  /** Each price except the last, the denominators of the returns, is non-zero. */
  predicate NonZeroBases(p: seq<real>) {
    forall i :: 0 <= i < |p| - 1 ==> p[i] != 0.0
  }

  /** The price reached from `price` after a period with return `ret`. */
  function Grow(price: real, ret: real): real {
    price * (1.0 + ret)
  }

  /** The return of one period, `(after - before) / before`: the rate that
      grows `before` into `after`. */
  function Ratio(before: real, after: real): (r: real)
    requires before != 0.0
    ensures Grow(before, r) == after
  {
    (after - before) / before
  }

  lemma RatioGrow(a: real, x: real)
    requires a != 0.0
    ensures Ratio(a, Grow(a, x)) == x
  {
  }

  lemma GrowNonZero(a: real, x: real)
    requires a != 0.0 && x != -1.0
    ensures Grow(a, x) != 0.0
  {
  }

  /** `(p[1:] - p[:-1]) / p[:-1]`: one return per pair of consecutive prices;
      growing each price by its return gives the next one. */
  function Returns(p: seq<real>): (r: seq<real>)
    requires NonZeroBases(p)
    ensures |r| == if p == [] then 0 else |p| - 1
    ensures forall i :: 0 <= i < |r| ==> p[i + 1] == Grow(p[i], r[i])
  {
    if |p| <= 1 then []
    else
      var r := seq(|p| - 1, i requires 0 <= i < |p| - 1 => Ratio(p[i], p[i + 1]));
      forall i | 0 <= i < |r|
        ensures p[i + 1] == Grow(p[i], r[i])
      {
        assert r[i] == Ratio(p[i], p[i + 1]);
      }
      r
  }

  /** Grows `start` by each return in turn: the price path the returns describe. */
  function Compound(start: real, rs: seq<real>): (p: seq<real>)
    ensures |p| == |rs| + 1 && p[0] == start
    ensures forall i :: 0 <= i < |rs| ==> p[i + 1] == Grow(p[i], rs[i])
    decreases |rs|
  {
    if rs == [] then [start]
    else [start] + Compound(Grow(start, rs[0]), rs[1..])
  }

  lemma {:induction false} CompoundUnique(start: real, rs: seq<real>, p: seq<real>)
    requires |p| == |rs| + 1 && p[0] == start
    requires forall i :: 0 <= i < |rs| ==> p[i + 1] == Grow(p[i], rs[i])
    ensures Compound(start, rs) == p
    decreases |rs|
  {
    if rs != [] {
      CompoundUnique(Grow(start, rs[0]), rs[1..], p[1..]);
      assert p == [p[0]] + p[1..];
    }
  }

  /** Returns lose nothing: compounding them from the first price rebuilds
      the price series. */
  lemma CompoundReturns(p: seq<real>)
    requires p != [] && NonZeroBases(p)
    ensures Compound(p[0], Returns(p)) == p
  {
    CompoundUnique(p[0], Returns(p), p);
  }

  lemma {:induction false} CompoundNonZero(start: real, rs: seq<real>)
    requires start != 0.0
    requires forall i :: 0 <= i < |rs| ==> rs[i] != -1.0
    ensures forall i :: 0 <= i < |Compound(start, rs)| ==> Compound(start, rs)[i] != 0.0
    decreases |rs|
  {
    if rs != [] {
      GrowNonZero(start, rs[0]);
      CompoundNonZero(Grow(start, rs[0]), rs[1..]);
    }
  }

  /** Conversely, the returns of a compounded path are the returns it was built
      from, as long as no price along it reaches zero. */
  lemma ReturnsCompound(start: real, rs: seq<real>)
    requires start != 0.0
    requires forall i :: 0 <= i < |rs| ==> rs[i] != -1.0
    ensures NonZeroBases(Compound(start, rs))
    ensures Returns(Compound(start, rs)) == rs
  {
    var p := Compound(start, rs);
    CompoundNonZero(start, rs);
    var r := Returns(p);
    forall i | 0 <= i < |rs|
      ensures r[i] == rs[i]
    {
      assert r[i] == Ratio(p[i], p[i + 1]);
      RatioGrow(p[i], rs[i]);
    }
  }

  function Sum(xs: seq<real>): real {
    if xs == [] then 0.0 else xs[0] + Sum(xs[1..])
  }

  /** `np.mean`. */
  function Mean(xs: seq<real>): (m: real)
    requires xs != []
    ensures m * (|xs| as real) == Sum(xs)
  {
    Sum(xs) / (|xs| as real)
  }

  /** `(xs - m) ** 2`, elementwise. */
  function SquaredDeviations(xs: seq<real>, m: real): (r: seq<real>)
    ensures |r| == |xs|
    ensures forall i :: 0 <= i < |r| ==> r[i] >= 0.0 && (r[i] == 0.0 <==> xs[i] == m)
  {
    var r := seq(|xs|, i requires 0 <= i < |xs| => (xs[i] - m) * (xs[i] - m));
    forall i | 0 <= i < |r|
      ensures r[i] >= 0.0 && (r[i] == 0.0 <==> xs[i] == m)
    {
      SquareNonNegative(xs[i] - m);
      if r[i] == 0.0 {
        SquareZero(xs[i] - m);
      }
    }
    r
  }

  lemma SquareNonNegative(y: real)
    ensures y * y >= 0.0
  {
    if y < 0.0 {
      assert y * y == (-y) * (-y);
    }
  }

  lemma SquareOverRoot(y: real)
    requires y != 0.0
    ensures (y * y) / y == y
  {
  }

  lemma SquareZero(y: real)
    requires y * y == 0.0
    ensures y == 0.0
  {
    if y != 0.0 {
      SquareOverRoot(y);
      assert false;
    }
  }

  /** `np.mean((xs - np.mean(xs)) ** 2)`: the population variance. */
  function Variance(xs: seq<real>): (v: real)
    requires xs != []
    ensures v >= 0.0
  {
    var d := SquaredDeviations(xs, Mean(xs));
    SumNonNegative(d);
    Mean(d)
  }

  lemma {:induction false} SumNonNegative(xs: seq<real>)
    requires forall i :: 0 <= i < |xs| ==> xs[i] >= 0.0
    ensures Sum(xs) >= 0.0
  {
    if xs != [] {
      SumNonNegative(xs[1..]);
    }
  }

  lemma {:induction false} SumZeroOnlyIfAllZero(xs: seq<real>)
    requires forall i :: 0 <= i < |xs| ==> xs[i] >= 0.0
    requires Sum(xs) == 0.0
    ensures forall i :: 0 <= i < |xs| ==> xs[i] == 0.0
  {
    if xs != [] {
      SumNonNegative(xs[1..]);
      SumZeroOnlyIfAllZero(xs[1..]);
      assert forall i :: 0 < i < |xs| ==> xs[i] == xs[1..][i - 1];
    }
  }

  lemma {:induction false} SumOfConstant(xs: seq<real>, c: real)
    requires forall i :: 0 <= i < |xs| ==> xs[i] == c
    ensures Sum(xs) == (|xs| as real) * c
  {
    if xs != [] {
      SumOfConstant(xs[1..], c);
    }
  }

  predicate AllEqual(xs: seq<real>) {
    forall i, j :: 0 <= i < |xs| && 0 <= j < |xs| ==> xs[i] == xs[j]
  }

  /** The variance vanishes exactly when every return is the same. */
  lemma VarianceZeroIffConstant(xs: seq<real>)
    requires xs != []
    ensures Variance(xs) == 0.0 <==> AllEqual(xs)
  {
    var m := Mean(xs);
    var d := SquaredDeviations(xs, m);
    if Variance(xs) == 0.0 {
      assert Sum(d) == 0.0;
      SumZeroOnlyIfAllZero(d);
    }
    if AllEqual(xs) {
      SumOfConstant(xs, xs[0]);
      assert m == xs[0];
      SumOfConstant(d, 0.0);
    }
  }

  /** Enough surviving prices for a variance, and none of them but the last is zero. */
  predicate Usable(ps: PriceSeries) {
    |DropMissing(ps)| >= 2 && NonZeroBases(DropMissing(ps))
  }

  /** The squared volatility of one column: the variance of the returns of its
      present prices. */
  function VarianceOf(ps: PriceSeries): (v: real)
    requires Usable(ps)
    ensures v >= 0.0
  {
    Variance(Returns(DropMissing(ps)))
  }

  /** Each return of a column compares two consecutive surviving dates, across
      any missing dates between them. */
  lemma ReturnsSpanSurvivors(ps: PriceSeries, j: nat)
    requires Usable(ps) && j < |Returns(DropMissing(ps))|
    ensures PresentDates(ps)[j] < PresentDates(ps)[j + 1]
    ensures forall i :: PresentDates(ps)[j] < i < PresentDates(ps)[j + 1] ==> ps[i].None?
    ensures ps[PresentDates(ps)[j + 1]].value
            == Grow(ps[PresentDates(ps)[j]].value, Returns(DropMissing(ps))[j])
  {
    var dates := PresentDates(ps);
    var p := DropMissing(ps);
    assert j + 1 < |p| == |dates|;
    forall i | dates[j] < i < dates[j + 1]
      ensures ps[i].None?
    {
      NothingBetweenNeighbours(dates, j, i);
    }
    assert ps[dates[j]] == Some(p[j]) && ps[dates[j + 1]] == Some(p[j + 1]);
    var r := Returns(p);
    assert p[j + 1] == Grow(p[j], r[j]);
  }

  /** A column with one missing date loses exactly one surviving price and,
      when the survivors have returns, one return. */
  lemma OneGapOneReturnLess(ps: PriceSeries)
    requires |MissingDates(ps)| == 1
    ensures |DropMissing(ps)| == |ps| - 1
    ensures |ps| >= 2 && NonZeroBases(DropMissing(ps)) ==> |Returns(DropMissing(ps))| == |ps| - 2
  {
    MissingPresentPartition(ps);
  }

  /** `volatilities`, built in table order, with variances in place of their
      square roots. */
  function Variances(table: PriceTable): (r: seq<Ranking.Entry>)
    requires forall k :: 0 <= k < |table| ==> Usable(table[k].prices)
    ensures |r| == |table|
    ensures forall k :: 0 <= k < |r| ==> r[k].sym == table[k].sym && r[k].value == VarianceOf(table[k].prices)
  {
    seq(|table|, k requires 0 <= k < |table| => Ranking.Entry(table[k].sym, VarianceOf(table[k].prices)))
  }

  /** `sorted(volatilities.items(), key=vol)[:5]`, ranked. The square root is
      strictly increasing, so ranking variances orders and ties the columns
      exactly as ranking volatilities does. */
  function LowestVolatility(table: PriceTable): (r: seq<Ranking.Ranked>)
    requires forall k :: 0 <= k < |table| ==> Usable(table[k].prices)
    ensures |r| == Ranking.Min(Ranking.TopCount, |table|)
    ensures forall i :: 0 <= i < |r| ==> r[i].rank == i + 1 && r[i].entry.value >= 0.0
    ensures Ranking.Sorted(Ranking.Ascending, Ranking.Entries(r))
    ensures Ranking.Entries(r) == Ranking.Sort(Ranking.Ascending, Variances(table))[..|r|]
  {
    var vs := Variances(table);
    var r := Ranking.Top(Ranking.Ascending, vs);
    Ranking.TopIsSortedSelection(Ranking.Ascending, vs);
    forall i | 0 <= i < |r|
      ensures r[i].entry.value >= 0.0
    {
      Ranking.TopDrawsFromTable(Ranking.Ascending, vs, i);
    }
    r
  }

  /** The ranking shows the calmest columns: every column left out has a
      variance at least that of every column shown. */
  lemma LowestVolatilityIsLowest(table: PriceTable, k: nat, i: nat)
    requires forall k :: 0 <= k < |table| ==> Usable(table[k].prices)
    requires k < |table| && i < |LowestVolatility(table)|
    requires Variances(table)[k] !in multiset(Ranking.Entries(LowestVolatility(table)))
    ensures LowestVolatility(table)[i].entry.value <= VarianceOf(table[k].prices)
  {
    var vs := Variances(table);
    var r := LowestVolatility(table);
    assert r == Ranking.Top(Ranking.Ascending, vs);
    Ranking.TopLeavesOutOnlyLater(Ranking.Ascending, vs, r);
    assert vs[k] in multiset(vs);
    assert vs[k] in multiset(vs) - multiset(Ranking.Entries(r));
  }
}
