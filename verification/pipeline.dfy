/** The script's price table with the one blanked-out TSLA price, and the
    data-gap reports it prints. */
module Pipeline {
  import opened Options
  import opened Market
  import opened Series
  import opened GapScan
  import Volatility

  /** `price_df` as built: one column per company, in `companies` order, each
      with one cell per business day. */
  predicate WellFormed(table: PriceTable) {
    |table| == |Companies|
    && (forall k :: 0 <= k < |table| ==> table[k].sym == Companies[k])
    && (forall k :: 0 <= k < |table| ==> |table[k].prices| == TradingDays)
  }

  /** Every cell holds a price: the generated table has no NaN. */
  predicate Complete(table: PriceTable) {
    forall k, i :: 0 <= k < |table| && 0 <= i < |table[k].prices| ==> table[k].prices[i].Some?
  }

  /** `price_df.loc[date, sym] = np.nan` for a date inside the table. */
  function InjectGap(table: PriceTable, sym: Symbol, date: nat): (r: PriceTable)
    requires forall k :: 0 <= k < |table| && table[k].sym == sym ==> date < |table[k].prices|
    ensures |r| == |table|
    ensures forall k :: 0 <= k < |r| ==> r[k].sym == table[k].sym
                                         && |r[k].prices| == |table[k].prices|
    ensures forall k, i :: 0 <= k < |r| && 0 <= i < |r[k].prices| ==>
              r[k].prices[i] == if r[k].sym == sym && i == date then None else table[k].prices[i]
  {
    seq(|table|, k requires 0 <= k < |table| =>
      if table[k].sym == sym then Column(sym, table[k].prices[date := None]) else table[k])
  }

  /** Blanking a date adds it to the missing dates and changes nothing else. */
  lemma BlankMissing(ps: PriceSeries, date: nat)
    requires date < |ps|
    ensures forall i: int :: i in MissingDates(ps[date := None]) <==> i in MissingDates(ps) || i == date
  {
  }

  /** Blanking a date takes it off the invalid dates and changes nothing else:
      a blank is never invalid. */
  lemma BlankInvalid(ps: PriceSeries, date: nat)
    requires date < |ps|
    ensures forall i: int :: i in InvalidDates(ps[date := None]) <==> i in InvalidDates(ps) && i != date
  {
  }

  /** When one column alone has something to report, the report is that one line. */
  lemma {:induction false} ReportSingle(table: PriceTable, scan: PriceSeries -> seq<nat>, k: nat)
    requires k < |table| && scan(table[k].prices) != []
    requires forall k' :: 0 <= k' < |table| && k' != k ==> scan(table[k'].prices) == []
    ensures Report(table, scan) == [ReportLine(table[k].sym, scan(table[k].prices))]
    decreases |table|
  {
    var rest := table[1..];
    if k == 0 {
      ReportEmpty(rest, scan);
    } else {
      assert scan(table[0].prices) == [];
      ReportSingle(rest, scan, k - 1);
    }
  }

  /** When no column has anything to report, nothing is printed. */
  lemma {:induction false} ReportEmpty(table: PriceTable, scan: PriceSeries -> seq<nat>)
    requires forall k :: 0 <= k < |table| ==> scan(table[k].prices) == []
    ensures Report(table, scan) == []
    decreases |table|
  {
    if table != [] {
      assert scan(table[0].prices) == [];
      ReportEmpty(table[1..], scan);
    }
  }

  /** Index of TSLA among the columns. */
  const TslaColumn: nat := 5

  /** After the gap is injected into the complete generated table, the missing
      report is the single line "TSLA has missing prices on: 2025-04-15". */
  lemma GapReport(table: PriceTable)
    requires WellFormed(table) && Complete(table)
    ensures MissingReport(InjectGap(table, TSLA, GapDate)) == [ReportLine(TSLA, [GapDate])]
  {
    var r := InjectGap(table, TSLA, GapDate);
    forall k | 0 <= k < |r| && k != TslaColumn
      ensures MissingDates(r[k].prices) == []
    {
      NoneMissing(r[k].prices);
    }
    assert r[TslaColumn].sym == TSLA;
    BlankMissing(table[TslaColumn].prices, GapDate);
    NoneMissing(table[TslaColumn].prices);
    IncreasingDeterminedByMembers(MissingDates(r[TslaColumn].prices), [GapDate]);
    ReportSingle(r, MissingDates, TslaColumn);
  }

  lemma NoneMissing(ps: PriceSeries)
    requires forall i :: 0 <= i < |ps| ==> ps[i].Some?
    ensures MissingDates(ps) == []
  {
    if MissingDates(ps) != [] {
      HeadIsMember(MissingDates(ps));
      assert false;
    }
  }

  /** After the gap, TSLA keeps 17 prices for its returns and every other
      security keeps all 18. */
  lemma GapSurvivors(table: PriceTable, k: nat)
    requires WellFormed(table) && Complete(table) && k < |table|
    ensures |PresentDates(InjectGap(table, TSLA, GapDate)[k].prices)|
            == if table[k].sym == TSLA then TradingDays - 1 else TradingDays
  {
    var r := InjectGap(table, TSLA, GapDate);
    var ps := r[k].prices;
    MissingPresentPartition(ps);
    if table[k].sym == TSLA {
      BlankMissing(table[k].prices, GapDate);
      NoneMissing(table[k].prices);
      IncreasingDeterminedByMembers(MissingDates(ps), [GapDate]);
    } else {
      NoneMissing(ps);
    }
  }

  /** After the gap, TSLA's surviving dates are every date but the gap, so its
      tenth and eleventh survivors are 2025-04-14 and 2025-04-16. */
  lemma GapReturnSpansGap(table: PriceTable)
    requires WellFormed(table) && Complete(table)
    ensures PresentDates(InjectGap(table, TSLA, GapDate)[TslaColumn].prices)
            == seq(TradingDays - 1, j requires 0 <= j < TradingDays - 1 => if j < GapDate then j else j + 1)
    ensures PresentDates(InjectGap(table, TSLA, GapDate)[TslaColumn].prices)[GapDate - 1] == GapDate - 1
    ensures PresentDates(InjectGap(table, TSLA, GapDate)[TslaColumn].prices)[GapDate] == GapDate + 1
  {
    var ps := InjectGap(table, TSLA, GapDate)[TslaColumn].prices;
    var expected := seq(TradingDays - 1, j requires 0 <= j < TradingDays - 1 => if j < GapDate then j else j + 1);
    forall i: int
      ensures i in expected <==> i in PresentDates(ps)
    {
      if 0 <= i < TradingDays && i != GapDate {
        assert expected[if i < GapDate then i else i - 1] == i;
      }
    }
    IncreasingDeterminedByMembers(expected, PresentDates(ps));
  }

  /** TSLA's tenth return, when its survivors have returns, grows the price of
      2025-04-14 into that of 2025-04-16: it spans the gap. */
  lemma GapReturnAcrossGap(table: PriceTable)
    requires WellFormed(table) && Complete(table)
    requires Volatility.Usable(InjectGap(table, TSLA, GapDate)[TslaColumn].prices)
    ensures |Volatility.Returns(Volatility.DropMissing(InjectGap(table, TSLA, GapDate)[TslaColumn].prices))| == TradingDays - 2
    ensures InjectGap(table, TSLA, GapDate)[TslaColumn].prices[GapDate + 1].value
            == Volatility.Grow(InjectGap(table, TSLA, GapDate)[TslaColumn].prices[GapDate - 1].value,
                               Volatility.Returns(Volatility.DropMissing(InjectGap(table, TSLA, GapDate)[TslaColumn].prices))[GapDate - 1])
  {
    var ps := InjectGap(table, TSLA, GapDate)[TslaColumn].prices;
    GapReturnSpansGap(table);
    GapSurvivors(table, TslaColumn);
    Volatility.ReturnsSpanSurvivors(ps, GapDate - 1);
  }
}
