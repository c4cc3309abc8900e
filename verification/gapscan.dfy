/** The data-gap report: for each security, the dates whose price is missing,
    and separately the dates whose price is zero or negative. A security with
    nothing to report prints no line. */
module GapScan {
  import opened Options
  import opened Market
  import opened Series

  /** One printed line: `{symbol} has ... prices on: {dates}`. */
  datatype ReportLine = ReportLine(sym: Symbol, dates: seq<nat>)

  /** The lines printed by a loop over the columns that scans each with `scan`
      and prints only the non-empty results. */
  function Report(table: PriceTable, scan: PriceSeries -> seq<nat>): (r: seq<ReportLine>)
    ensures |r| <= |table|
    ensures forall line :: line in r <==>
      exists k :: 0 <= k < |table| && scan(table[k].prices) != []
                  && line == ReportLine(table[k].sym, scan(table[k].prices))
  {
    if table == [] then []
    else
      var dates := scan(table[0].prices);
      var rest := Report(table[1..], scan);
      assert forall k :: 1 <= k < |table| ==> table[k] == table[1..][k - 1];
      (if dates != [] then [ReportLine(table[0].sym, dates)] else []) + rest
  }

  /** The report of one column: a line if its scan finds something, none otherwise. */
  lemma ReportColumn(c: Column, scan: PriceSeries -> seq<nat>)
    ensures Report([c], scan) == if scan(c.prices) != [] then [ReportLine(c.sym, scan(c.prices))] else []
  {
    assert [c][1..] == [];
  }

  lemma ReportCons(table: PriceTable, scan: PriceSeries -> seq<nat>)
    requires table != []
    ensures Report(table, scan) == Report([table[0]], scan) + Report(table[1..], scan)
  {
    ReportColumn(table[0], scan);
  }

  /** The loop prints column by column: the report of two runs of columns is
      the report of the first followed by that of the second, so the lines
      come in column order, at most one per column. */
  lemma {:induction false} ReportAppend(a: PriceTable, b: PriceTable, scan: PriceSeries -> seq<nat>)
    ensures Report(a + b, scan) == Report(a, scan) + Report(b, scan)
    decreases |a|
  {
    if a == [] {
      assert a + b == b;
    } else {
      var ab := a + b;
      assert ab[0] == a[0] && ab[1..] == a[1..] + b;
      ReportCons(ab, scan);
      ReportCons(a, scan);
      ReportAppend(a[1..], b, scan);
    }
  }

  /** "Data Gaps (Missing Prices)": a line per column with a missing price,
      listing exactly its missing dates. */
  function MissingReport(table: PriceTable): (r: seq<ReportLine>)
    ensures forall line :: line in r ==>
              line.dates != [] &&
              exists k :: 0 <= k < |table| && table[k].sym == line.sym &&
                          forall i: int :: i in line.dates <==> 0 <= i < |table[k].prices| && table[k].prices[i].None?
    ensures forall k, i :: 0 <= k < |table| && 0 <= i < |table[k].prices| && table[k].prices[i].None? ==>
              ReportLine(table[k].sym, MissingDates(table[k].prices)) in r
  {
    var r := Report(table, MissingDates);
    forall k, i | 0 <= k < |table| && 0 <= i < |table[k].prices| && table[k].prices[i].None?
      ensures ReportLine(table[k].sym, MissingDates(table[k].prices)) in r
    {
      assert i in MissingDates(table[k].prices);
    }
    r
  }

  /** "Invalid Prices (Zero or Negative)": a line per column with a present
      price `<= 0`, listing exactly those dates. */
  function InvalidReport(table: PriceTable): (r: seq<ReportLine>)
    ensures forall line :: line in r ==>
              line.dates != [] &&
              exists k :: 0 <= k < |table| && table[k].sym == line.sym &&
                          forall i: int :: i in line.dates <==>
                            0 <= i < |table[k].prices| && table[k].prices[i].Some? && table[k].prices[i].value <= 0.0
    ensures forall k, i :: 0 <= k < |table| && 0 <= i < |table[k].prices|
                           && table[k].prices[i].Some? && table[k].prices[i].value <= 0.0 ==>
              ReportLine(table[k].sym, InvalidDates(table[k].prices)) in r
  {
    var r := Report(table, InvalidDates);
    forall k, i | 0 <= k < |table| && 0 <= i < |table[k].prices|
                  && table[k].prices[i].Some? && table[k].prices[i].value <= 0.0
      ensures ReportLine(table[k].sym, InvalidDates(table[k].prices)) in r
    {
      assert i in InvalidDates(table[k].prices);
    }
    r
  }

  /** The columns of a table come from a dictionary: no symbol twice. */
  predicate DistinctSymbols(table: PriceTable) {
    forall k, k' :: 0 <= k < k' < |table| ==> table[k].sym != table[k'].sym
  }

  /** A security's missing-price line lists exactly its missing dates, and a
      security with no missing date gets no line. */
  lemma MissingReportExact(table: PriceTable, k: nat)
    requires DistinctSymbols(table) && k < |table|
    ensures forall line :: line in MissingReport(table) && line.sym == table[k].sym
                           ==> line.dates == MissingDates(table[k].prices)
    ensures MissingDates(table[k].prices) != [] <==>
            ReportLine(table[k].sym, MissingDates(table[k].prices)) in MissingReport(table)
  {
    forall line | line in MissingReport(table) && line.sym == table[k].sym
      ensures line.dates == MissingDates(table[k].prices)
    {
      var k' :| 0 <= k' < |table| && MissingDates(table[k'].prices) != []
                && line == ReportLine(table[k'].sym, MissingDates(table[k'].prices));
      assert k' == k;
    }
  }

  /** A missing price is never reported as invalid: NaN is not `<= 0`, so no
      invalid-price line of a security names a date on which it has no price. */
  lemma MissingNeverInvalid(table: PriceTable, k: nat, i: nat)
    requires DistinctSymbols(table) && k < |table|
    requires i < |table[k].prices| && table[k].prices[i].None?
    ensures forall line :: line in InvalidReport(table) && line.sym == table[k].sym ==> i !in line.dates
  {
    forall line | line in InvalidReport(table) && line.sym == table[k].sym
      ensures i !in line.dates
    {
      var k' :| 0 <= k' < |table| && table[k'].sym == line.sym
                && forall j: int :: j in line.dates <==>
                     0 <= j < |table[k'].prices| && table[k'].prices[j].Some? && table[k'].prices[j].value <= 0.0;
      assert k' == k;
    }
  }

  /** One pass over a series collecting both lists, as the two report loops
      do for one security. */
  method ScanSeries(ps: PriceSeries) returns (missing: seq<nat>, invalid: seq<nat>)
    ensures missing == MissingDates(ps)
    ensures invalid == InvalidDates(ps)
  {
    missing, invalid := [], [];
    var i := 0;
    while i < |ps|
      invariant 0 <= i <= |ps|
      invariant missing == MissingDates(ps[..i])
      invariant invalid == InvalidDates(ps[..i])
    {
      assert ps[..i + 1][..i] == ps[..i];
      if ps[i].None? {
        missing := missing + [i];
      } else if ps[i].value <= 0.0 {
        invalid := invalid + [i];
      }
      i := i + 1;
    }
    assert ps[..i] == ps;
  }
}
