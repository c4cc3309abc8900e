/** The script's three fixed per-security tables and the rankings it prints
    from them. */
module Orders {
  import opened Market
  import opened Ranking

  /** `order_counts`, in dictionary order; counts as reals. */
  const OrderCounts: seq<Entry> :=
    [Entry(META, 1200.0), Entry(AMZN, 1500.0), Entry(AAPL, 2000.0),
     Entry(NFLX, 800.0), Entry(GOOGL, 1300.0), Entry(TSLA, 1700.0)]

  /** `fill_ratios`, in dictionary order. */
  const FillRatios: seq<Entry> :=
    [Entry(META, 0.75), Entry(AMZN, 0.60), Entry(AAPL, 0.85),
     Entry(NFLX, 0.50), Entry(GOOGL, 0.70), Entry(TSLA, 0.65)]

  /** `execution_ratios`, in dictionary order: META and GOOGL tie at 0.98,
      AMZN and TSLA at 0.97. */
  const ExecutionRatios: seq<Entry> :=
    [Entry(META, 0.98), Entry(AMZN, 0.97), Entry(AAPL, 0.99),
     Entry(NFLX, 0.96), Entry(GOOGL, 0.98), Entry(TSLA, 0.97)]

  /** No entry of `s` has value `v`: the group of `v` is empty. */
  lemma NoTies(s: seq<Entry>, v: real)
    requires forall i :: 0 <= i < |s| ==> s[i].value != v
    ensures Ties(s, v) == []
  {
    TiesMembers(s, v);
    if Ties(s, v) != [] {
      assert Ties(s, v)[0] in Ties(s, v);
    }
  }

  /** `sorted(order_counts.items(), key=count, reverse=True)`. */
  const OrdersByCount: seq<Entry> :=
    [Entry(AAPL, 2000.0), Entry(TSLA, 1700.0), Entry(AMZN, 1500.0),
     Entry(GOOGL, 1300.0), Entry(META, 1200.0), Entry(NFLX, 800.0)]

  /** `sorted(fill_ratios.items(), key=ratio)`. */
  const FillsByRatio: seq<Entry> :=
    [Entry(NFLX, 0.50), Entry(AMZN, 0.60), Entry(TSLA, 0.65),
     Entry(GOOGL, 0.70), Entry(META, 0.75), Entry(AAPL, 0.85)]

  /** `sorted(execution_ratios.items(), key=ratio)`: ties in dictionary order. */
  const ExecutionsByRatio: seq<Entry> :=
    [Entry(NFLX, 0.96), Entry(AMZN, 0.97), Entry(TSLA, 0.97),
     Entry(META, 0.98), Entry(GOOGL, 0.98), Entry(AAPL, 0.99)]

  /** The execution table sorted with `reverse=True`: ties still in dictionary order. */
  const ExecutionsByRatioReversed: seq<Entry> :=
    [Entry(AAPL, 0.99), Entry(META, 0.98), Entry(GOOGL, 0.98),
     Entry(AMZN, 0.97), Entry(TSLA, 0.97), Entry(NFLX, 0.96)]

  /** The order counts are pairwise distinct, so every group of equal counts
      has at most one entry. */
  lemma OrdersKeepTies()
    ensures KeepsTieOrder(OrderCounts, OrdersByCount)
  {
    forall v ensures Ties(OrdersByCount, v) == Ties(OrderCounts, v) {
      if v !in {2000.0, 1700.0, 1500.0, 1300.0, 1200.0, 800.0} {
        NoTies(OrdersByCount, v);
        NoTies(OrderCounts, v);
      }
    }
  }

  /** The fill ratios are pairwise distinct too. */
  lemma FillsKeepTies()
    ensures KeepsTieOrder(FillRatios, FillsByRatio)
  {
    forall v ensures Ties(FillsByRatio, v) == Ties(FillRatios, v) {
      if v !in {0.50, 0.60, 0.65, 0.70, 0.75, 0.85} {
        NoTies(FillsByRatio, v);
        NoTies(FillRatios, v);
      }
    }
  }

  /** The groups of equal execution ratios, in dictionary order. */
  lemma ExecutionGroups(v: real)
    ensures Ties(ExecutionRatios, v)
            == if v == 0.96 then [Entry(NFLX, 0.96)]
               else if v == 0.97 then [Entry(AMZN, 0.97), Entry(TSLA, 0.97)]
               else if v == 0.98 then [Entry(META, 0.98), Entry(GOOGL, 0.98)]
               else if v == 0.99 then [Entry(AAPL, 0.99)]
               else []
  {
    if v !in {0.96, 0.97, 0.98, 0.99} {
      NoTies(ExecutionRatios, v);
    }
  }

  /** The ascending execution order keeps both tied pairs in dictionary order. */
  lemma ExecutionsKeepTies()
    ensures KeepsTieOrder(ExecutionRatios, ExecutionsByRatio)
  {
    forall v ensures Ties(ExecutionsByRatio, v) == Ties(ExecutionRatios, v) {
      ExecutionGroups(v);
      if v !in {0.96, 0.97, 0.98, 0.99} {
        NoTies(ExecutionsByRatio, v);
      }
    }
  }

  /** So does the descending one. */
  lemma ReversedExecutionsKeepTies()
    ensures KeepsTieOrder(ExecutionRatios, ExecutionsByRatioReversed)
  {
    forall v ensures Ties(ExecutionsByRatioReversed, v) == Ties(ExecutionRatios, v) {
      ExecutionGroups(v);
      if v !in {0.96, 0.97, 0.98, 0.99} {
        NoTies(ExecutionsByRatioReversed, v);
      }
    }
  }

  /** Each expected order is sorted in its direction. */
  lemma OrdersSorted()
    ensures Sorted(Descending, OrdersByCount)
  {
  }

  lemma FillsSorted()
    ensures Sorted(Ascending, FillsByRatio)
  {
  }

  lemma ExecutionsSorted()
    ensures Sorted(Ascending, ExecutionsByRatio)
  {
  }

  lemma ReversedExecutionsSorted()
    ensures Sorted(Descending, ExecutionsByRatioReversed)
  {
  }

  /** `sorted(order_counts.items(), key=count, reverse=True)` is `OrdersByCount`. */
  lemma OrdersSort()
    ensures Sort(Descending, OrderCounts) == OrdersByCount
  {
    OrdersKeepTies();
    OrdersSorted();
    SortIsTheStableSort(Descending, OrderCounts, OrdersByCount);
  }

  /** `sorted(fill_ratios.items(), key=ratio)` is `FillsByRatio`. */
  lemma FillsSort()
    ensures Sort(Ascending, FillRatios) == FillsByRatio
  {
    FillsKeepTies();
    FillsSorted();
    SortIsTheStableSort(Ascending, FillRatios, FillsByRatio);
  }

  /** The printed top five by order count: AAPL, TSLA, AMZN, GOOGL, META;
      NFLX, with the fewest orders, is not shown. */
  lemma TopOrders()
    ensures Entries(Top(Descending, OrderCounts)) == OrdersByCount[..5]
  {
    OrdersSort();
  }

  /** The printed five lowest fill ratios: NFLX first, AAPL, with the highest
      ratio, not shown. */
  lemma TopFills()
    ensures Entries(Top(Ascending, FillRatios)) == FillsByRatio[..5]
  {
    FillsSort();
  }

  /** The printed five best execution ratios: NFLX, AMZN, TSLA, META, GOOGL,
      tied pairs in dictionary order; AAPL, with the highest ratio, not shown. */
  lemma TopExecutions()
    ensures Entries(Top(Ascending, ExecutionRatios)) == ExecutionsByRatio[..5]
  {
    ExecutionsSort();
  }

  /** `sorted(execution_ratios.items(), key=ratio)` is `ExecutionsByRatio`. */
  lemma ExecutionsSort()
    ensures Sort(Ascending, ExecutionRatios) == ExecutionsByRatio
  {
    ExecutionsKeepTies();
    ExecutionsSorted();
    SortIsTheStableSort(Ascending, ExecutionRatios, ExecutionsByRatio);
  }

  /** `sorted(execution_ratios.items(), key=ratio, reverse=True)`. */
  lemma ReversedExecutionsSort()
    ensures Sort(Descending, ExecutionRatios) == ExecutionsByRatioReversed
  {
    ReversedExecutionsKeepTies();
    ReversedExecutionsSorted();
    SortIsTheStableSort(Descending, ExecutionRatios, ExecutionsByRatioReversed);
  }
}
