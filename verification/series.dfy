/** Price series: one column of the price table, indexed by business day. */
module Series {
  import opened Options
  import opened Market

  /** A closing price, or `None` where the table holds NaN. */
  type Price = Option<real>

  /** The closing prices of one security, one cell per business day. */
  type PriceSeries = seq<Price>

  /** One column of the price table. */
  datatype Column = Column(sym: Symbol, prices: PriceSeries)

  /** A price table: its columns, in the order of the dictionary it was built from. */
  type PriceTable = seq<Column>

  predicate StrictlyIncreasing(xs: seq<nat>) {
    forall i, j :: 0 <= i < j < |xs| ==> xs[i] < xs[j]
  }

  /** The dates (indices) of `s` whose cell satisfies `p`, in date order:
      a boolean mask applied to the series' index. */
  function Where(s: PriceSeries, p: Price -> bool): (r: seq<nat>)
    ensures StrictlyIncreasing(r)
    ensures forall k :: 0 <= k < |r| ==> r[k] < |s|
    ensures forall i: int :: i in r <==> 0 <= i < |s| && p(s[i])
    decreases |s|
  {
    if s == [] then []
    else Where(s[..|s| - 1], p) + (if p(s[|s| - 1]) then [|s| - 1] else [])
  }

  predicate IsMissing(x: Price) { x.None? }

  predicate IsPresent(x: Price) { x.Some? }

  /** `price <= 0` as pandas evaluates it: NaN compares false. */
  predicate IsInvalid(x: Price) { x.Some? && x.value <= 0.0 }

  /** `series[series.isna()].index`. */
  function MissingDates(ps: PriceSeries): (r: seq<nat>)
    ensures StrictlyIncreasing(r)
    ensures forall i: int :: i in r <==> 0 <= i < |ps| && ps[i].None?
  {
    Where(ps, IsMissing)
  }

  /** `series[series <= 0].index`: present prices that are zero or negative. */
  function InvalidDates(ps: PriceSeries): (r: seq<nat>)
    ensures StrictlyIncreasing(r)
    ensures forall i: int :: i in r <==> 0 <= i < |ps| && ps[i].Some? && ps[i].value <= 0.0
  {
    Where(ps, IsInvalid)
  }

  /** The dates that survive `dropna()`. */
  function PresentDates(ps: PriceSeries): (r: seq<nat>)
    ensures StrictlyIncreasing(r)
    ensures forall k :: 0 <= k < |r| ==> r[k] < |ps|
    ensures forall i: int :: i in r <==> 0 <= i < |ps| && ps[i].Some?
  {
    Where(ps, IsPresent)
  }

  /** Every date is either missing or present, never both. */
  lemma {:induction false} MissingPresentPartition(ps: PriceSeries)
    ensures |MissingDates(ps)| + |PresentDates(ps)| == |ps|
    decreases |ps|
  {
    if ps != [] {
      MissingPresentPartition(ps[..|ps| - 1]);
    }
  }

  /** Nothing of a strictly increasing sequence lies strictly between two
      neighbouring elements. */
  lemma NothingBetweenNeighbours(s: seq<nat>, j: nat, i: int)
    requires StrictlyIncreasing(s) && j + 1 < |s| && s[j] < i < s[j + 1]
    ensures i !in s
  {
  }

  lemma HeadIsMember(s: seq<nat>)
    requires s != []
    ensures s[0] in s
  {
  }

  /** Two strictly increasing sequences with the same members start alike,
      and what follows their first elements has the same members again. */
  lemma SameMembersTail(a: seq<nat>, b: seq<nat>)
    requires StrictlyIncreasing(a) && StrictlyIncreasing(b) && a != [] && b != []
    requires forall i: int :: i in a <==> i in b
    ensures a[0] == b[0]
    ensures forall i: int :: i in a[1..] <==> i in b[1..]
  {
    assert a[0] in b && b[0] in a;
    forall i: int | i in a[1..]
      ensures i in b[1..]
    {
      var k :| 0 <= k < |a[1..]| && a[1..][k] == i;
      assert a[0] < a[k + 1] == i;
      assert i in b;
      var m :| 0 <= m < |b| && b[m] == i;
      assert m > 0 && b[1..][m - 1] == i;
    }
    forall i: int | i in b[1..]
      ensures i in a[1..]
    {
      var k :| 0 <= k < |b[1..]| && b[1..][k] == i;
      assert b[0] < b[k + 1] == i;
      assert i in a;
      var m :| 0 <= m < |a| && a[m] == i;
      assert m > 0 && a[1..][m - 1] == i;
    }
  }

  /** A strictly increasing sequence is fixed by its members. */
  lemma {:induction false} IncreasingDeterminedByMembers(a: seq<nat>, b: seq<nat>)
    requires StrictlyIncreasing(a) && StrictlyIncreasing(b)
    requires forall i: int :: i in a <==> i in b
    ensures a == b
    decreases |a|
  {
    if a != [] && b != [] {
      SameMembersTail(a, b);
      IncreasingDeterminedByMembers(a[1..], b[1..]);
      assert a == [a[0]] + a[1..] && b == [b[0]] + b[1..];
    } else if a != [] {
      HeadIsMember(a);
      assert false;
    } else if b != [] {
      HeadIsMember(b);
      assert false;
    }
  }
}
