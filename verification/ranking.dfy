/** Top-N ranking of a symbol-to-value table: `sorted(table.items(), key=value,
    reverse=...)`, then the first five items, numbered from 1 by `enumerate(..., 1)`.
    Python's `sorted` is stable, also with `reverse=True`: entries with equal
    values keep the table's insertion order. */
module Ranking {
  import opened Market

  /** The sort direction; `reverse=True` is `Descending`. */
  datatype Direction = Ascending | Descending

  /** One `(symbol, value)` item of a table. */
  datatype Entry = Entry(sym: Symbol, value: real)

  /** One printed line of a ranking, `{rank}. {symbol}: {value}`. */
  datatype Ranked = Ranked(rank: nat, entry: Entry)

  /** How many entries a ranking prints (`[:5]`). */
  const TopCount: nat := 5

  function Min(a: nat, b: nat): nat {
    if a <= b then a else b
  }

  /** A value `a` may be listed before a value `b` in direction `d`. */
  predicate Precedes(d: Direction, a: real, b: real) {
    match d
    case Ascending => a <= b
    case Descending => a >= b
  }

  predicate Sorted(d: Direction, s: seq<Entry>) {
    forall i, j :: 0 <= i < j < |s| ==> Precedes(d, s[i].value, s[j].value)
  }

  /** The entries of `s` whose value is `v`, in their order in `s`. */
  function Ties(s: seq<Entry>, v: real): seq<Entry> {
    if s == [] then []
    else (if s[0].value == v then [s[0]] else []) + Ties(s[1..], v)
  }

  /** `r` lists every group of equal-valued entries of `s` in the order `s` does. */
  ghost predicate KeepsTieOrder(s: seq<Entry>, r: seq<Entry>) {
    forall v :: Ties(r, v) == Ties(s, v)
  }

  lemma {:induction false} TiesMembers(s: seq<Entry>, v: real)
    ensures forall e :: e in Ties(s, v) <==> e in s && e.value == v
  {
    if s != [] {
      TiesMembers(s[1..], v);
      assert s == [s[0]] + s[1..];
    }
  }

  lemma {:induction false} TiesAppend(a: seq<Entry>, b: seq<Entry>, v: real)
    ensures Ties(a + b, v) == Ties(a, v) + Ties(b, v)
  {
    if a != [] {
      assert (a + b)[1..] == a[1..] + b;
      TiesAppend(a[1..], b, v);
    } else {
      assert a + b == b;
    }
  }

  /** `v` may be listed before every entry of `s`. */
  predicate PrecedesAll(d: Direction, v: real, s: seq<Entry>) {
    forall i :: 0 <= i < |s| ==> Precedes(d, v, s[i].value)
  }

  lemma PrecedesAllSameMembers(d: Direction, v: real, a: seq<Entry>, b: seq<Entry>)
    requires multiset(a) == multiset(b) && PrecedesAll(d, v, b)
    ensures PrecedesAll(d, v, a)
  {
    forall i | 0 <= i < |a|
      ensures Precedes(d, v, a[i].value)
    {
      assert a[i] in multiset(b);
      var k :| 0 <= k < |b| && b[k] == a[i];
    }
  }

  lemma SortedCons(d: Direction, x: Entry, s: seq<Entry>)
    requires Sorted(d, s) && PrecedesAll(d, x.value, s)
    ensures Sorted(d, [x] + s)
  {
    var r := [x] + s;
    forall i, j | 0 <= i < j < |r|
      ensures Precedes(d, r[i].value, r[j].value)
    {
      assert r[j] == s[j - 1];
      if i > 0 {
        assert r[i] == s[i - 1];
      }
    }
  }

  /** Places `e` into the sorted `t` in front of every entry it may precede,
      hence ahead of the entries it ties with. */
  function Insert(d: Direction, e: Entry, t: seq<Entry>): (r: seq<Entry>)
    requires Sorted(d, t)
    ensures |r| == |t| + 1
    ensures Sorted(d, r)
    ensures multiset(r) == multiset{e} + multiset(t)
  {
    if t == [] || Precedes(d, e.value, t[0].value) then
      assert PrecedesAll(d, e.value, t) by {
        if t != [] {
          assert forall i :: 0 < i < |t| ==> Precedes(d, t[0].value, t[i].value);
        }
      }
      SortedCons(d, e, t);
      [e] + t
    else
      var r' := Insert(d, e, t[1..]);
      assert t == [t[0]] + t[1..];
      assert PrecedesAll(d, t[0].value, [e] + t[1..]);
      PrecedesAllSameMembers(d, t[0].value, r', [e] + t[1..]);
      SortedCons(d, t[0], r');
      [t[0]] + r'
  }

  /** Inserting `e` puts it ahead of the entries of `t` that tie with it. */
  lemma {:induction false} InsertTies(d: Direction, e: Entry, t: seq<Entry>, v: real)
    requires Sorted(d, t)
    ensures Ties(Insert(d, e, t), v) == Ties([e], v) + Ties(t, v)
  {
    if t == [] || Precedes(d, e.value, t[0].value) {
      TiesAppend([e], t, v);
    } else {
      assert t[0].value != e.value;
      var r' := Insert(d, e, t[1..]);
      assert Insert(d, e, t) == [t[0]] + r';
      InsertTies(d, e, t[1..], v);
      assert t == [t[0]] + t[1..];
      TiesAppend([t[0]], t[1..], v);
      TiesAppend([t[0]], r', v);
      TiesSwap(t[0], e, v);
    }
  }

  /** Two entries with different values never share a group. */
  lemma TiesSwap(x: Entry, y: Entry, v: real)
    requires x.value != y.value
    ensures Ties([x], v) + Ties([y], v) == Ties([y], v) + Ties([x], v)
  {
    assert [x][1..] == [] && [y][1..] == [];
  }

  /** `sorted(s, key=value, reverse=(d == Descending))`, as insertion sort. */
  function Sort(d: Direction, s: seq<Entry>): (r: seq<Entry>)
    ensures |r| == |s|
    ensures Sorted(d, r)
    ensures multiset(r) == multiset(s)
    ensures KeepsTieOrder(s, r)
  {
    if s == [] then []
    else
      var t := Sort(d, s[1..]);
      assert s == [s[0]] + s[1..];
      assert KeepsTieOrder(s, Insert(d, s[0], t)) by {
        forall v
          ensures Ties(Insert(d, s[0], t), v) == Ties(s, v)
        {
          InsertTies(d, s[0], t, v);
          TiesAppend([s[0]], s[1..], v);
        }
      }
      Insert(d, s[0], t)
  }

  /** Sortedness and tie order pin a sequence down: two sorted sequences with
      the same groups of ties are equal. */
  lemma {:induction false} SortedTiesUnique(d: Direction, a: seq<Entry>, b: seq<Entry>)
    requires Sorted(d, a) && Sorted(d, b)
    requires forall v :: Ties(a, v) == Ties(b, v)
    ensures a == b
    decreases |a|
  {
    if a != [] && b != [] {
      var x, y := a[0], b[0];
      assert a == [x] + a[1..] && b == [y] + b[1..];
      TiesAppend([x], a[1..], x.value);
      TiesAppend([y], b[1..], y.value);
      TiesMembers(a, y.value);
      TiesMembers(b, x.value);
      assert x in Ties(b, x.value);
      assert y in Ties(a, y.value);
      assert x.value == y.value;
      assert x == y by {
        TiesAppend([y], b[1..], x.value);
        assert Ties(a, x.value)[0] == x && Ties(b, x.value)[0] == y;
      }
      forall v
        ensures Ties(a[1..], v) == Ties(b[1..], v)
      {
        TiesAppend([x], a[1..], v);
        TiesAppend([y], b[1..], v);
        assert Ties(a, v) == Ties(b, v);
        assert Ties([x], v) + Ties(a[1..], v) == Ties([x], v) + Ties(b[1..], v);
        assert Ties(a[1..], v) == (Ties([x], v) + Ties(a[1..], v))[|Ties([x], v)|..];
      }
      SortedTiesUnique(d, a[1..], b[1..]);
    } else if a != [] {
      TiesOfNonEmpty(a);
      assert false;
    } else if b != [] {
      TiesMembers(b, b[0].value);
      assert false;
    }
  }

  lemma TiesOfNonEmpty(s: seq<Entry>)
    requires s != []
    ensures Ties(s, s[0].value) != []
  {
  }

  /** `Sort` is exactly the stable sort: a sequence is sorted in direction `d`
      and keeps the tie order of `s` if and only if it is `Sort(d, s)`. */
  lemma SortIsTheStableSort(d: Direction, s: seq<Entry>, r: seq<Entry>)
    ensures Sorted(d, r) && KeepsTieOrder(s, r) <==> r == Sort(d, s)
  {
    if Sorted(d, r) && KeepsTieOrder(s, r) {
      SortedTiesUnique(d, r, Sort(d, s));
    }
  }

  /** Two entries of `s` with equal values, the earlier at `i`, are in the
      same relative order in `Ties(s, v)`. */
  lemma {:induction false} TiesKeepPositions(s: seq<Entry>, i: nat, j: nat)
    requires i < j < |s| && s[i].value == s[j].value
    ensures exists a, b :: 0 <= a < b < |Ties(s, s[i].value)|
                         && Ties(s, s[i].value)[a] == s[i] && Ties(s, s[i].value)[b] == s[j]
  {
    var v := s[i].value;
    var tail := Ties(s[1..], v);
    if i == 0 {
      assert Ties(s, v) == [s[0]] + tail;
      TiesMembers(s[1..], v);
      assert s[j] == s[1..][j - 1];
      assert s[j] in tail;
      var b' :| 0 <= b' < |tail| && tail[b'] == s[j];
      assert Ties(s, v)[0] == s[i] && Ties(s, v)[b' + 1] == s[j];
    } else {
      var head := if s[0].value == v then [s[0]] else [];
      assert Ties(s, v) == head + tail;
      assert s[i] == s[1..][i - 1] && s[j] == s[1..][j - 1];
      TiesKeepPositions(s[1..], i - 1, j - 1);
      var a', b' :| 0 <= a' < b' < |tail| && tail[a'] == s[i] && tail[b'] == s[j];
      assert Ties(s, v)[|head| + a'] == s[i] && Ties(s, v)[|head| + b'] == s[j];
    }
  }

  /** Two positions of `Ties(r, v)` come from positions of `r` in the same order. */
  lemma {:induction false} TiesComeInOrder(r: seq<Entry>, v: real, a: nat, b: nat)
    requires a < b < |Ties(r, v)|
    ensures exists p, q :: 0 <= p < q < |r| && r[p] == Ties(r, v)[a] && r[q] == Ties(r, v)[b]
  {
    var tail := Ties(r[1..], v);
    if r[0].value == v {
      assert Ties(r, v) == [r[0]] + tail;
      if a == 0 {
        TiesMembers(r[1..], v);
        assert Ties(r, v)[b] == tail[b - 1];
        assert tail[b - 1] in r[1..];
        var q' :| 0 <= q' < |r[1..]| && r[1..][q'] == tail[b - 1];
        assert r[0] == Ties(r, v)[a] && r[q' + 1] == Ties(r, v)[b];
      } else {
        TiesComeInOrder(r[1..], v, a - 1, b - 1);
        var p', q' :| 0 <= p' < q' < |r[1..]| && r[1..][p'] == tail[a - 1] && r[1..][q'] == tail[b - 1];
        assert r[p' + 1] == Ties(r, v)[a] && r[q' + 1] == Ties(r, v)[b];
      }
    } else {
      assert Ties(r, v) == tail;
      TiesComeInOrder(r[1..], v, a, b);
      var p', q' :| 0 <= p' < q' < |r[1..]| && r[1..][p'] == tail[a] && r[1..][q'] == tail[b];
      assert r[p' + 1] == Ties(r, v)[a] && r[q' + 1] == Ties(r, v)[b];
    }
  }

  /** Tie stability, position by position: if entries `i < j` of the table have
      equal values, `s[i]` is listed before `s[j]` in the sorted table, in
      either direction. */
  lemma TiedEntriesKeepOrder(d: Direction, s: seq<Entry>, i: nat, j: nat)
    requires i < j < |s| && s[i].value == s[j].value
    ensures exists p, q :: 0 <= p < q < |Sort(d, s)| && Sort(d, s)[p] == s[i] && Sort(d, s)[q] == s[j]
  {
    var r := Sort(d, s);
    var v := s[i].value;
    TiesKeepPositions(s, i, j);
    assert Ties(r, v) == Ties(s, v);
    var a, b :| 0 <= a < b < |Ties(r, v)| && Ties(r, v)[a] == s[i] && Ties(r, v)[b] == s[j];
    TiesComeInOrder(r, v, a, b);
  }

  /** The entries of a ranking, without their rank numbers. */
  function Entries(r: seq<Ranked>): seq<Entry> {
    seq(|r|, i requires 0 <= i < |r| => r[i].entry)
  }

  /** `enumerate(s, start)`. */
  function Enumerate(s: seq<Entry>, start: nat): (r: seq<Ranked>)
    ensures |r| == |s|
    ensures forall i :: 0 <= i < |r| ==> r[i].rank == start + i && r[i].entry == s[i]
  {
    if s == [] then [] else [Ranked(start, s[0])] + Enumerate(s[1..], start + 1)
  }

  /** `enumerate(sorted(table.items(), ...)[:5], 1)`: the printed ranking, the
      first five entries of the stable sort numbered 1, 2, ... */
  function Top(d: Direction, table: seq<Entry>): (r: seq<Ranked>)
    ensures |r| == Min(TopCount, |table|)
    ensures forall i :: 0 <= i < |r| ==> r[i].rank == i + 1
    ensures Entries(r) == Sort(d, table)[..|r|]
  {
    var sorted := Sort(d, table);
    var k := Min(TopCount, |table|);
    var r := Enumerate(sorted[..k], 1);
    assert Entries(r) == sorted[..k];
    r
  }

  /** In a sorted sequence, whatever lies beyond position `k` may follow
      everything before it. */
  lemma SortedSplit(d: Direction, s: seq<Entry>, k: nat)
    requires Sorted(d, s) && k <= |s|
    ensures forall e, i :: e in multiset(s[k..]) && 0 <= i < k ==> Precedes(d, s[i].value, e.value)
  {
    forall e, i | e in multiset(s[k..]) && 0 <= i < k
      ensures Precedes(d, s[i].value, e.value)
    {
      assert e in s[k..];
      var m :| 0 <= m < |s[k..]| && s[k..][m] == e;
      assert s[k + m] == e;
    }
  }

  /** A ranking lists entries of the table, in order. */
  lemma TopIsSortedSelection(d: Direction, table: seq<Entry>)
    ensures Sorted(d, Entries(Top(d, table)))
    ensures multiset(Entries(Top(d, table))) <= multiset(table)
  {
    var sorted := Sort(d, table);
    var k := |Top(d, table)|;
    SplitMultiset(sorted, k);
    SortedPrefix(d, sorted, k);
  }

  lemma SortedPrefix(d: Direction, s: seq<Entry>, k: nat)
    requires Sorted(d, s) && k <= |s|
    ensures Sorted(d, s[..k])
  {
  }

  /** Every ranked entry is an entry of the table. */
  lemma TopDrawsFromTable(d: Direction, table: seq<Entry>, i: nat)
    requires i < |Top(d, table)|
    ensures exists k :: 0 <= k < |table| && table[k] == Top(d, table)[i].entry
  {
    var sorted := Sort(d, table);
    assert Top(d, table)[i].entry == Entries(Top(d, table))[i] == sorted[i];
    assert sorted[i] in multiset(table);
  }

  /** What a ranking leaves out is the tail of the sort past the printed lines. */
  lemma LeftOutIsTail(d: Direction, table: seq<Entry>)
    ensures multiset(table) - multiset(Entries(Top(d, table)))
            == multiset(Sort(d, table)[|Top(d, table)|..])
  {
    var sorted := Sort(d, table);
    var k := |Top(d, table)|;
    SplitMultiset(sorted, k);
  }

  /** No entry a ranking leaves out should have been listed ahead of one it shows. */
  lemma TopLeavesOutOnlyLater(d: Direction, table: seq<Entry>, r: seq<Ranked>)
    requires r == Top(d, table)
    ensures forall e, i :: e in multiset(table) - multiset(Entries(r)) && 0 <= i < |r|
                           ==> Precedes(d, r[i].entry.value, e.value)
  {
    var sorted := Sort(d, table);
    LeftOutIsTail(d, table);
    SortedSplit(d, sorted, |r|);
    assert forall i :: 0 <= i < |r| ==> r[i].entry == sorted[i] by {
      assert Entries(r) == sorted[..|r|];
    }
  }

  lemma SplitMultiset(s: seq<Entry>, k: nat)
    requires k <= |s|
    ensures multiset(s) == multiset(s[..k]) + multiset(s[k..])
  {
    assert s == s[..k] + s[k..];
  }

  /** A ranking leaves out exactly `|table| - 5` entries when the table has more
      than five, and none otherwise; with the script's six securities, one. */
  lemma TopLeavesOut(d: Direction, table: seq<Entry>)
    ensures |multiset(table) - multiset(Entries(Top(d, table)))| == |table| - Min(TopCount, |table|)
  {
    LeftOutIsTail(d, table);
  }
}
