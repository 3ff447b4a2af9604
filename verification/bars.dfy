/** Bars of the visualisation (`BarData` in the component) and the
    order and label facts that every sort relies on.

    The component's array of bar records is modelled column-wise as a
    `Frame`: the identity of the bar at each position (`value`, `index`,
    `originalIndex`, which no sort ever alters) and the animation label at
    each position (`state`, which the sorts rewrite constantly). `Rows` and
    `Columns` convert between the two views. */
module Bars {

  /** The four animation labels a bar can carry; the renderer colours
      them blue, orange, gold and green. */
  datatype BarState = Default | Comparing | Current | Sorted

  /** One bar record. `index` and `originalIndex` are both the position at
      generation time; neither is updated when the bar moves. */
  datatype Bar = Bar(value: int, index: int, state: BarState, originalIndex: int)

  /** A bar with its label erased: what a sort may move but never alter. */
  datatype Item = Item(value: int, index: int, originalIndex: int)

  /** An array of bars, by column. */
  datatype Frame = Frame(items: seq<Item>, labels: seq<BarState>) {
    predicate Valid() {
      |items| == |labels|
    }
  }

  /** The array of records a frame stands for. */
  function Rows(f: Frame): (s: seq<Bar>)
    requires f.Valid()
    ensures |s| == |f.items|
  {
    seq(|f.items|, k requires 0 <= k < |f.items| =>
      Bar(f.items[k].value, f.items[k].index, f.labels[k], f.items[k].originalIndex))
  }

  /** The frame an array of records stands for. */
  function Columns(s: seq<Bar>): (f: Frame)
    ensures f.Valid() && |f.items| == |s|
  {
    Frame(seq(|s|, k requires 0 <= k < |s| => Item(s[k].value, s[k].index, s[k].originalIndex)),
          seq(|s|, k requires 0 <= k < |s| => s[k].state))
  }

  /** Every bar carries the label `st`. */
  predicate AllIn(labels: seq<BarState>, st: BarState) {
    forall k :: 0 <= k < |labels| ==> labels[k] == st
  }

  /** `array.map(item => ({...item, state: st}))`: the labels of an array of `n` bars all set to `st`. */
  function Fill(n: nat, st: BarState): (labels: seq<BarState>)
    ensures |labels| == n && AllIn(labels, st)
  {
    seq(n, _ => st)
  }

  /** Positions `lo` up to `hi` are non-decreasing by value. */
  predicate SortedRange(s: seq<Item>, lo: int, hi: int)
    requires 0 <= lo <= hi <= |s|
  {
    forall p, q :: lo <= p < q < hi ==> s[p].value <= s[q].value
  }

  predicate SortedByValue(s: seq<Item>) {
    SortedRange(s, 0, |s|)
  }

  /** No bar before `m` has a larger value than any bar from `m` on. */
  predicate Partitioned(s: seq<Item>, m: int) {
    forall p, q :: 0 <= p < m <= q < |s| ==> s[p].value <= s[q].value
  }

  /** Bars of equal value appear in increasing `rank`. A stable sort keeps
      this for every ranking its input satisfies. */
  predicate InOrderBy(s: seq<Item>, rank: Item -> int) {
    forall p, q :: 0 <= p < q < |s| && s[p].value == s[q].value ==> rank(s[p]) < rank(s[q])
  }

  /** The ranking by generation: a bar's `originalIndex`. */
  function Generation(x: Item): int {
    x.originalIndex
  }

  /** Bars of equal value appear in increasing `originalIndex` order. A
      freshly generated array has this shape. */
  predicate EqualsInOrder(s: seq<Item>) {
    InOrderBy(s, Generation)
  }

  /** Where bar `x` first stands in `s`; `|s|` when it is absent. */
  function IndexOf(s: seq<Item>, x: Item): (k: nat)
    ensures k <= |s| && (k < |s| ==> s[k] == x)
    ensures forall i :: 0 <= i < k ==> s[i] != x
  {
    if s == [] then 0
    else if s[0] == x then 0
    else 1 + IndexOf(s[1..], x)
  }

  /** The ranking of bars by where they stand in `s`. */
  function PositionIn(s: seq<Item>): Item -> int {
    x => IndexOf(s, x)
  }

  /** No two bars share an `originalIndex`, the key the renderer binds by. */
  predicate DistinctIds(s: seq<Item>) {
    forall p, q :: 0 <= p < q < |s| ==> s[p].originalIndex != s[q].originalIndex
  }

  /** Every bar shown green is already in its final place: it is no
      smaller than anything before it and no larger than anything after. */
  predicate Settled(f: Frame)
    requires f.Valid()
  {
    forall p, q :: 0 <= p < q < |f.items| && (f.labels[p] == Sorted || f.labels[q] == Sorted) ==>
      f.items[p].value <= f.items[q].value
  }

  /** Labels sorted before `m` and default from `m` on. */
  predicate SortedBefore(labels: seq<BarState>, m: int) {
    forall k :: 0 <= k < |labels| ==> labels[k] == (if k < m then Sorted else Default)
  }

  /** Exchange of two positions through a temporary. */
  function Swap(s: seq<Item>, p: int, q: int): (r: seq<Item>)
    requires 0 <= p < |s| && 0 <= q < |s|
    ensures |r| == |s| && r[p] == s[q] && r[q] == s[p]
    ensures forall k :: 0 <= k < |s| && k != p && k != q ==> r[k] == s[k]
  {
    s[p := s[q]][q := s[p]]
  }

  /** An exchange keeps every bar. */
  lemma SwapPermutes(s: seq<Item>, p: int, q: int)
    requires 0 <= p < |s| && 0 <= q < |s|
    ensures multiset(Swap(s, p, q)) == multiset(s)
  {
  }

  /** Converting records to columns and back loses nothing. */
  lemma RowsColumns(s: seq<Bar>)
    ensures Rows(Columns(s)) == s
  {
  }

  /** Converting columns to records and back loses nothing. */
  lemma ColumnsRows(f: Frame)
    requires f.Valid()
    ensures Columns(Rows(f)) == f
  {
  }

  /** Exchanging neighbours that are strictly out of order never reorders
      two bars of equal value: the reason bubble sort and insertion sort are
      stable. */
  lemma AdjacentSwapOrder(s: seq<Item>, j: int, rank: Item -> int)
    requires 0 <= j && j + 1 < |s|
    requires s[j].value > s[j + 1].value
    requires InOrderBy(s, rank)
    ensures InOrderBy(Swap(s, j, j + 1), rank)
  {
    var r := Swap(s, j, j + 1);
    forall p, q | 0 <= p < q < |r| && r[p].value == r[q].value
      ensures rank(r[p]) < rank(r[q])
    {
      // where each of the two bars stood before the exchange
      var p' := if p == j then j + 1 else if p == j + 1 then j else p;
      var q' := if q == j then j + 1 else if q == j + 1 then j else q;
      assert r[p] == s[p'] && r[q] == s[q'];
    }
  }

  /** With distinct keys each bar stands in one place only, so ranking bars
      by their position puts any array in order: the ranking a stable sort
      keeps, whatever order bars of equal value arrive in. */
  lemma PositionRanks(s: seq<Item>)
    requires DistinctIds(s)
    ensures forall k :: 0 <= k < |s| ==> PositionIn(s)(s[k]) == k
    ensures InOrderBy(s, PositionIn(s))
  {
    forall k | 0 <= k < |s|
      ensures PositionIn(s)(s[k]) == k
    {
      var i := IndexOf(s, s[k]);
      assert i <= k;
      assert s[i].originalIndex == s[k].originalIndex;
    }
  }
}
