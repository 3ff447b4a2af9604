/** `insertionSort` of the visualizer: bar 0 starts out sorted; each
    round takes the next bar and shifts it left past every larger bar of
    the sorted prefix, then labels it sorted. The loops are recursive
    functions: `Shift` is the inner `while` loop, and `Round` (one turn of
    the `for` loop and the turns after it) and `Rounds` (the loop's test)
    together the `for` loop.

    Each shift step writes the moving bar over its left neighbour, shows
    that, and only then moves the neighbour right. So every other snapshot
    of a shift holds the moving bar twice and the neighbour not at all: it
    is not a permutation of the input (`Transient`). */
module InsertionSort {
  import opened Bars
  import opened Runs

  /** The bar at `j` drawn again at `j + 1`, over the bar that was there. */
  function Overwrite(s: seq<Item>, j: nat): seq<Item>
    requires j + 1 < |s|
  {
    s[j + 1 := s[j]]
  }

  /** `f` is `g` as shown half-way through a shift step: the bar about to
      move right is already overwritten by the bar to its right. */
  predicate Transient(f: Frame, g: Frame) {
    exists j: nat :: j + 1 < |g.items| && f.items == Overwrite(g.items, j)
  }

  /** Snapshot `k` holds exactly the bars of `bag`, or is a half-done
      shift step of the snapshot that follows it, which does. */
  predicate ShownAt(trace: seq<Frame>, k: int, bag: multiset<Item>)
    requires 0 <= k < |trace|
  {
    && trace[k].Valid()
    && (|| multiset(trace[k].items) == bag
        || (k + 1 < |trace| && multiset(trace[k + 1].items) == bag && Transient(trace[k], trace[k + 1])))
  }

  predicate AllShown(trace: seq<Frame>, bag: multiset<Item>) {
    forall k :: 0 <= k < |trace| ==> ShownAt(trace, k, bag)
  }

  /** Green bars are in order among themselves. For insertion sort green
      means "in the sorted prefix", not "in its final place". */
  predicate GreenInOrder(f: Frame)
    requires f.Valid()
  {
    forall p, q :: 0 <= p < q < |f.items| && f.labels[p] == Sorted && f.labels[q] == Sorted ==>
      f.items[p].value <= f.items[q].value
  }

  predicate AllGreenInOrder(trace: seq<Frame>) {
    forall k :: 0 <= k < |trace| ==> trace[k].Valid() && GreenInOrder(trace[k])
  }

  /** The array during round `i` with the moving bar at `h`: it is marked
      as compared until it first moves and current after that; the rest of
      the first `i + 1` bars are green and in order, and those right of it
      are strictly larger. */
  predicate Shifting(f: Frame, i: int, h: int) {
    && f.Valid() && 0 <= h <= i < |f.items|
    && (forall k :: 0 <= k < |f.labels| ==>
          f.labels[k] == (if k == h then (if h == i then Comparing else Current)
                          else if k <= i then Sorted else Default))
    && SortedRange(f.items, 0, h) && SortedRange(f.items, h + 1, i + 1)
    && (forall p, q :: 0 <= p < h < q <= i ==> f.items[p].value <= f.items[q].value)
    && (forall q :: h < q <= i ==> f.items[h].value < f.items[q].value)
  }

  /** How the inner loop ends: the array, where the moving bar stands, the
      snapshots, the cancel reads so far, and whether a read found the flag
      set. */
  datatype ShiftRun = ShiftRun(last: Frame, pos: nat, snaps: seq<Frame>, checks: nat, cancelled: bool)

  /** The inner loop with the moving bar at `h` (the source's `j + 1`). The
      bar's value is the source's `key`, which it keeps while it moves. Each
      step past a strictly larger bar reads the cancel flag, shows the
      moving bar drawn over that neighbour (labelled current), then shows
      the neighbour moved right (labelled sorted). */
  function Shift(f: Frame, h: nat, cancel: nat -> bool, checks: nat): (s: ShiftRun)
    requires f.Valid() && h < |f.items|
    ensures s.last.Valid() && |s.last.items| == |f.items| && s.pos <= h
    decreases h
  {
    if h == 0 || f.items[h - 1].value <= f.items[h].value then
      ShiftRun(f, h, [], checks, false)
    else if cancel(checks) then
      ShiftRun(f, h, [], checks + 1, true)
    else
      var shown := Frame(f.items[h - 1 := f.items[h]], f.labels[h - 1 := Current]);
      var moved := Frame(shown.items[h := f.items[h - 1]], shown.labels[h := Sorted]);
      var rest := Shift(moved, h - 1, cancel, checks + 1);
      rest.(snaps := [shown, moved] + rest.snaps)
  }

  /** Round `i` of the outer loop and the rounds after it: the cancel
      check, bar `i` marked as compared, the shift, the bar written back
      where it stopped and labelled sorted, and on to round `i + 1`. */
  function Round(f: Frame, i: nat, cancel: nat -> bool, checks: nat): (r: Run)
    requires f.Valid() && 0 < i < |f.items|
    decreases |f.items| - i, 0
  {
    if cancel(checks) then
      Run(Cancelled, f, [], checks + 1)
    else
      var start := Frame(f.items, f.labels[i := Comparing]);
      var s := Shift(start, i, cancel, checks + 1);
      if s.cancelled then
        Run(Cancelled, s.last, [start] + s.snaps, s.checks)
      else
        var done := Frame(s.last.items[s.pos := f.items[i]], s.last.labels[s.pos := Sorted]);
        Prepend([start] + s.snaps + [done], Rounds(done, i + 1, cancel, s.checks))
  }

  /** The outer loop from round `i`; it ends without a final relabel. */
  function Rounds(f: Frame, i: nat, cancel: nat -> bool, checks: nat): (r: Run)
    requires f.Valid() && 0 < i <= |f.items|
    decreases |f.items| - i, 1
  {
    if i == |f.items| then Run(Completed, f, [], checks) else Round(f, i, cancel, checks)
  }

  /** One call of `insertionSort`: ignored while a sort runs; otherwise
      every label reset and bar 0 labelled sorted, shown, and the outer
      loop. On an empty array labelling bar 0 throws before anything is
      shown. */
  function InsertionSort(sorting: bool, data: Frame, cancel: nat -> bool): (r: Run)
    requires data.Valid()
    ensures sorting ==> r == Run(Ignored, data, [], 0)
  {
    if sorting then
      Run(Ignored, data, [], 0)
    else if |data.items| == 0 then
      Run(Failed, Frame(data.items, Fill(0, Default)), [], 0)
    else
      var w := Frame(data.items, Fill(|data.items|, Default)[0 := Sorted]);
      Prepend([w], Rounds(w, 1, cancel, 0))
  }

  // ---------------------------------------------------------------------
  // Snapshots and their bars

  lemma AllShownAppend(a: seq<Frame>, b: seq<Frame>, bag: multiset<Item>)
    requires AllShown(a, bag) && AllShown(b, bag)
    ensures AllShown(a + b, bag)
  {
    var c := a + b;
    forall k | 0 <= k < |c|
      ensures ShownAt(c, k, bag)
    {
      if k >= |a| {
        var k' := k - |a|;
        assert ShownAt(b, k', bag);
        assert c[k] == b[k'];
        if k' + 1 < |b| {
          assert c[k + 1] == b[k' + 1];
        }
      } else {
        assert ShownAt(a, k, bag);
        assert c[k] == a[k];
        if k + 1 < |a| {
          assert c[k + 1] == a[k + 1];
        }
      }
    }
  }

  /** A half-done shift step never holds the input's bars when no two bars
      share an identity: one bar is shown twice and its neighbour not at
      all. */
  lemma TransientNotPermutation(s: seq<Item>, j: nat)
    requires j + 1 < |s| && DistinctIds(s)
    ensures multiset(Overwrite(s, j)) != multiset(s)
  {
    var t := Overwrite(s, j);
    var gone := s[j + 1];
    assert gone !in t by {
      forall k | 0 <= k < |t|
        ensures t[k] != gone
      {
        if k == j + 1 {
          assert t[k] == s[j];
        } else {
          assert t[k] == s[k];
        }
      }
    }
    assert multiset(t)[gone] == 0;
    assert gone in s;
    assert multiset(s)[gone] > 0;
  }

  /** One full shift step: the bar at `h` written over its left
      neighbour, shown, and the neighbour written at `h`. */
  lemma StepShown(f: Frame, h: nat)
    requires f.Valid() && 0 < h < |f.items|
    ensures var shown := Frame(f.items[h - 1 := f.items[h]], f.labels[h - 1 := Current]);
      var moved := Frame(shown.items[h := f.items[h - 1]], shown.labels[h := Sorted]);
      && moved.items == Swap(f.items, h - 1, h)
      && multiset(moved.items) == multiset(f.items)
      && AllShown([shown, moved], multiset(f.items))
  {
    var shown := Frame(f.items[h - 1 := f.items[h]], f.labels[h - 1 := Current]);
    var moved := Frame(shown.items[h := f.items[h - 1]], shown.labels[h := Sorted]);
    assert moved.items == Swap(f.items, h - 1, h);
    SwapPermutes(f.items, h - 1, h);
    assert shown.items == Overwrite(moved.items, h - 1);
    assert Transient(shown, moved);
  }

  /** The shift only exchanges neighbours, and the moving bar stays the
      one it started with. */
  lemma {:induction false} ShiftKeeps(f: Frame, h: nat, cancel: nat -> bool, checks: nat)
    requires f.Valid() && h < |f.items|
    ensures var s := Shift(f, h, cancel, checks);
      multiset(s.last.items) == multiset(f.items) && s.last.items[s.pos] == f.items[h]
    decreases h
  {
    if h > 0 && f.items[h - 1].value > f.items[h].value && !cancel(checks) {
      var shown := Frame(f.items[h - 1 := f.items[h]], f.labels[h - 1 := Current]);
      var moved := Frame(shown.items[h := f.items[h - 1]], shown.labels[h := Sorted]);
      StepShown(f, h);
      ShiftKeeps(moved, h - 1, cancel, checks + 1);
    }
  }

  /** Every snapshot the shift shows is whole or a half-done step of the
      next one. */
  lemma {:induction false} ShiftShown(f: Frame, h: nat, cancel: nat -> bool, checks: nat)
    requires f.Valid() && h < |f.items|
    ensures AllShown(Shift(f, h, cancel, checks).snaps, multiset(f.items))
    decreases h
  {
    if h > 0 && f.items[h - 1].value > f.items[h].value && !cancel(checks) {
      var shown := Frame(f.items[h - 1 := f.items[h]], f.labels[h - 1 := Current]);
      var moved := Frame(shown.items[h := f.items[h - 1]], shown.labels[h := Sorted]);
      StepShown(f, h);
      ShiftShown(moved, h - 1, cancel, checks + 1);
      AllShownAppend([shown, moved], Shift(moved, h - 1, cancel, checks + 1).snaps, multiset(f.items));
    }
  }

  /** The shift ends on the last snapshot it showed, if any. */
  lemma {:induction false} ShiftLast(f: Frame, h: nat, cancel: nat -> bool, checks: nat)
    requires f.Valid() && h < |f.items|
    ensures var s := Shift(f, h, cancel, checks);
      s.last == (if s.snaps == [] then f else Last(s.snaps))
    decreases h
  {
    if h > 0 && f.items[h - 1].value > f.items[h].value && !cancel(checks) {
      var shown := Frame(f.items[h - 1 := f.items[h]], f.labels[h - 1 := Current]);
      var moved := Frame(shown.items[h := f.items[h - 1]], shown.labels[h := Sorted]);
      ShiftLast(moved, h - 1, cancel, checks + 1);
    }
  }

  /** The shift reads the cancel flag once per step, until a read finds
      it set. */
  lemma {:induction false} ShiftChecks(f: Frame, h: nat, cancel: nat -> bool, checks: nat)
    requires f.Valid() && h < |f.items|
    ensures var s := Shift(f, h, cancel, checks);
      && ChecksLog(cancel, checks, s.checks, s.cancelled)
      && s.checks == checks + (h - s.pos) + (if s.cancelled then 1 else 0)
    decreases h
  {
    if h > 0 && f.items[h - 1].value > f.items[h].value && !cancel(checks) {
      var shown := Frame(f.items[h - 1 := f.items[h]], f.labels[h - 1 := Current]);
      var moved := Frame(shown.items[h := f.items[h - 1]], shown.labels[h := Sorted]);
      ShiftChecks(moved, h - 1, cancel, checks + 1);
    }
  }

  /** A shift only moves a bar past strictly larger neighbours, so bars
      of equal value keep their order. */
  lemma {:induction false} ShiftStable(f: Frame, h: nat, cancel: nat -> bool, checks: nat, rank: Item -> int)
    requires f.Valid() && h < |f.items| && InOrderBy(f.items, rank)
    ensures InOrderBy(Shift(f, h, cancel, checks).last.items, rank)
    decreases h
  {
    if h > 0 && f.items[h - 1].value > f.items[h].value && !cancel(checks) {
      var shown := Frame(f.items[h - 1 := f.items[h]], f.labels[h - 1 := Current]);
      var moved := Frame(shown.items[h := f.items[h - 1]], shown.labels[h := Sorted]);
      AdjacentSwapOrder(f.items, h - 1, rank);
      ShiftStable(moved, h - 1, cancel, checks + 1, rank);
    }
  }

  // ---------------------------------------------------------------------
  // Green bars during a shift

  /** While shifting, the green bars are in order. */
  lemma ShiftingGreen(f: Frame, i: int, h: int)
    requires Shifting(f, i, h)
    ensures GreenInOrder(f)
  {
  }

  /** A half-done step shows no green bar out of order: it only draws over
      a bar that is not green. */
  lemma TransientGreen(f: Frame, i: int, h: int)
    requires Shifting(f, i, h) && 0 < h
    ensures var shown := Frame(f.items[h - 1 := f.items[h]], f.labels[h - 1 := Current]);
      shown.Valid() && GreenInOrder(shown)
  {
    var shown := Frame(f.items[h - 1 := f.items[h]], f.labels[h - 1 := Current]);
    forall p, q | 0 <= p < q < |shown.items| && shown.labels[p] == Sorted && shown.labels[q] == Sorted
      ensures shown.items[p].value <= shown.items[q].value
    {
      assert p != h - 1 && q != h - 1 && p != h && q != h;
      assert shown.items[p] == f.items[p] && shown.items[q] == f.items[q];
    }
  }

  /** A full step moves the bar one place left and keeps the shape. */
  lemma ShiftStep(f: Frame, i: int, h: int)
    requires Shifting(f, i, h) && 0 < h && f.items[h - 1].value > f.items[h].value
    ensures var moved := Frame(f.items[h - 1 := f.items[h]][h := f.items[h - 1]], f.labels[h - 1 := Current][h := Sorted]);
      Shifting(moved, i, h - 1)
  {
    var g := f.items[h - 1 := f.items[h]][h := f.items[h - 1]];
    var labels := f.labels[h - 1 := Current][h := Sorted];
    assert forall k :: 0 <= k < |labels| ==>
      labels[k] == (if k == h - 1 then Current else if k <= i then Sorted else Default) by {
      forall k | 0 <= k < |labels|
        ensures labels[k] == (if k == h - 1 then Current else if k <= i then Sorted else Default)
      {
        if k != h - 1 && k != h {
          assert labels[k] == f.labels[k];
        }
      }
    }
    assert SortedRange(g, 0, h - 1) by {
      assert forall k :: 0 <= k < h - 1 ==> g[k] == f.items[k];
    }
    assert SortedRange(g, h, i + 1) by {
      forall p, q | h <= p < q < i + 1
        ensures g[p].value <= g[q].value
      {
        assert g[q] == f.items[q];
        if p == h {
          assert g[p] == f.items[h - 1];
        } else {
          assert g[p] == f.items[p];
        }
      }
    }
    assert forall q :: h - 1 < q <= i ==> g[h - 1].value < g[q].value by {
      forall q | h - 1 < q <= i
        ensures g[h - 1].value < g[q].value
      {
        if q > h {
          assert g[q] == f.items[q];
        }
      }
    }
    assert forall p, q :: 0 <= p < h - 1 < q <= i ==> g[p].value <= g[q].value by {
      forall p, q | 0 <= p < h - 1 < q <= i
        ensures g[p].value <= g[q].value
      {
        assert g[p] == f.items[p];
        if q == h {
          assert g[q] == f.items[h - 1];
        } else {
          assert g[q] == f.items[q];
        }
      }
    }
  }

  /** One full shift step shows green bars only in order and keeps the
      shape. */
  lemma StepGreen(f: Frame, i: int, h: nat)
    requires Shifting(f, i, h) && 0 < h && f.items[h - 1].value > f.items[h].value
    ensures var shown := Frame(f.items[h - 1 := f.items[h]], f.labels[h - 1 := Current]);
      var moved := Frame(shown.items[h := f.items[h - 1]], shown.labels[h := Sorted]);
      AllGreenInOrder([shown, moved]) && Shifting(moved, i, h - 1)
  {
    TransientGreen(f, i, h);
    ShiftStep(f, i, h);
    var moved := Frame(f.items[h - 1 := f.items[h]][h := f.items[h - 1]], f.labels[h - 1 := Current][h := Sorted]);
    ShiftingGreen(moved, i, h - 1);
  }

  /** The shift from a `Shifting` array shows green bars only in order. */
  lemma {:induction false} ShiftGreen(f: Frame, i: nat, h: nat, cancel: nat -> bool, checks: nat)
    requires Shifting(f, i, h)
    ensures AllGreenInOrder(Shift(f, h, cancel, checks).snaps)
    decreases h
  {
    if h > 0 && f.items[h - 1].value > f.items[h].value && !cancel(checks) {
      var shown := Frame(f.items[h - 1 := f.items[h]], f.labels[h - 1 := Current]);
      var moved := Frame(shown.items[h := f.items[h - 1]], shown.labels[h := Sorted]);
      StepGreen(f, i, h);
      ShiftGreen(moved, i, h - 1, cancel, checks + 1);
      AllGreenAppend([shown, moved], Shift(moved, h - 1, cancel, checks + 1).snaps);
    }
  }

  /** The shift from a `Shifting` array keeps that shape. */
  lemma {:induction false} ShiftShape(f: Frame, i: nat, h: nat, cancel: nat -> bool, checks: nat)
    requires Shifting(f, i, h)
    ensures var s := Shift(f, h, cancel, checks); Shifting(s.last, i, s.pos)
    decreases h
  {
    if h > 0 && f.items[h - 1].value > f.items[h].value && !cancel(checks) {
      var shown := Frame(f.items[h - 1 := f.items[h]], f.labels[h - 1 := Current]);
      var moved := Frame(shown.items[h := f.items[h - 1]], shown.labels[h := Sorted]);
      ShiftStep(f, i, h);
      ShiftShape(moved, i, h - 1, cancel, checks + 1);
    }
  }

  /** Unless cancelled, the shift stops at the front or once the bar to
      the left is no larger. */
  lemma {:induction false} ShiftStops(f: Frame, h: nat, cancel: nat -> bool, checks: nat)
    requires f.Valid() && h < |f.items|
    ensures var s := Shift(f, h, cancel, checks);
      !s.cancelled ==> s.pos == 0 || s.last.items[s.pos - 1].value <= s.last.items[s.pos].value
    decreases h
  {
    if h > 0 && f.items[h - 1].value > f.items[h].value && !cancel(checks) {
      var shown := Frame(f.items[h - 1 := f.items[h]], f.labels[h - 1 := Current]);
      var moved := Frame(shown.items[h := f.items[h - 1]], shown.labels[h := Sorted]);
      ShiftStops(moved, h - 1, cancel, checks + 1);
    }
  }

  /** Where the shift stops, writing the bar back and labelling it sorted
      makes the first `i + 1` bars sorted and green. */
  lemma InsertDone(g: Frame, i: nat, h: nat, cur: Item)
    requires Shifting(g, i, h) && g.items[h] == cur
    requires h == 0 || g.items[h - 1].value <= g.items[h].value
    ensures var done := Frame(g.items[h := cur], g.labels[h := Sorted]);
      && done.Valid() && done.items == g.items
      && SortedBefore(done.labels, i + 1) && SortedRange(done.items, 0, i + 1)
  {
    var s := g.items;
    assert s[h := cur] == s;
    forall p, q | 0 <= p < q < i + 1
      ensures s[p].value <= s[q].value
    {
      if q == h {
        assert s[p].value <= s[h - 1].value;
      }
    }
  }

  // ---------------------------------------------------------------------
  // One round by itself

  /** Round `i` by itself only exchanges bars, apart from half-done steps. */
  lemma RoundKeeps(f: Frame, i: nat, cancel: nat -> bool, checks: nat)
    requires f.Valid() && 0 < i < |f.items|
    ensures var start := Frame(f.items, f.labels[i := Comparing]);
      var s := Shift(start, i, cancel, checks);
      var done := Frame(s.last.items[s.pos := f.items[i]], s.last.labels[s.pos := Sorted]);
      && AllShown([start] + s.snaps, multiset(f.items))
      && s.last == (if s.snaps == [] then start else Last(s.snaps))
      && done.Valid() && done.items == s.last.items
      && AllShown([start] + s.snaps + [done], multiset(f.items))
  {
    var bag := multiset(f.items);
    var start := Frame(f.items, f.labels[i := Comparing]);
    var s := Shift(start, i, cancel, checks);
    ShiftShown(start, i, cancel, checks);
    ShiftKeeps(start, i, cancel, checks);
    ShiftLast(start, i, cancel, checks);
    assert AllShown([start], bag);
    AllShownAppend([start], s.snaps, bag);
    var done := Frame(s.last.items[s.pos := f.items[i]], s.last.labels[s.pos := Sorted]);
    assert done.items == s.last.items;
    assert AllShown([done], bag);
    AllShownAppend([start] + s.snaps, [done], bag);
  }

  /** Round `i` by itself, from a sorted green prefix of `i` bars, shows
      green bars only in order and hands on a sorted green prefix one
      longer. */
  lemma RoundSettles(f: Frame, i: nat, cancel: nat -> bool, checks: nat)
    requires f.Valid() && 0 < i < |f.items|
    requires SortedBefore(f.labels, i) && SortedRange(f.items, 0, i)
    ensures var start := Frame(f.items, f.labels[i := Comparing]);
      var s := Shift(start, i, cancel, checks);
      var done := Frame(s.last.items[s.pos := f.items[i]], s.last.labels[s.pos := Sorted]);
      && AllGreenInOrder([start] + s.snaps)
      && (!s.cancelled ==>
            && AllGreenInOrder([start] + s.snaps + [done])
            && done.Valid() && SortedBefore(done.labels, i + 1) && SortedRange(done.items, 0, i + 1))
  {
    var start := Frame(f.items, f.labels[i := Comparing]);
    assert Shifting(start, i, i);
    var s := Shift(start, i, cancel, checks);
    ShiftGreen(start, i, i, cancel, checks);
    ShiftShape(start, i, i, cancel, checks);
    ShiftStops(start, i, cancel, checks);
    ShiftingGreen(start, i, i);
    AllGreenAppend([start], s.snaps);
    if !s.cancelled {
      ShiftKeeps(start, i, cancel, checks);
      InsertDone(s.last, i, s.pos, f.items[i]);
      var done := Frame(s.last.items[s.pos := f.items[i]], s.last.labels[s.pos := Sorted]);
      AllGreenAppend([start] + s.snaps, [done]);
    }
  }

  lemma AllGreenAppend(a: seq<Frame>, b: seq<Frame>)
    requires AllGreenInOrder(a) && AllGreenInOrder(b)
    ensures AllGreenInOrder(a + b)
  {
    forall k | 0 <= k < |a + b|
      ensures (a + b)[k].Valid() && GreenInOrder((a + b)[k])
    {
      if k >= |a| {
        assert (a + b)[k] == b[k - |a|];
      }
    }
  }

  /** Round `i` by itself reads the flag once, then once per step, until
      a read finds it set. */
  lemma RoundReads(f: Frame, i: nat, cancel: nat -> bool, checks: nat)
    requires f.Valid() && 0 < i < |f.items| && !cancel(checks)
    ensures var start := Frame(f.items, f.labels[i := Comparing]);
      var s := Shift(start, i, cancel, checks + 1);
      && ChecksLog(cancel, checks, s.checks, s.cancelled)
      && s.checks == checks + 1 + (i - s.pos) + (if s.cancelled then 1 else 0)
  {
    var start := Frame(f.items, f.labels[i := Comparing]);
    var s := Shift(start, i, cancel, checks + 1);
    ShiftChecks(start, i, cancel, checks + 1);
    ChecksLogJoin(cancel, checks, checks + 1, s.checks, s.cancelled);
  }

  /** Round `i` by itself keeps bars of equal value in order. */
  lemma RoundStable(f: Frame, i: nat, cancel: nat -> bool, checks: nat, rank: Item -> int)
    requires f.Valid() && 0 < i < |f.items| && InOrderBy(f.items, rank)
    ensures var start := Frame(f.items, f.labels[i := Comparing]);
      var s := Shift(start, i, cancel, checks);
      InOrderBy(s.last.items, rank) && InOrderBy(s.last.items[s.pos := f.items[i]], rank)
  {
    var start := Frame(f.items, f.labels[i := Comparing]);
    ShiftStable(start, i, cancel, checks, rank);
    ShiftKeeps(start, i, cancel, checks);
    var s := Shift(start, i, cancel, checks);
    assert s.last.items[s.pos := f.items[i]] == s.last.items;
  }

  // ---------------------------------------------------------------------
  // The rounds

  /** Within a round the shift ends on its last snapshot, and dropping the
      current bar into the gap leaves the round's bars in place. */
  lemma RoundLands(f: Frame, i: nat, cancel: nat -> bool, checks: nat)
    requires f.Valid() && 0 < i < |f.items|
    ensures var start := Frame(f.items, f.labels[i := Comparing]);
      var s := Shift(start, i, cancel, checks);
      && s.last.Valid() && multiset(s.last.items) == multiset(f.items)
      && s.last == Last([start] + s.snaps)
      && s.last.items[s.pos := f.items[i]] == s.last.items
  {
    var start := Frame(f.items, f.labels[i := Comparing]);
    ShiftKeeps(start, i, cancel, checks);
    ShiftLast(start, i, cancel, checks);
  }

  /** The rounds only exchange bars, apart from half-done steps. */
  lemma {:induction false} RoundShown(f: Frame, i: nat, cancel: nat -> bool, checks: nat)
    requires f.Valid() && 0 < i < |f.items|
    ensures var r := Round(f, i, cancel, checks);
      AllShown(r.trace, multiset(f.items)) && (r.outcome.Completed? || r.outcome.Cancelled?)
    decreases |f.items| - i, 0
  {
    if !cancel(checks) {
      var start := Frame(f.items, f.labels[i := Comparing]);
      var s := Shift(start, i, cancel, checks + 1);
      RoundKeeps(f, i, cancel, checks + 1);
      if !s.cancelled {
        var done := Frame(s.last.items[s.pos := f.items[i]], s.last.labels[s.pos := Sorted]);
        var rest := Rounds(done, i + 1, cancel, s.checks);
        RoundLands(f, i, cancel, checks + 1);
        assert multiset(done.items) == multiset(f.items);
        RoundsShown(done, i + 1, cancel, s.checks);
        AllShownAppend([start] + s.snaps + [done], rest.trace, multiset(f.items));
      }
    }
  }

  /** The rounds only exchange bars, apart from half-done steps. */
  lemma {:induction false} RoundsShown(f: Frame, i: nat, cancel: nat -> bool, checks: nat)
    requires f.Valid() && 0 < i <= |f.items|
    ensures var r := Rounds(f, i, cancel, checks);
      AllShown(r.trace, multiset(f.items)) && (r.outcome.Completed? || r.outcome.Cancelled?)
    decreases |f.items| - i, 1
  {
    if i < |f.items| {
      RoundShown(f, i, cancel, checks);
    }
  }

  /** The rounds leave the bars they were given, in the array they last
      showed, if any. */
  lemma {:induction false} RoundEnds(f: Frame, i: nat, cancel: nat -> bool, checks: nat)
    requires f.Valid() && 0 < i < |f.items|
    ensures var r := Round(f, i, cancel, checks);
      && r.last.Valid() && multiset(r.last.items) == multiset(f.items)
      && r.last == (if r.trace == [] then f else Last(r.trace))
    decreases |f.items| - i, 0
  {
    if !cancel(checks) {
      var start := Frame(f.items, f.labels[i := Comparing]);
      var s := Shift(start, i, cancel, checks + 1);
      RoundLands(f, i, cancel, checks + 1);
      if !s.cancelled {
        var done := Frame(s.last.items[s.pos := f.items[i]], s.last.labels[s.pos := Sorted]);
        var rest := Rounds(done, i + 1, cancel, s.checks);
        RoundsEnd(done, i + 1, cancel, s.checks);
        if rest.trace != [] {
          assert Last([start] + s.snaps + [done] + rest.trace) == Last(rest.trace);
        }
      }
    }
  }

  /** The rounds leave the bars they were given, in the array they last
      showed, if any. */
  lemma {:induction false} RoundsEnd(f: Frame, i: nat, cancel: nat -> bool, checks: nat)
    requires f.Valid() && 0 < i <= |f.items|
    ensures var r := Rounds(f, i, cancel, checks);
      && r.last.Valid() && multiset(r.last.items) == multiset(f.items)
      && r.last == (if r.trace == [] then f else Last(r.trace))
    decreases |f.items| - i, 1
  {
    if i < |f.items| {
      RoundEnds(f, i, cancel, checks);
    }
  }

  /** The rounds read the cancel flag as `ChecksLog` says. */
  lemma {:induction false} RoundChecks(f: Frame, i: nat, cancel: nat -> bool, checks: nat)
    requires f.Valid() && 0 < i < |f.items|
    ensures var r := Round(f, i, cancel, checks);
      ChecksLog(cancel, checks, r.checks, r.outcome.Cancelled?)
    decreases |f.items| - i, 0
  {
    if !cancel(checks) {
      var start := Frame(f.items, f.labels[i := Comparing]);
      var s := Shift(start, i, cancel, checks + 1);
      RoundReads(f, i, cancel, checks);
      if !s.cancelled {
        var done := Frame(s.last.items[s.pos := f.items[i]], s.last.labels[s.pos := Sorted]);
        var rest := Rounds(done, i + 1, cancel, s.checks);
        RoundsChecks(done, i + 1, cancel, s.checks);
        ChecksLogJoin(cancel, checks, s.checks, rest.checks, rest.outcome.Cancelled?);
      }
    }
  }

  /** The rounds read the cancel flag as `ChecksLog` says. */
  lemma {:induction false} RoundsChecks(f: Frame, i: nat, cancel: nat -> bool, checks: nat)
    requires f.Valid() && 0 < i <= |f.items|
    ensures var r := Rounds(f, i, cancel, checks);
      ChecksLog(cancel, checks, r.checks, r.outcome.Cancelled?)
    decreases |f.items| - i, 1
  {
    if i < |f.items| {
      RoundChecks(f, i, cancel, checks);
    }
  }

  /** From a sorted green prefix of `i` bars, the rounds show green bars
      only in order, and a completed run leaves every bar sorted by value
      and green. */
  lemma {:induction false} RoundSorts(f: Frame, i: nat, cancel: nat -> bool, checks: nat)
    requires f.Valid() && 0 < i < |f.items|
    requires SortedBefore(f.labels, i) && SortedRange(f.items, 0, i)
    ensures var r := Round(f, i, cancel, checks);
      && AllGreenInOrder(r.trace)
      && (r.outcome.Completed? ==> SortedByValue(r.last.items) && AllIn(r.last.labels, Sorted))
    decreases |f.items| - i, 0
  {
    if !cancel(checks) {
      var start := Frame(f.items, f.labels[i := Comparing]);
      var s := Shift(start, i, cancel, checks + 1);
      RoundSettles(f, i, cancel, checks + 1);
      if !s.cancelled {
        var done := Frame(s.last.items[s.pos := f.items[i]], s.last.labels[s.pos := Sorted]);
        RoundsSort(done, i + 1, cancel, s.checks);
        AllGreenAppend([start] + s.snaps + [done], Rounds(done, i + 1, cancel, s.checks).trace);
      }
    }
  }

  /** From a sorted green prefix of `i` bars, the rounds show green bars
      only in order, and a completed run leaves every bar sorted by value
      and green. */
  lemma {:induction false} RoundsSort(f: Frame, i: nat, cancel: nat -> bool, checks: nat)
    requires f.Valid() && 0 < i <= |f.items|
    requires SortedBefore(f.labels, i) && SortedRange(f.items, 0, i)
    ensures var r := Rounds(f, i, cancel, checks);
      && AllGreenInOrder(r.trace)
      && (r.outcome.Completed? ==> SortedByValue(r.last.items) && AllIn(r.last.labels, Sorted))
    decreases |f.items| - i, 1
  {
    if i < |f.items| {
      RoundSorts(f, i, cancel, checks);
    }
  }

  /** The rounds keep bars of equal value in order. */
  lemma {:induction false} RoundStays(f: Frame, i: nat, cancel: nat -> bool, checks: nat, rank: Item -> int)
    requires f.Valid() && 0 < i < |f.items| && InOrderBy(f.items, rank)
    ensures InOrderBy(Round(f, i, cancel, checks).last.items, rank)
    decreases |f.items| - i, 0
  {
    if !cancel(checks) {
      var start := Frame(f.items, f.labels[i := Comparing]);
      var s := Shift(start, i, cancel, checks + 1);
      RoundStable(f, i, cancel, checks + 1, rank);
      if !s.cancelled {
        var done := Frame(s.last.items[s.pos := f.items[i]], s.last.labels[s.pos := Sorted]);
        RoundsStay(done, i + 1, cancel, s.checks, rank);
      }
    }
  }

  /** The rounds keep bars of equal value in order. */
  lemma {:induction false} RoundsStay(f: Frame, i: nat, cancel: nat -> bool, checks: nat, rank: Item -> int)
    requires f.Valid() && 0 < i <= |f.items| && InOrderBy(f.items, rank)
    ensures InOrderBy(Rounds(f, i, cancel, checks).last.items, rank)
    decreases |f.items| - i, 1
  {
    if i < |f.items| {
      RoundStays(f, i, cancel, checks, rank);
    }
  }

  // ---------------------------------------------------------------------
  // The whole run

  /** A run first shows the input with every label reset and bar 0
      green; it ends on its last snapshot; every snapshot holds exactly the
      input's bars except half-done shift steps; and it fails exactly on an
      empty array, showing nothing. */
  lemma InsertionSortShown(sorting: bool, data: Frame, cancel: nat -> bool)
    requires data.Valid() && !sorting
    ensures var r := InsertionSort(sorting, data, cancel);
      && !r.outcome.Ignored? && (r.outcome.Failed? <==> |data.items| == 0)
      && (r.outcome.Failed? ==> r.trace == [])
      && (!r.outcome.Failed? ==>
            && r.trace != [] && r.trace[0] == Frame(data.items, Fill(|data.items|, Default)[0 := Sorted])
            && r.last == Last(r.trace) && r.last.Valid()
            && AllShown(r.trace, multiset(data.items)))
  {
    if |data.items| > 0 {
      var w := Frame(data.items, Fill(|data.items|, Default)[0 := Sorted]);
      RoundsShown(w, 1, cancel, 0);
      RoundsEnd(w, 1, cancel, 0);
      assert AllShown([w], multiset(data.items));
      AllShownAppend([w], Rounds(w, 1, cancel, 0).trace, multiset(data.items));
    }
  }

  /** A completed run leaves the bars sorted by value and all green, and
      no snapshot on the way shows green bars out of order. */
  lemma InsertionSortSorts(sorting: bool, data: Frame, cancel: nat -> bool)
    requires data.Valid()
    ensures var r := InsertionSort(sorting, data, cancel);
      && (!sorting ==> AllGreenInOrder(r.trace))
      && (r.outcome.Completed? ==> SortedByValue(r.last.items) && AllIn(r.last.labels, Sorted))
  {
    if !sorting && |data.items| > 0 {
      var w := Frame(data.items, Fill(|data.items|, Default)[0 := Sorted]);
      assert SortedBefore(w.labels, 1);
      RoundsSort(w, 1, cancel, 0);
      assert AllGreenInOrder([w]);
      AllGreenAppend([w], Rounds(w, 1, cancel, 0).trace);
    }
  }

  /** Insertion sort is stable: any ranking under which the input's bars
      of equal value are in order still holds of the result. */
  lemma InsertionSortStable(sorting: bool, data: Frame, cancel: nat -> bool, rank: Item -> int)
    requires data.Valid() && InOrderBy(data.items, rank)
    ensures InOrderBy(InsertionSort(sorting, data, cancel).last.items, rank)
  {
    if !sorting && |data.items| > 0 {
      RoundsStay(Frame(data.items, Fill(|data.items|, Default)[0 := Sorted]), 1, cancel, 0, rank);
    }
  }

  /** Bars of equal value leave in the order they came in, whatever that
      order was, whether the run completes or is cancelled. */
  lemma InsertionSortKeepsOrder(sorting: bool, data: Frame, cancel: nat -> bool)
    requires data.Valid() && DistinctIds(data.items)
    ensures InOrderBy(InsertionSort(sorting, data, cancel).last.items, PositionIn(data.items))
  {
    PositionRanks(data.items);
    InsertionSortStable(sorting, data, cancel, PositionIn(data.items));
  }

  /** A cancel read that finds the flag set ends the shift with nothing
      more shown: its snapshots are a prefix of the same shift's with the
      flag never set. A shift that is not cancelled is that shift exactly. */
  lemma {:induction false} ShiftPrefix(f: Frame, h: nat, cancel: nat -> bool, checks: nat)
    requires f.Valid() && h < |f.items|
    ensures var s := Shift(f, h, cancel, checks);
      var t := Shift(f, h, Never, checks);
      && !t.cancelled
      && (s.cancelled ==> s.snaps <= t.snaps)
      && (!s.cancelled ==> s == t)
    decreases h
  {
    if h > 0 && f.items[h - 1].value > f.items[h].value {
      var shown := Frame(f.items[h - 1 := f.items[h]], f.labels[h - 1 := Current]);
      var moved := Frame(shown.items[h := f.items[h - 1]], shown.labels[h := Sorted]);
      ShiftPrefix(moved, h - 1, cancel, checks + 1);
    }
  }

  /** A cancelled run of the rounds shows a prefix of what the rounds show
      with the flag never set; one that is not cancelled is that run. */
  lemma {:induction false} RoundPrefix(f: Frame, i: nat, cancel: nat -> bool, checks: nat)
    requires f.Valid() && 0 < i < |f.items|
    ensures var r := Round(f, i, cancel, checks);
      var n := Round(f, i, Never, checks);
      && (r.outcome.Cancelled? ==> r.trace <= n.trace)
      && (!r.outcome.Cancelled? ==> r == n)
    decreases |f.items| - i, 0
  {
    if !cancel(checks) {
      var start := Frame(f.items, f.labels[i := Comparing]);
      var s := Shift(start, i, cancel, checks + 1);
      ShiftPrefix(start, i, cancel, checks + 1);
      if !s.cancelled {
        var done := Frame(s.last.items[s.pos := f.items[i]], s.last.labels[s.pos := Sorted]);
        RoundsPrefix(done, i + 1, cancel, s.checks);
      }
    }
  }

  /** A cancelled run of the rounds shows a prefix of what the rounds show
      with the flag never set; one that is not cancelled is that run. */
  lemma {:induction false} RoundsPrefix(f: Frame, i: nat, cancel: nat -> bool, checks: nat)
    requires f.Valid() && 0 < i <= |f.items|
    ensures var r := Rounds(f, i, cancel, checks);
      var n := Rounds(f, i, Never, checks);
      && (r.outcome.Cancelled? ==> r.trace <= n.trace)
      && (!r.outcome.Cancelled? ==> r == n)
    decreases |f.items| - i, 1
  {
    if i < |f.items| {
      RoundPrefix(f, i, cancel, checks);
    }
  }

  /** The run stops early exactly when a cancel read finds the flag set;
      with the flag never set it completes on any non-empty array. */
  lemma InsertionSortCancel(sorting: bool, data: Frame, cancel: nat -> bool)
    requires data.Valid()
    ensures var r := InsertionSort(sorting, data, cancel);
      && ChecksLog(cancel, 0, r.checks, r.outcome.Cancelled?)
      && (!sorting && 0 < |data.items| && (forall k: nat :: !cancel(k)) ==> r.outcome.Completed?)
      && (r.outcome.Cancelled? ==> r.trace <= InsertionSort(sorting, data, Never).trace)
  {
    if !sorting && |data.items| > 0 {
      var w := Frame(data.items, Fill(|data.items|, Default)[0 := Sorted]);
      var r := Rounds(w, 1, cancel, 0);
      RoundsChecks(w, 1, cancel, 0);
      RoundsShown(w, 1, cancel, 0);
      RoundsPrefix(w, 1, cancel, 0);
      if forall k: nat :: !cancel(k) {
        NeverStops(cancel, 0, r.checks, r.outcome.Cancelled?);
      }
    }
  }

  /** On two bars out of order the run shows five snapshots, and the
      third holds the smaller bar twice. */
  lemma TwoBarsTrace(a: Item, b: Item)
    requires b.value < a.value
    ensures var r := InsertionSort(false, Frame([a, b], Fill(2, Default)), Never);
      |r.trace| == 5 && r.trace[2].items == [b, b]
  {
    var w := Frame([a, b], Fill(2, Default)[0 := Sorted]);
    var start := Frame(w.items, w.labels[1 := Comparing]);
    var shown := Frame(start.items[0 := start.items[1]], start.labels[0 := Current]);
    var moved := Frame(shown.items[1 := start.items[0]], shown.labels[1 := Sorted]);
    var done := Frame(moved.items[0 := b], moved.labels[0 := Sorted]);
    assert shown.items == [b, b];
    assert Shift(start, 1, Never, 1) == ShiftRun(moved, 0, [shown, moved], 2, false) by {
      assert moved.items == [b, a];
      assert Shift(moved, 0, Never, 2) == ShiftRun(moved, 0, [], 2, false);
    }
    assert Round(w, 1, Never, 0) == Prepend([start, shown, moved, done], Rounds(done, 2, Never, 2));
  }

  /** On two bars out of order with distinct identities, the third
      snapshot is not a permutation of the input: the smaller bar appears
      twice and the larger not at all. */
  lemma InsertionSortShowsCopy(a: Item, b: Item)
    requires b.value < a.value && a.originalIndex != b.originalIndex
    ensures var r := InsertionSort(false, Frame([a, b], Fill(2, Default)), Never);
      && |r.trace| == 5 && r.trace[2].items == [b, b]
      && multiset(r.trace[2].items) != multiset([a, b])
  {
    TwoBarsTrace(a, b);
    assert DistinctIds([b, a]);
    TransientNotPermutation([b, a], 0);
    assert Overwrite([b, a], 0) == [b, b];
    assert multiset([b, a]) == multiset([a, b]);
  }
}
