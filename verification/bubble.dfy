/** `bubbleSort` of the visualizer: adjacent-comparison passes over a
    shrinking unsorted prefix, stopping early after a pass without a swap.
    The two loops are written as recursive functions: `Inner` is the loop
    over `j`, `Passes` the loop over `i`, with `m = n - i` the length of
    the unsorted prefix. */
module BubbleSort {
  import opened Bars
  import opened Runs

  /** Labels while bubble sort runs: default before `m`, sorted from `m` on. */
  predicate SplitAt(labels: seq<BarState>, m: int) {
    forall k :: 0 <= k < |labels| ==> labels[k] == (if k < m then Default else Sorted)
  }

  /** The array before comparison `j` of a pass over the first `m` bars:
      the bars from `m` on are sorted, labelled so, and dominate the rest,
      and bar `j` is a largest of the first `j + 1`. After the last
      comparison (`j == m - 1`) bar `m - 1` is labelled sorted as well. */
  predicate PassState(f: Frame, j: int, m: int) {
    && f.Valid() && 0 <= j < m <= |f.items|
    && SplitAt(f.labels, if j == m - 1 then m - 1 else m)
    && Partitioned(f.items, m) && SortedRange(f.items, m, |f.items|)
    && forall k :: 0 <= k < j ==> f.items[k].value <= f.items[j].value
  }

  /** The array after comparison `j` of a pass over the first `m` bars:
      the pair exchanged if the left value is strictly larger, and both
      labelled default, except that the right one becomes sorted at the
      pass's last comparison (`j == m - 2`). */
  function Next(f: Frame, j: int, m: int): (g: Frame)
    requires f.Valid() && 0 <= j && j + 1 < |f.items|
    ensures g.Valid() && |g.items| == |f.items|
  {
    Frame(if f.items[j].value > f.items[j + 1].value then f.items[j := f.items[j + 1]][j + 1 := f.items[j]] else f.items,
          f.labels[j := Default][j + 1 := if j + 2 == m then Sorted else Default])
  }

  /** The snapshots of one turn of the inner loop after its cancel check:
      `j` and `j + 1` marked as compared; then, only if the left value is
      strictly larger, the two exchanged; then the array `Next` with the
      pair unmarked. */
  function CompareFrames(f: Frame, j: int, m: int): (s: seq<Frame>)
    requires f.Valid() && 0 <= j && j + 1 < |f.items|
    ensures |s| == if f.items[j].value > f.items[j + 1].value then 3 else 2
  {
    var marked := f.labels[j := Comparing][j + 1 := Comparing];
    if f.items[j].value > f.items[j + 1].value then
      [Frame(f.items, marked), Frame(Next(f, j, m).items, marked), Next(f, j, m)]
    else
      [Frame(f.items, marked), Next(f, j, m)]
  }

  /** How the inner loop ends: the array, whether any comparison
      exchanged, the snapshots, the cancel reads so far, and whether a
      read found the flag set. */
  datatype PassRun = PassRun(last: Frame, swapped: bool, snaps: seq<Frame>, checks: nat, cancelled: bool)

  /** The inner loop from comparison `j` on, of a pass over the first `m`
      bars; `checks` cancel reads happened before it. */
  function Inner(f: Frame, j: nat, m: nat, cancel: nat -> bool, checks: nat): (p: PassRun)
    requires f.Valid() && j < m <= |f.items|
    ensures p.last.Valid() && |p.last.items| == |f.items|
    decreases m - j
  {
    if j + 1 == m then
      PassRun(f, false, [], checks, false)
    else if cancel(checks) then
      PassRun(f, false, [], checks + 1, true)
    else
      var rest := Inner(Next(f, j, m), j + 1, m, cancel, checks + 1);
      rest.(swapped := rest.swapped || f.items[j].value > f.items[j + 1].value, snaps := CompareFrames(f, j, m) + rest.snaps)
  }

  /** The loop's exit: every bar labelled sorted in one last snapshot. */
  function Finish(f: Frame, checks: nat): (r: Run)
    requires f.Valid()
    ensures r.last.Valid() && r.last.items == f.items && AllIn(r.last.labels, Sorted)
  {
    var done := Frame(f.items, Fill(|f.items|, Sorted));
    Run(Completed, done, [done], checks)
  }

  /** The outer loop from the pass whose unsorted prefix has length `m`. */
  function Passes(f: Frame, m: nat, cancel: nat -> bool, checks: nat): (r: Run)
    requires f.Valid() && m <= |f.items|
    decreases m, 1
  {
    if m <= 1 then Finish(f, checks) else Pass(f, m, cancel, checks)
  }

  /** One pass over the unsorted prefix of length `m`, then the rest:
      stop if cancelled, relabel and stop if nothing was exchanged, and
      otherwise go on with a prefix one shorter. */
  function Pass(f: Frame, m: nat, cancel: nat -> bool, checks: nat): (r: Run)
    requires f.Valid() && 1 < m <= |f.items|
    decreases m, 0
  {
    var p := Inner(f, 0, m, cancel, checks);
    if p.cancelled then
      Run(Cancelled, p.last, p.snaps, p.checks)
    else if !p.swapped then
      Prepend(p.snaps, Finish(p.last, p.checks))
    else
      Prepend(p.snaps, Passes(p.last, m - 1, cancel, p.checks))
  }

  /** One call of `bubbleSort` on the component's `data`, given whether
      `isSorting` was already set: all labels reset to default and shown,
      then the passes. */
  function BubbleSort(sorting: bool, data: Frame, cancel: nat -> bool): (r: Run)
    requires data.Valid()
    ensures sorting ==> r == Run(Ignored, data, [], 0)
  {
    if sorting then
      Run(Ignored, data, [], 0)
    else
      var w := Frame(data.items, Fill(|data.items|, Default));
      Prepend([w], Passes(w, |w.items|, cancel, 0))
  }

  // ---------------------------------------------------------------------
  // One comparison

  /** No green bar before `b`, and from `b` on a sorted run that dominates
      everything before it: then every green bar is in its final place. */
  lemma SuffixSettled(f: Frame, b: int)
    requires f.Valid() && 0 <= b <= |f.items|
    requires forall k :: 0 <= k < b ==> f.labels[k] != Sorted
    requires Partitioned(f.items, b) && SortedRange(f.items, b, |f.items|)
    ensures Settled(f)
  {
  }

  /** A comparison moves bars only by exchanging the compared pair. */
  lemma NextItems(f: Frame, j: int, m: int)
    requires f.Valid() && 0 <= j && j + 1 < |f.items|
    ensures Next(f, j, m).items == if f.items[j].value > f.items[j + 1].value then Swap(f.items, j, j + 1) else f.items
    ensures multiset(Next(f, j, m).items) == multiset(f.items)
  {
    if f.items[j].value > f.items[j + 1].value {
      assert Next(f, j, m).items == Swap(f.items, j, j + 1);
      SwapPermutes(f.items, j, j + 1);
    }
  }

  /** Every snapshot of a comparison holds the bars it started with. */
  lemma ComparePermutes(f: Frame, j: int, m: int)
    requires f.Valid() && 0 <= j && j + 1 < |f.items|
    ensures AllPermute(CompareFrames(f, j, m), multiset(f.items))
    ensures Next(f, j, m).items
            == if f.items[j].value > f.items[j + 1].value then Swap(f.items, j, j + 1) else f.items
  {
    NextItems(f, j, m);
    var s := CompareFrames(f, j, m);
    forall k | 0 <= k < |s|
      ensures s[k].Valid() && multiset(s[k].items) == multiset(f.items)
    {
      assert s[k].items == f.items || s[k].items == Next(f, j, m).items;
    }
  }

  /** A comparison carries the larger of the pair to the right, and at
      the end of the pass labels it sorted. */
  lemma CompareState(f: Frame, j: int, m: int)
    requires PassState(f, j, m) && j + 1 < m
    ensures PassState(Next(f, j, m), j + 1, m)
  {
    var g := Next(f, j, m);
    forall p, q | 0 <= p < m <= q < |g.items|
      ensures g.items[p].value <= g.items[q].value
    {
      assert g.items[q] == f.items[q];
      assert g.items[p] == f.items[p] || g.items[p] == f.items[j] || g.items[p] == f.items[j + 1];
    }
  }

  /** While the pair is marked, whether or not exchanged, the green
      bars are those of the suffix, still in their final place. */
  lemma MarkedSettled(f: Frame, j: int, m: int)
    requires PassState(f, j, m) && j + 1 < m
    ensures var s := CompareFrames(f, j, m);
      forall k :: 0 <= k < |s| - 1 ==> Settled(s[k])
  {
    var s := CompareFrames(f, j, m);
    SuffixSettled(s[0], m);
    if |s| == 3 {
      SuffixSettled(s[1], m);
    }
  }

  /** Once unmarked, the right bar of the pass's last pair is green and a
      largest of the prefix, hence in its final place. */
  lemma UnmarkedSettled(f: Frame, j: int, m: int)
    requires PassState(f, j, m) && j + 1 < m
    ensures Settled(Next(f, j, m))
  {
    var g := Next(f, j, m);
    CompareState(f, j, m);
    if j + 2 == m {
      assert Partitioned(g.items, m - 1) && SortedRange(g.items, m - 1, |g.items|) by {
        assert forall k :: 0 <= k < m - 1 ==> g.items[k].value <= g.items[m - 1].value;
      }
      SuffixSettled(g, m - 1);
    } else {
      SuffixSettled(g, m);
    }
  }

  /** No snapshot of a comparison shows a green bar out of place. */
  lemma CompareSettled(f: Frame, j: int, m: int)
    requires PassState(f, j, m) && j + 1 < m
    ensures AllSettled(CompareFrames(f, j, m))
  {
    MarkedSettled(f, j, m);
    UnmarkedSettled(f, j, m);
  }

  /** A comparison never reorders two bars of equal value. */
  lemma CompareStable(f: Frame, j: int, m: int, rank: Item -> int)
    requires f.Valid() && 0 <= j && j + 1 < |f.items| && InOrderBy(f.items, rank)
    ensures InOrderBy(Next(f, j, m).items, rank)
  {
    if f.items[j].value > f.items[j + 1].value {
      AdjacentSwapOrder(f.items, j, rank);
    }
  }

  /** A bar no larger than its right neighbour extends a sorted run
      that starts at that neighbour. */
  lemma SortedCons(s: seq<Item>, j: int, m: int)
    requires 0 <= j && j + 1 < m <= |s| && SortedRange(s, j + 1, m)
    requires s[j].value <= s[j + 1].value
    ensures SortedRange(s, j, m)
  {
  }

  // ---------------------------------------------------------------------
  // One pass

  /** A pass keeps every bar. */
  lemma {:induction false} InnerKeeps(f: Frame, j: nat, m: nat, cancel: nat -> bool, checks: nat)
    requires f.Valid() && j < m <= |f.items|
    ensures multiset(Inner(f, j, m, cancel, checks).last.items) == multiset(f.items)
    decreases m - j
  {
    if j + 1 < m && !cancel(checks) {
      NextItems(f, j, m);
      InnerKeeps(Next(f, j, m), j + 1, m, cancel, checks + 1);
    }
  }

  /** Every snapshot of a pass holds the bars it started with. */
  lemma {:induction false} InnerPermutes(f: Frame, j: nat, m: nat, cancel: nat -> bool, checks: nat)
    requires f.Valid() && j < m <= |f.items|
    ensures AllPermute(Inner(f, j, m, cancel, checks).snaps, multiset(f.items))
    decreases m - j
  {
    if j + 1 < m && !cancel(checks) {
      ComparePermutes(f, j, m);
      NextItems(f, j, m);
      InnerPermutes(Next(f, j, m), j + 1, m, cancel, checks + 1);
      AllPermuteAppend(CompareFrames(f, j, m), Inner(Next(f, j, m), j + 1, m, cancel, checks + 1).snaps, multiset(f.items));
    }
  }

  /** A pass leaves the array it last showed. */
  lemma {:induction false} InnerLast(f: Frame, j: nat, m: nat, cancel: nat -> bool, checks: nat)
    requires f.Valid() && j < m <= |f.items|
    ensures var p := Inner(f, j, m, cancel, checks);
      p.last == (if p.snaps == [] then f else Last(p.snaps))
    decreases m - j
  {
    if j + 1 < m && !cancel(checks) {
      InnerLast(Next(f, j, m), j + 1, m, cancel, checks + 1);
    }
  }

  /** A pass reads the cancel flag once per comparison; it reads all
      `m - 1 - j` of them unless one finds the flag set. */
  lemma {:induction false} InnerChecks(f: Frame, j: nat, m: nat, cancel: nat -> bool, checks: nat)
    requires f.Valid() && j < m <= |f.items|
    ensures var p := Inner(f, j, m, cancel, checks);
      && ChecksLog(cancel, checks, p.checks, p.cancelled)
      && (!p.cancelled ==> p.checks == checks + m - 1 - j)
    decreases m - j
  {
    if j + 1 < m && !cancel(checks) {
      InnerChecks(Next(f, j, m), j + 1, m, cancel, checks + 1);
    }
  }

  /** A completed pass leaves a largest bar of the prefix at its end,
      labelled sorted; every snapshot shows green only on settled bars. */
  lemma {:induction false} InnerState(f: Frame, j: nat, m: nat, cancel: nat -> bool, checks: nat)
    requires PassState(f, j, m)
    ensures var p := Inner(f, j, m, cancel, checks);
      && AllSettled(p.snaps)
      && (p.cancelled ==> SplitAt(p.last.labels, m) && Partitioned(p.last.items, m)
                          && SortedRange(p.last.items, m, |f.items|))
      && (!p.cancelled ==> PassState(p.last, m - 1, m))
    decreases m - j
  {
    if j + 1 < m && !cancel(checks) {
      var step := CompareFrames(f, j, m);
      CompareState(f, j, m);
      CompareSettled(f, j, m);
      InnerState(Next(f, j, m), j + 1, m, cancel, checks + 1);
      AllSettledAppend(step, Inner(Next(f, j, m), j + 1, m, cancel, checks + 1).snaps);
    }
  }

  /** A pass never reorders two bars of equal value. */
  lemma {:induction false} InnerStable(f: Frame, j: nat, m: nat, cancel: nat -> bool, checks: nat, rank: Item -> int)
    requires f.Valid() && j < m <= |f.items| && InOrderBy(f.items, rank)
    ensures InOrderBy(Inner(f, j, m, cancel, checks).last.items, rank)
    decreases m - j
  {
    if j + 1 < m && !cancel(checks) {
      CompareStable(f, j, m, rank);
      InnerStable(Next(f, j, m), j + 1, m, cancel, checks + 1, rank);
    }
  }

  /** A pass exchanges nothing exactly when it finds positions `j` to
      `m - 1` already in order (unless cancelled first), and then it moves
      no bar. */
  lemma {:induction false} InnerNoSwap(f: Frame, j: nat, m: nat, cancel: nat -> bool, checks: nat)
    requires f.Valid() && j < m <= |f.items|
    ensures var p := Inner(f, j, m, cancel, checks);
      && (!p.swapped ==> p.last.items == f.items)
      && (!p.cancelled && !p.swapped ==> SortedRange(f.items, j, m))
      && (SortedRange(f.items, j, m) ==> !p.swapped)
    decreases m - j
  {
    if j + 1 < m && !cancel(checks) {
      ComparePermutes(f, j, m);
      InnerNoSwap(Next(f, j, m), j + 1, m, cancel, checks + 1);
      var p := Inner(f, j, m, cancel, checks);
      if !p.cancelled && !p.swapped {
        SortedCons(f.items, j, m);
      }
    }
  }

  // ---------------------------------------------------------------------
  // All passes

  /** The sorted prefix joined to a dominating sorted suffix is sorted. */
  lemma JoinSorted(s: seq<Item>, m: int)
    requires 0 <= m <= |s| && SortedRange(s, 0, m) && Partitioned(s, m) && SortedRange(s, m, |s|)
    ensures SortedByValue(s)
  {
  }

  /** The passes only exchange bars, and end completed or cancelled. */
  lemma {:induction false} PassPermutes(f: Frame, m: nat, cancel: nat -> bool, checks: nat)
    requires f.Valid() && 1 < m <= |f.items|
    ensures var r := Pass(f, m, cancel, checks);
      && r.last.Valid() && AllPermute(r.trace, multiset(f.items))
      && (r.outcome.Completed? || r.outcome.Cancelled?)
    decreases m, 0
  {
    var p := Inner(f, 0, m, cancel, checks);
    InnerPermutes(f, 0, m, cancel, checks);
    InnerKeeps(f, 0, m, cancel, checks);
    if !p.cancelled {
      var rest := if p.swapped then Passes(p.last, m - 1, cancel, p.checks) else Finish(p.last, p.checks);
      if p.swapped {
        PassesPermute(p.last, m - 1, cancel, p.checks);
      }
      AllPermuteAppend(p.snaps, rest.trace, multiset(f.items));
    }
  }

  /** The passes only exchange bars, and end completed or cancelled. */
  lemma {:induction false} PassesPermute(f: Frame, m: nat, cancel: nat -> bool, checks: nat)
    requires f.Valid() && m <= |f.items|
    ensures var r := Passes(f, m, cancel, checks);
      && r.last.Valid() && AllPermute(r.trace, multiset(f.items))
      && (r.outcome.Completed? || r.outcome.Cancelled?)
    decreases m, 1
  {
    if m > 1 {
      PassPermutes(f, m, cancel, checks);
    }
  }
  /** The passes end on the last snapshot they showed, if any. */
  lemma {:induction false} PassLast(f: Frame, m: nat, cancel: nat -> bool, checks: nat)
    requires f.Valid() && 1 < m <= |f.items|
    ensures var r := Pass(f, m, cancel, checks);
      r.last == (if r.trace == [] then f else Last(r.trace))
    decreases m, 0
  {
    var p := Inner(f, 0, m, cancel, checks);
    InnerLast(f, 0, m, cancel, checks);
    if !p.cancelled && p.swapped {
      PassesLast(p.last, m - 1, cancel, p.checks);
    }
  }

  /** The passes end on the last snapshot they showed, if any. */
  lemma {:induction false} PassesLast(f: Frame, m: nat, cancel: nat -> bool, checks: nat)
    requires f.Valid() && m <= |f.items|
    ensures var r := Passes(f, m, cancel, checks);
      r.last == (if r.trace == [] then f else Last(r.trace))
    decreases m, 1
  {
    if m > 1 {
      PassLast(f, m, cancel, checks);
    }
  }
  /** The passes read the cancel flag exactly as `ChecksLog` says. */
  lemma {:induction false} PassChecks(f: Frame, m: nat, cancel: nat -> bool, checks: nat)
    requires f.Valid() && 1 < m <= |f.items|
    ensures var r := Pass(f, m, cancel, checks);
      ChecksLog(cancel, checks, r.checks, r.outcome.Cancelled?)
    decreases m, 0
  {
    var p := Inner(f, 0, m, cancel, checks);
    InnerChecks(f, 0, m, cancel, checks);
    if !p.cancelled && p.swapped {
      var rest := Passes(p.last, m - 1, cancel, p.checks);
      PassesChecks(p.last, m - 1, cancel, p.checks);
      ChecksLogJoin(cancel, checks, p.checks, rest.checks, rest.outcome.Cancelled?);
    }
  }

  /** The passes read the cancel flag exactly as `ChecksLog` says. */
  lemma {:induction false} PassesChecks(f: Frame, m: nat, cancel: nat -> bool, checks: nat)
    requires f.Valid() && m <= |f.items|
    ensures var r := Passes(f, m, cancel, checks);
      ChecksLog(cancel, checks, r.checks, r.outcome.Cancelled?)
    decreases m, 1
  {
    if m > 1 {
      PassChecks(f, m, cancel, checks);
    }
  }
  /** Once the bars are sorted, the final relabel shows every bar green,
      and each is settled. */
  lemma FinishSettles(g: Frame, m: nat, checks: nat)
    requires g.Valid() && m <= |g.items|
    requires SortedRange(g.items, 0, m) && Partitioned(g.items, m) && SortedRange(g.items, m, |g.items|)
    ensures AllSettled(Finish(g, checks).trace) && SortedByValue(Finish(g, checks).last.items)
  {
    JoinSorted(g.items, m);
    SuffixSettled(Finish(g, checks).last, 0);
  }

  /** From a state whose unsorted prefix is dominated by a sorted, green
      suffix, the passes show green only on settled bars. */
  lemma {:induction false} PassSettles(f: Frame, m: nat, cancel: nat -> bool, checks: nat)
    requires f.Valid() && 1 < m <= |f.items|
    requires SplitAt(f.labels, m) && Partitioned(f.items, m) && SortedRange(f.items, m, |f.items|)
    ensures AllSettled(Pass(f, m, cancel, checks).trace)
    decreases m, 0
  {
    var p := Inner(f, 0, m, cancel, checks);
    InnerState(f, 0, m, cancel, checks);
    if !p.cancelled {
      if p.swapped {
        PassesSettle(p.last, m - 1, cancel, p.checks);
        AllSettledAppend(p.snaps, Passes(p.last, m - 1, cancel, p.checks).trace);
      } else {
        InnerNoSwap(f, 0, m, cancel, checks);
        FinishSettles(p.last, m, p.checks);
        AllSettledAppend(p.snaps, Finish(p.last, p.checks).trace);
      }
    }
  }

  /** From a state whose unsorted prefix is dominated by a sorted, green
      suffix, the passes show green only on settled bars. */
  lemma {:induction false} PassesSettle(f: Frame, m: nat, cancel: nat -> bool, checks: nat)
    requires f.Valid() && m <= |f.items|
    requires SplitAt(f.labels, m) && Partitioned(f.items, m) && SortedRange(f.items, m, |f.items|)
    ensures AllSettled(Passes(f, m, cancel, checks).trace)
    decreases m, 1
  {
    if m <= 1 {
      FinishSettles(f, m, checks);
    } else {
      PassSettles(f, m, cancel, checks);
    }
  }
  /** From the same kind of state, passes that complete leave the bars
      sorted by value and all green. */
  lemma {:induction false} PassSorts(f: Frame, m: nat, cancel: nat -> bool, checks: nat)
    requires f.Valid() && 1 < m <= |f.items|
    requires SplitAt(f.labels, m) && Partitioned(f.items, m) && SortedRange(f.items, m, |f.items|)
    ensures var r := Pass(f, m, cancel, checks);
      r.outcome.Completed? ==> SortedByValue(r.last.items) && AllIn(r.last.labels, Sorted)
    decreases m, 0
  {
    var p := Inner(f, 0, m, cancel, checks);
    InnerState(f, 0, m, cancel, checks);
    if !p.cancelled {
      if p.swapped {
        PassesSort(p.last, m - 1, cancel, p.checks);
      } else {
        InnerNoSwap(f, 0, m, cancel, checks);
        JoinSorted(p.last.items, m);
      }
    }
  }

  /** From the same kind of state, passes that complete leave the bars
      sorted by value and all green. */
  lemma {:induction false} PassesSort(f: Frame, m: nat, cancel: nat -> bool, checks: nat)
    requires f.Valid() && m <= |f.items|
    requires SplitAt(f.labels, m) && Partitioned(f.items, m) && SortedRange(f.items, m, |f.items|)
    ensures var r := Passes(f, m, cancel, checks);
      r.outcome.Completed? ==> SortedByValue(r.last.items) && AllIn(r.last.labels, Sorted)
    decreases m, 1
  {
    if m <= 1 {
      JoinSorted(f.items, m);
    } else {
      PassSorts(f, m, cancel, checks);
    }
  }
  /** The passes never reorder two bars of equal value. */
  lemma {:induction false} PassStable(f: Frame, m: nat, cancel: nat -> bool, checks: nat, rank: Item -> int)
    requires f.Valid() && 1 < m <= |f.items| && InOrderBy(f.items, rank)
    ensures InOrderBy(Pass(f, m, cancel, checks).last.items, rank)
    decreases m, 0
  {
    var p := Inner(f, 0, m, cancel, checks);
    InnerStable(f, 0, m, cancel, checks, rank);
    if !p.cancelled && p.swapped {
      PassesStable(p.last, m - 1, cancel, p.checks, rank);
    }
  }

  /** The passes never reorder two bars of equal value. */
  lemma {:induction false} PassesStable(f: Frame, m: nat, cancel: nat -> bool, checks: nat, rank: Item -> int)
    requires f.Valid() && m <= |f.items| && InOrderBy(f.items, rank)
    ensures InOrderBy(Passes(f, m, cancel, checks).last.items, rank)
    decreases m, 1
  {
    if m > 1 {
      PassStable(f, m, cancel, checks, rank);
    }
  }

  // ---------------------------------------------------------------------
  // The whole run

  /** A run shows the input with every label reset first, ends on its
      last snapshot, and every snapshot holds exactly the input's bars. */
  lemma BubbleSortPermutes(sorting: bool, data: Frame, cancel: nat -> bool)
    requires data.Valid() && !sorting
    ensures var r := BubbleSort(sorting, data, cancel);
      && r.trace != [] && r.trace[0] == Frame(data.items, Fill(|data.items|, Default))
      && r.last == Last(r.trace) && r.last.Valid()
      && AllPermute(r.trace, multiset(data.items))
      && (r.outcome.Completed? || r.outcome.Cancelled?)
  {
    var w := Frame(data.items, Fill(|data.items|, Default));
    PassesPermute(w, |w.items|, cancel, 0);
    PassesLast(w, |w.items|, cancel, 0);
    AllPermuteAppend([w], Passes(w, |w.items|, cancel, 0).trace, multiset(data.items));
  }

  /** A completed run leaves the bars sorted by value and all green, and
      no snapshot on the way shows a green bar out of its final place. */
  lemma BubbleSortSorts(sorting: bool, data: Frame, cancel: nat -> bool)
    requires data.Valid()
    ensures var r := BubbleSort(sorting, data, cancel);
      && (!sorting ==> AllSettled(r.trace))
      && (r.outcome.Completed? ==> SortedByValue(r.last.items) && AllIn(r.last.labels, Sorted))
  {
    if !sorting {
      var w := Frame(data.items, Fill(|data.items|, Default));
      PassesSettle(w, |w.items|, cancel, 0);
      PassesSort(w, |w.items|, cancel, 0);
      SuffixSettled(w, |w.items|);
      AllSettledAppend([w], Passes(w, |w.items|, cancel, 0).trace);
    }
  }

  /** Bubble sort is stable: any ranking under which the input's bars of
      equal value are in order still holds of the result. */
  lemma BubbleSortStable(sorting: bool, data: Frame, cancel: nat -> bool, rank: Item -> int)
    requires data.Valid() && InOrderBy(data.items, rank)
    ensures InOrderBy(BubbleSort(sorting, data, cancel).last.items, rank)
  {
    if !sorting {
      var w := Frame(data.items, Fill(|data.items|, Default));
      PassesStable(w, |w.items|, cancel, 0, rank);
    }
  }

  /** Bars of equal value leave in the order they came in, whatever that
      order was, whether the run completes or is cancelled. */
  lemma BubbleSortKeepsOrder(sorting: bool, data: Frame, cancel: nat -> bool)
    requires data.Valid() && DistinctIds(data.items)
    ensures InOrderBy(BubbleSort(sorting, data, cancel).last.items, PositionIn(data.items))
  {
    PositionRanks(data.items);
    BubbleSortStable(sorting, data, cancel, PositionIn(data.items));
  }

  /** A cancel read that finds the flag set ends the pass with nothing
      more shown: its snapshots are a prefix of the same pass's with the
      flag never set. A pass that is not cancelled is that pass exactly. */
  lemma {:induction false} InnerPrefix(f: Frame, j: nat, m: nat, cancel: nat -> bool, checks: nat)
    requires f.Valid() && j < m <= |f.items|
    ensures var p := Inner(f, j, m, cancel, checks);
      var q := Inner(f, j, m, Never, checks);
      && !q.cancelled
      && (p.cancelled ==> p.snaps <= q.snaps)
      && (!p.cancelled ==> p == q)
    decreases m - j
  {
    if j + 1 < m {
      InnerPrefix(Next(f, j, m), j + 1, m, cancel, checks + 1);
    }
  }

  /** A cancelled run of the passes shows a prefix of what the passes
      show with the flag never set; one that is not cancelled is that run. */
  lemma {:induction false} PassPrefix(f: Frame, m: nat, cancel: nat -> bool, checks: nat)
    requires f.Valid() && 1 < m <= |f.items|
    ensures var r := Pass(f, m, cancel, checks);
      var n := Pass(f, m, Never, checks);
      && (r.outcome.Cancelled? ==> r.trace <= n.trace)
      && (!r.outcome.Cancelled? ==> r == n)
    decreases m, 0
  {
    var p := Inner(f, 0, m, cancel, checks);
    InnerPrefix(f, 0, m, cancel, checks);
    if !p.cancelled && p.swapped {
      PassesPrefix(p.last, m - 1, cancel, p.checks);
    }
  }

  /** A cancelled run of the passes shows a prefix of what the passes
      show with the flag never set; one that is not cancelled is that run. */
  lemma {:induction false} PassesPrefix(f: Frame, m: nat, cancel: nat -> bool, checks: nat)
    requires f.Valid() && m <= |f.items|
    ensures var r := Passes(f, m, cancel, checks);
      var n := Passes(f, m, Never, checks);
      && (r.outcome.Cancelled? ==> r.trace <= n.trace)
      && (!r.outcome.Cancelled? ==> r == n)
    decreases m, 1
  {
    if m > 1 {
      PassPrefix(f, m, cancel, checks);
    }
  }

  /** The run stops early exactly when a cancel read finds the flag set;
      with the flag never set it always completes. */
  lemma BubbleSortCancel(sorting: bool, data: Frame, cancel: nat -> bool)
    requires data.Valid()
    ensures var r := BubbleSort(sorting, data, cancel);
      && ChecksLog(cancel, 0, r.checks, r.outcome.Cancelled?)
      && (!sorting && (forall k: nat :: !cancel(k)) ==> r.outcome.Completed?)
      && (r.outcome.Cancelled? ==> r.trace <= BubbleSort(sorting, data, Never).trace)
  {
    if !sorting {
      var w := Frame(data.items, Fill(|data.items|, Default));
      var r := BubbleSort(sorting, data, cancel);
      PassesChecks(w, |w.items|, cancel, 0);
      PassesPermute(w, |w.items|, cancel, 0);
      PassesPrefix(w, |w.items|, cancel, 0);
      if r.outcome.Cancelled? {
        assert cancel(r.checks - 1);
      }
    }
  }

  /** On input already in order the first pass finds nothing to exchange
      and the run ends after it: `n - 1` comparisons, no bar moved. */
  lemma BubbleSortEarlyExit(data: Frame, cancel: nat -> bool)
    requires data.Valid() && 2 <= |data.items| && SortedByValue(data.items)
    ensures var r := BubbleSort(false, data, cancel);
      r.outcome.Completed? ==> r.checks == |data.items| - 1 && r.last.items == data.items
  {
    var w := Frame(data.items, Fill(|data.items|, Default));
    var n := |w.items|;
    var p := Inner(w, 0, n, cancel, 0);
    InnerNoSwap(w, 0, n, cancel, 0);
    InnerChecks(w, 0, n, cancel, 0);
    assert Passes(w, n, cancel, 0) == Pass(w, n, cancel, 0);
    if !p.cancelled {
      assert Pass(w, n, cancel, 0) == Prepend(p.snaps, Finish(p.last, p.checks));
    }
  }
}
