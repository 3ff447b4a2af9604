/** `selectionSort` of the visualizer: for each position `i` in turn,
    scan the rest for the leftmost smallest bar, exchange it into place,
    and label position `i` sorted. The loops are recursive functions:
    `Scan` is the loop over `j`, and `Round` (one turn of the loop over `i`
    and the turns after it) and `Rounds` (the loop's test) together the
    loop over `i`. */
module SelectionSort {
  import opened Bars
  import opened Runs

  /** `m` is the leftmost position of a smallest value among positions
      `lo` up to `hi`. */
  predicate LeftmostMin(s: seq<Item>, lo: int, hi: int, m: int) {
    && 0 <= lo <= m < hi <= |s|
    && (forall k :: lo <= k < hi ==> s[m].value <= s[k].value)
    && (forall k :: lo <= k < m ==> s[m].value < s[k].value)
  }

  /** Exactly the positions before `b` are labelled sorted. */
  predicate SortedOnlyBelow(labels: seq<BarState>, b: int) {
    forall k :: 0 <= k < |labels| ==> (labels[k] == Sorted <==> k < b)
  }

  /** Labels during the scan of round `i`, before position `j` is looked
      at: sorted before `i`, `i` itself marked as compared, the minimum so
      far marked current (unless it is still `i`), the rest default. */
  predicate Scanning(labels: seq<BarState>, i: int, j: int, minIdx: int) {
    forall k :: 0 <= k < |labels| ==>
      labels[k] == (if k < i then Sorted else if k == i then Comparing
                    else if k < j && k == minIdx then Current else Default)
  }

  // ---------------------------------------------------------------------
  // The functions

  /** How the scan ends: the array, the position of the minimum found,
      the snapshots, the cancel reads so far, and whether one found the
      flag set. */
  datatype ScanRun = ScanRun(last: Frame, minIdx: nat, snaps: seq<Frame>, checks: nat, cancelled: bool)

  /** Position `j` looked at during the scan with `minIdx` the minimum so
      far: marked current as the new minimum (the previous minimum reset
      unless it is `i`) when its value is strictly smaller, reset otherwise. */
  function Resolve(f: Frame, i: nat, j: nat, minIdx: nat): (g: Frame)
    requires f.Valid() && j < |f.items| && minIdx < |f.items|
    ensures g.Valid() && g.items == f.items
  {
    var marked := f.labels[j := Comparing];
    if f.items[j].value < f.items[minIdx].value then
      Frame(f.items, (if minIdx != i then marked[minIdx := Default] else marked)[j := Current])
    else
      Frame(f.items, marked[j := Default])
  }

  /** The minimum after looking at position `j`. */
  function NextMin(f: Frame, j: nat, minIdx: nat): nat
    requires j < |f.items| && minIdx < |f.items|
  {
    if f.items[j].value < f.items[minIdx].value then j else minIdx
  }

  /** The scan of round `i` from position `j` on, with `minIdx` the
      minimum so far: each turn reads the cancel flag, shows `j` marked as
      compared, then shows it resolved. The scan only relabels. */
  function Scan(f: Frame, i: nat, j: nat, minIdx: nat, cancel: nat -> bool, checks: nat): (s: ScanRun)
    requires f.Valid() && i <= minIdx < j <= |f.items|
    ensures s.last.Valid() && s.last.items == f.items && i <= s.minIdx < |f.items|
    decreases |f.items| - j
  {
    if j == |f.items| then
      ScanRun(f, minIdx, [], checks, false)
    else if cancel(checks) then
      ScanRun(f, minIdx, [], checks + 1, true)
    else
      var g := Resolve(f, i, j, minIdx);
      var rest := Scan(g, i, j + 1, NextMin(f, j, minIdx), cancel, checks + 1);
      rest.(snaps := [Frame(f.items, f.labels[j := Comparing]), g] + rest.snaps)
  }

  /** Labels closing round `i`: position `i` sorted, and every compared
      or current label after it back to default. */
  function Settle(labels: seq<BarState>, i: int): (r: seq<BarState>)
    ensures |r| == |labels|
  {
    seq(|labels|, k requires 0 <= k < |labels| =>
      if k == i then Sorted
      else if k > i && (labels[k] == Comparing || labels[k] == Current) then Default
      else labels[k])
  }

  /** The array closing round `i` once the scan found minimum `m`: the
      two exchanged (unless `m` is `i`), position `i` labelled sorted, and
      the remaining marks cleared. */
  function Closed(g: Frame, i: nat, m: nat): (h: Frame)
    requires g.Valid() && i < |g.items| && m < |g.items|
    ensures h.Valid() && |h.items| == |g.items|
  {
    if m == i then
      Frame(g.items, Settle(g.labels, i))
    else
      Frame(g.items[i := g.items[m]][m := g.items[i]], Settle(g.labels[i := Comparing][m := Comparing], i))
  }

  /** The snapshots closing round `i`: unless `m` is `i`, both ends
      marked as compared, then exchanged; then the array `Closed`. */
  function Close(g: Frame, i: nat, m: nat): (s: seq<Frame>)
    requires g.Valid() && i < |g.items| && m < |g.items|
    ensures |s| == if m == i then 1 else 3
  {
    if m == i then
      [Closed(g, i, m)]
    else
      var marked := g.labels[i := Comparing][m := Comparing];
      [Frame(g.items, marked), Frame(Closed(g, i, m).items, marked), Closed(g, i, m)]
  }

  /** Round `i` of the outer loop and the rounds after it: the cancel
      check, position `i` marked as compared, the scan, the close, and on to
      round `i + 1`. */
  function Round(f: Frame, i: nat, cancel: nat -> bool, checks: nat): (r: Run)
    requires f.Valid() && i + 1 < |f.items|
    decreases |f.items| - i, 0
  {
    if cancel(checks) then
      Run(Cancelled, f, [], checks + 1)
    else
      var start := Frame(f.items, f.labels[i := Comparing]);
      var s := Scan(start, i, i + 1, i, cancel, checks + 1);
      if s.cancelled then
        Run(Cancelled, s.last, [start] + s.snaps, s.checks)
      else
        var close := Close(s.last, i, s.minIdx);
        Prepend([start] + s.snaps + close, Rounds(Closed(s.last, i, s.minIdx), i + 1, cancel, s.checks))
  }

  /** The outer loop from round `i`, then the final relabel of the last
      position; on an empty array that relabel indexes past the end and
      throws, so the run fails with nothing more shown. */
  function Rounds(f: Frame, i: nat, cancel: nat -> bool, checks: nat): (r: Run)
    requires f.Valid() && i <= |f.items|
    decreases |f.items| - i, 1
  {
    if i + 1 >= |f.items| then
      if |f.items| == 0 then
        Run(Failed, f, [], checks)
      else
        var done := Frame(f.items, f.labels[|f.items| - 1 := Sorted]);
        Run(Completed, done, [done], checks)
    else
      Round(f, i, cancel, checks)
  }

  /** One call of `selectionSort` on the component's `data`, given whether
      `isSorting` was already set: all labels reset to default and shown,
      then the rounds. */
  function SelectionSort(sorting: bool, data: Frame, cancel: nat -> bool): (r: Run)
    requires data.Valid()
    ensures sorting ==> r == Run(Ignored, data, [], 0)
  {
    if sorting then
      Run(Ignored, data, [], 0)
    else
      var w := Frame(data.items, Fill(|data.items|, Default));
      Prepend([w], Rounds(w, 0, cancel, 0))
  }

  // ---------------------------------------------------------------------
  // The scan

  /** The scan moves no bar. */
  lemma {:induction false} ScanKeeps(f: Frame, i: nat, j: nat, minIdx: nat, cancel: nat -> bool, checks: nat)
    requires f.Valid() && i <= minIdx < j <= |f.items|
    ensures var s := Scan(f, i, j, minIdx, cancel, checks);
      && (forall k :: 0 <= k < |s.snaps| ==> s.snaps[k].Valid() && s.snaps[k].items == f.items)
      && s.last == (if s.snaps == [] then f else Last(s.snaps))
    decreases |f.items| - j
  {
    if j < |f.items| && !cancel(checks) {
      var s := Scan(f, i, j, minIdx, cancel, checks);
      var g := Resolve(f, i, j, minIdx);
      var next := NextMin(f, j, minIdx);
      ScanKeeps(g, i, j + 1, next, cancel, checks + 1);
      var rest := Scan(g, i, j + 1, next, cancel, checks + 1);
      assert s.snaps == [Frame(f.items, f.labels[j := Comparing]), g] + rest.snaps;
      forall k | 0 <= k < |s.snaps|
        ensures s.snaps[k].Valid() && s.snaps[k].items == f.items
      {
        if k >= 2 {
          assert s.snaps[k] == rest.snaps[k - 2];
        }
      }
    }
  }

  /** The scan finds the leftmost smallest bar of positions `i` to `n - 1`:
      a later bar replaces the minimum only when strictly smaller. */
  lemma {:induction false} ScanMin(f: Frame, i: nat, j: nat, minIdx: nat, cancel: nat -> bool, checks: nat)
    requires f.Valid() && i <= minIdx < j <= |f.items|
    requires LeftmostMin(f.items, i, j, minIdx)
    ensures var s := Scan(f, i, j, minIdx, cancel, checks);
      !s.cancelled ==> LeftmostMin(f.items, i, |f.items|, s.minIdx)
    decreases |f.items| - j
  {
    if j < |f.items| && !cancel(checks) {
      ScanMin(Resolve(f, i, j, minIdx), i, j + 1, NextMin(f, j, minIdx), cancel, checks + 1);
    }
  }

  /** Looking at position `j` keeps the scan's labelling, with the new
      minimum so far marked. */
  lemma ResolveLabels(f: Frame, i: nat, j: nat, minIdx: nat)
    requires f.Valid() && i <= minIdx < j < |f.items|
    requires Scanning(f.labels, i, j, minIdx)
    ensures SortedOnlyBelow(f.labels, i) && SortedOnlyBelow(f.labels[j := Comparing], i)
    ensures SortedOnlyBelow(Resolve(f, i, j, minIdx).labels, i)
    ensures Scanning(Resolve(f, i, j, minIdx).labels, i, j + 1, NextMin(f, j, minIdx))
  {
  }

  /** During the scan exactly the bars before `i` are green; a finished
      scan leaves the minimum marked current. */
  lemma {:induction false} ScanLabels(f: Frame, i: nat, j: nat, minIdx: nat, cancel: nat -> bool, checks: nat)
    requires f.Valid() && i <= minIdx < j <= |f.items|
    requires Scanning(f.labels, i, j, minIdx)
    ensures var s := Scan(f, i, j, minIdx, cancel, checks);
      && (forall k :: 0 <= k < |s.snaps| ==> SortedOnlyBelow(s.snaps[k].labels, i))
      && SortedOnlyBelow(s.last.labels, i)
      && (!s.cancelled ==> Scanning(s.last.labels, i, |f.items|, s.minIdx))
    decreases |f.items| - j
  {
    if j < |f.items| && !cancel(checks) {
      var s := Scan(f, i, j, minIdx, cancel, checks);
      var g := Resolve(f, i, j, minIdx);
      var next := NextMin(f, j, minIdx);
      ResolveLabels(f, i, j, minIdx);
      ScanLabels(g, i, j + 1, next, cancel, checks + 1);
      var rest := Scan(g, i, j + 1, next, cancel, checks + 1);
      assert s.snaps == [Frame(f.items, f.labels[j := Comparing]), g] + rest.snaps;
      forall k | 0 <= k < |s.snaps|
        ensures SortedOnlyBelow(s.snaps[k].labels, i)
      {
        if k >= 2 {
          assert s.snaps[k] == rest.snaps[k - 2];
        }
      }
    }
  }

  /** The scan reads the cancel flag once per remaining position, unless
      a read finds it set. */
  lemma {:induction false} ScanChecks(f: Frame, i: nat, j: nat, minIdx: nat, cancel: nat -> bool, checks: nat)
    requires f.Valid() && i <= minIdx < j <= |f.items|
    ensures var s := Scan(f, i, j, minIdx, cancel, checks);
      && ChecksLog(cancel, checks, s.checks, s.cancelled)
      && (!s.cancelled ==> s.checks == checks + |f.items| - j)
    decreases |f.items| - j
  {
    if j < |f.items| && !cancel(checks) {
      ScanChecks(Resolve(f, i, j, minIdx), i, j + 1, NextMin(f, j, minIdx), cancel, checks + 1);
    }
  }

  // ---------------------------------------------------------------------
  // One round

  /** Exchanging two bars at or after `b` keeps the prefix before `b`
      sorted and no larger than anything after it. */
  lemma SwapAbove(s: seq<Item>, b: int, p: int, q: int)
    requires 0 <= b <= p < |s| && b <= q < |s|
    requires SortedRange(s, 0, b) && Partitioned(s, b)
    ensures SortedRange(Swap(s, p, q), 0, b) && Partitioned(Swap(s, p, q), b)
  {
    var r := Swap(s, p, q);
    forall x, y | 0 <= x < b <= y < |r|
      ensures r[x].value <= r[y].value
    {
      assert r[x] == s[x];
      assert r[y] == s[y] || r[y] == s[p] || r[y] == s[q];
    }
  }

  /** Bringing the leftmost minimum of the rest to position `i` extends
      the sorted prefix by one. */
  lemma SelectExtends(s: seq<Item>, i: int, m: int)
    requires 0 <= i && LeftmostMin(s, i, |s|, m)
    requires SortedRange(s, 0, i) && Partitioned(s, i)
    ensures SortedRange(Swap(s, i, m), 0, i + 1) && Partitioned(Swap(s, i, m), i + 1)
  {
    var r := Swap(s, i, m);
    SwapAbove(s, i, i, m);
    forall x, y | 0 <= x < y < i + 1
      ensures r[x].value <= r[y].value
    {
      if y == i {
        assert r[x] == s[x] && r[y] == s[m];
      }
    }
    forall x, y | 0 <= x < i + 1 <= y < |r|
      ensures r[x].value <= r[y].value
    {
      assert r[y] == s[y] || r[y] == s[i];
      if x == i {
        assert r[x] == s[m];
      }
    }
  }

  /** Labels sorted only before `b`, over a sorted prefix that dominates
      nothing after it: every green bar is in its final place. */
  lemma PrefixSettled(f: Frame, b: int)
    requires f.Valid() && 0 <= b <= |f.items| && SortedOnlyBelow(f.labels, b)
    requires SortedRange(f.items, 0, b) && Partitioned(f.items, b)
    ensures Settled(f)
  {
  }

  /** The close only exchanges the minimum into place. */
  lemma ClosePermutes(g: Frame, i: nat, m: nat)
    requires g.Valid() && i < |g.items| && m < |g.items|
    ensures AllPermute(Close(g, i, m), multiset(g.items)) && Closed(g, i, m).items == Swap(g.items, i, m)
  {
    var h := Closed(g, i, m);
    assert h.items == Swap(g.items, i, m);
    SwapPermutes(g.items, i, m);
    var c := Close(g, i, m);
    forall k | 0 <= k < |c|
      ensures c[k].Valid() && multiset(c[k].items) == multiset(g.items)
    {
      assert c[k].items == g.items || c[k].items == h.items;
    }
  }

  /** Closing round `i` on the leftmost minimum `m` extends the sorted,
      green prefix by one, and shows no green bar out of place. */
  lemma CloseSorts(g: Frame, i: nat, m: nat)
    requires g.Valid() && i < |g.items| && Scanning(g.labels, i, |g.items|, m)
    requires LeftmostMin(g.items, i, |g.items|, m) && SortedRange(g.items, 0, i) && Partitioned(g.items, i)
    ensures var c := Close(g, i, m);
      && AllSettled(c) && SortedBefore(Closed(g, i, m).labels, i + 1)
      && SortedRange(Closed(g, i, m).items, 0, i + 1) && Partitioned(Closed(g, i, m).items, i + 1)
  {
    var c := Close(g, i, m);
    var done := Closed(g, i, m);
    SelectExtends(g.items, i, m);
    assert done.items == Swap(g.items, i, m);
    assert SortedBefore(done.labels, i + 1);
    PrefixSettled(done, i + 1);
    if m != i {
      SwapAbove(g.items, i, i, m);
      PrefixSettled(c[0], i);
      PrefixSettled(c[1], i);
    }
  }

  /** The snapshots of a round up to the end of its scan show green only
      on the sorted prefix. */
  lemma ScanSettled(f: Frame, i: nat, cancel: nat -> bool, checks: nat)
    requires f.Valid() && i + 1 < |f.items|
    requires SortedBefore(f.labels, i) && SortedRange(f.items, 0, i) && Partitioned(f.items, i)
    ensures var start := Frame(f.items, f.labels[i := Comparing]);
      AllSettled([start] + Scan(start, i, i + 1, i, cancel, checks).snaps)
  {
    var start := Frame(f.items, f.labels[i := Comparing]);
    var s := Scan(start, i, i + 1, i, cancel, checks);
    assert Scanning(start.labels, i, i + 1, i);
    ScanKeeps(start, i, i + 1, i, cancel, checks);
    ScanLabels(start, i, i + 1, i, cancel, checks);
    PrefixSettled(start, i);
    forall k | 0 <= k < |s.snaps|
      ensures s.snaps[k].Valid() && Settled(s.snaps[k])
    {
      PrefixSettled(s.snaps[k], i);
    }
    AllSettledAppend([start], s.snaps);
  }

  /** Round `i` by itself, scan and close, shows green only on settled
      bars and hands on a sorted, dominated prefix one longer. */
  lemma RoundSettles(f: Frame, i: nat, cancel: nat -> bool, checks: nat)
    requires f.Valid() && i + 1 < |f.items|
    requires SortedBefore(f.labels, i) && SortedRange(f.items, 0, i) && Partitioned(f.items, i)
    ensures var start := Frame(f.items, f.labels[i := Comparing]);
      var s := Scan(start, i, i + 1, i, cancel, checks);
      && AllSettled([start] + s.snaps)
      && (!s.cancelled ==>
            var close := Close(s.last, i, s.minIdx);
            && AllSettled([start] + s.snaps + close)
            && Closed(s.last, i, s.minIdx).Valid() && |Closed(s.last, i, s.minIdx).items| == |f.items|
            && SortedBefore(Closed(s.last, i, s.minIdx).labels, i + 1)
            && SortedRange(Closed(s.last, i, s.minIdx).items, 0, i + 1) && Partitioned(Closed(s.last, i, s.minIdx).items, i + 1))
  {
    var start := Frame(f.items, f.labels[i := Comparing]);
    var s := Scan(start, i, i + 1, i, cancel, checks);
    ScanSettled(f, i, cancel, checks);
    if !s.cancelled {
      assert Scanning(start.labels, i, i + 1, i);
      ScanLabels(start, i, i + 1, i, cancel, checks);
      ScanMin(start, i, i + 1, i, cancel, checks);
      var close := Close(s.last, i, s.minIdx);
      CloseSorts(s.last, i, s.minIdx);
      AllSettledAppend([start] + s.snaps, close);
    }
  }

  // ---------------------------------------------------------------------
  // The rounds

  /** Round `i` by itself, scan and close, only exchanges bars. */
  lemma RoundKeeps(f: Frame, i: nat, cancel: nat -> bool, checks: nat)
    requires f.Valid() && i + 1 < |f.items|
    ensures var start := Frame(f.items, f.labels[i := Comparing]);
      var s := Scan(start, i, i + 1, i, cancel, checks);
      && AllPermute([start] + s.snaps, multiset(f.items))
      && (!s.cancelled ==>
            var close := Close(s.last, i, s.minIdx);
            && AllPermute([start] + s.snaps + close, multiset(f.items))
            && Closed(s.last, i, s.minIdx).Valid() && multiset(Closed(s.last, i, s.minIdx).items) == multiset(f.items))
  {
    var bag := multiset(f.items);
    var start := Frame(f.items, f.labels[i := Comparing]);
    var s := Scan(start, i, i + 1, i, cancel, checks);
    ScanKeeps(start, i, i + 1, i, cancel, checks);
    AllPermuteAppend([start], s.snaps, bag);
    if !s.cancelled {
      var close := Close(s.last, i, s.minIdx);
      ClosePermutes(s.last, i, s.minIdx);
      AllPermuteAppend([start] + s.snaps, close, bag);
    }
  }

  /** The rounds only exchange bars. */
  lemma {:induction false} RoundPermutes(f: Frame, i: nat, cancel: nat -> bool, checks: nat)
    requires f.Valid() && i + 1 < |f.items|
    ensures var r := Round(f, i, cancel, checks);
      && r.last.Valid() && AllPermute(r.trace, multiset(f.items))
      && (r.outcome.Completed? || r.outcome.Cancelled?)
    decreases |f.items| - i, 0
  {
    if !cancel(checks) {
      var start := Frame(f.items, f.labels[i := Comparing]);
      var s := Scan(start, i, i + 1, i, cancel, checks + 1);
      RoundKeeps(f, i, cancel, checks + 1);
      if !s.cancelled {
        var close := Close(s.last, i, s.minIdx);
        RoundsPermute(Closed(s.last, i, s.minIdx), i + 1, cancel, s.checks);
        AllPermuteAppend([start] + s.snaps + close, Rounds(Closed(s.last, i, s.minIdx), i + 1, cancel, s.checks).trace, multiset(f.items));
      }
    }
  }

  /** The rounds only exchange bars; they fail exactly on an empty array. */
  lemma {:induction false} RoundsPermute(f: Frame, i: nat, cancel: nat -> bool, checks: nat)
    requires f.Valid() && i <= |f.items|
    ensures var r := Rounds(f, i, cancel, checks);
      && r.last.Valid() && AllPermute(r.trace, multiset(f.items))
      && !r.outcome.Ignored? && (r.outcome.Failed? <==> |f.items| == 0)
    decreases |f.items| - i, 1
  {
    if i + 1 < |f.items| {
      RoundPermutes(f, i, cancel, checks);
    }
  }

  /** The rounds end on the last snapshot they showed, if any. */
  lemma {:induction false} RoundLast(f: Frame, i: nat, cancel: nat -> bool, checks: nat)
    requires f.Valid() && i + 1 < |f.items|
    ensures var r := Round(f, i, cancel, checks);
      r.last == (if r.trace == [] then f else Last(r.trace))
    decreases |f.items| - i, 0
  {
    if !cancel(checks) {
      var start := Frame(f.items, f.labels[i := Comparing]);
      var s := Scan(start, i, i + 1, i, cancel, checks + 1);
      ScanKeeps(start, i, i + 1, i, cancel, checks + 1);
      if !s.cancelled {
        var close := Close(s.last, i, s.minIdx);
        var rest := Rounds(Closed(s.last, i, s.minIdx), i + 1, cancel, s.checks);
        RoundsLast(Closed(s.last, i, s.minIdx), i + 1, cancel, s.checks);
        if rest.trace != [] {
          assert Last([start] + s.snaps + close + rest.trace) == Last(rest.trace);
        } else {
          assert Last([start] + s.snaps + close + rest.trace) == Last(close);
        }
      }
    }
  }

  /** The rounds end on the last snapshot they showed, if any. */
  lemma {:induction false} RoundsLast(f: Frame, i: nat, cancel: nat -> bool, checks: nat)
    requires f.Valid() && i <= |f.items|
    ensures var r := Rounds(f, i, cancel, checks);
      r.last == (if r.trace == [] then f else Last(r.trace))
    decreases |f.items| - i, 1
  {
    if i + 1 < |f.items| {
      RoundLast(f, i, cancel, checks);
    }
  }

  /** Cancel reads of `t` rounds that all complete: the round's own read
      plus one per bar it scans, `t` of them in the first round. */
  function Reads(t: nat): nat {
    if t == 0 then 0 else t + 1 + Reads(t - 1)
  }

  /** `t` completed rounds read the cancel flag `t * (t + 3) / 2` times. */
  lemma {:induction false} ReadsClosed(t: nat)
    ensures 2 * Reads(t) == t * (t + 3)
  {
    if t > 0 {
      ReadsClosed(t - 1);
      assert (t - 1) * (t + 2) + 2 * (t + 1) == t * (t + 3);
    }
  }

  /** Round `i` by itself reads the flag once, then once per bar it
      scans, unless a read finds it set. */
  lemma RoundReads(f: Frame, i: nat, cancel: nat -> bool, checks: nat)
    requires f.Valid() && i + 1 < |f.items| && !cancel(checks)
    ensures var start := Frame(f.items, f.labels[i := Comparing]);
      var s := Scan(start, i, i + 1, i, cancel, checks + 1);
      && ChecksLog(cancel, checks, s.checks, s.cancelled)
      && (!s.cancelled ==> s.checks == checks + 1 + (|f.items| - 1 - i))
  {
    var start := Frame(f.items, f.labels[i := Comparing]);
    var s := Scan(start, i, i + 1, i, cancel, checks + 1);
    ScanChecks(start, i, i + 1, i, cancel, checks + 1);
    ChecksLogJoin(cancel, checks, checks + 1, s.checks, s.cancelled);
  }

  /** The rounds read the cancel flag as `ChecksLog` says. */
  lemma {:induction false} RoundChecks(f: Frame, i: nat, cancel: nat -> bool, checks: nat)
    requires f.Valid() && i + 1 < |f.items|
    ensures var r := Round(f, i, cancel, checks);
      ChecksLog(cancel, checks, r.checks, r.outcome.Cancelled?)
    decreases |f.items| - i, 0
  {
    if !cancel(checks) {
      var start := Frame(f.items, f.labels[i := Comparing]);
      var s := Scan(start, i, i + 1, i, cancel, checks + 1);
      RoundReads(f, i, cancel, checks);
      if !s.cancelled {
        var close := Close(s.last, i, s.minIdx);
        var rest := Rounds(Closed(s.last, i, s.minIdx), i + 1, cancel, s.checks);
        RoundsChecks(Closed(s.last, i, s.minIdx), i + 1, cancel, s.checks);
        ChecksLogJoin(cancel, checks, s.checks, rest.checks, rest.outcome.Cancelled?);
      }
    }
  }

  /** The rounds read the cancel flag as `ChecksLog` says. */
  lemma {:induction false} RoundsChecks(f: Frame, i: nat, cancel: nat -> bool, checks: nat)
    requires f.Valid() && i <= |f.items|
    ensures var r := Rounds(f, i, cancel, checks);
      ChecksLog(cancel, checks, r.checks, r.outcome.Cancelled?)
    decreases |f.items| - i, 1
  {
    if i + 1 < |f.items| {
      RoundChecks(f, i, cancel, checks);
    }
  }

  /** A round that is not cancelled reads the flag once, then once per
      position it scans, and goes on with round `i + 1`. */
  lemma RoundContinues(f: Frame, i: nat, cancel: nat -> bool, checks: nat) returns (g: Frame, c: nat)
    requires f.Valid() && i + 1 < |f.items| && !Round(f, i, cancel, checks).outcome.Cancelled?
    ensures g.Valid() && |g.items| == |f.items| && c == checks + 1 + (|f.items| - 1 - i)
    ensures Round(f, i, cancel, checks).outcome == Rounds(g, i + 1, cancel, c).outcome
    ensures Round(f, i, cancel, checks).checks == Rounds(g, i + 1, cancel, c).checks
  {
    var start := Frame(f.items, f.labels[i := Comparing]);
    var s := Scan(start, i, i + 1, i, cancel, checks + 1);
    RoundReads(f, i, cancel, checks);
    g, c := Closed(s.last, i, s.minIdx), s.checks;
  }

  /** From round `i` a run that is not cancelled reads the flag
      `Reads(n - 1 - i)` times. */
  lemma {:induction false} RoundCount(f: Frame, i: nat, cancel: nat -> bool, checks: nat)
    requires f.Valid() && i + 1 < |f.items|
    ensures var r := Round(f, i, cancel, checks);
      !r.outcome.Cancelled? ==> r.checks == checks + Reads(|f.items| - 1 - i)
    decreases |f.items| - i, 0
  {
    if !Round(f, i, cancel, checks).outcome.Cancelled? {
      var g, c := RoundContinues(f, i, cancel, checks);
      RoundsCount(g, i + 1, cancel, c);
      var t := |f.items| - 1 - i;
      assert Reads(t) == t + 1 + Reads(t - 1);
    }
  }

  /** From round `i` a run that is not cancelled reads the flag
      `Reads(n - 1 - i)` times. */
  lemma {:induction false} RoundsCount(f: Frame, i: nat, cancel: nat -> bool, checks: nat)
    requires f.Valid() && i < |f.items|
    ensures var r := Rounds(f, i, cancel, checks);
      !r.outcome.Cancelled? ==> r.checks == checks + Reads(|f.items| - 1 - i)
    decreases |f.items| - i, 1
  {
    if i + 1 < |f.items| {
      RoundCount(f, i, cancel, checks);
    }
  }

  /** From a sorted, dominated prefix labelled so, the rounds show green
      only on settled bars, and a completed run leaves every bar sorted by
      value and green. */
  lemma {:induction false} RoundSorts(f: Frame, i: nat, cancel: nat -> bool, checks: nat)
    requires f.Valid() && i + 1 < |f.items|
    requires SortedBefore(f.labels, i) && SortedRange(f.items, 0, i) && Partitioned(f.items, i)
    ensures var r := Round(f, i, cancel, checks);
      && AllSettled(r.trace)
      && (r.outcome.Completed? ==> SortedByValue(r.last.items) && AllIn(r.last.labels, Sorted))
    decreases |f.items| - i, 0
  {
    if !cancel(checks) {
      var start := Frame(f.items, f.labels[i := Comparing]);
      var s := Scan(start, i, i + 1, i, cancel, checks + 1);
      RoundSettles(f, i, cancel, checks + 1);
      if !s.cancelled {
        var close := Close(s.last, i, s.minIdx);
        RoundsSort(Closed(s.last, i, s.minIdx), i + 1, cancel, s.checks);
        AllSettledAppend([start] + s.snaps + close, Rounds(Closed(s.last, i, s.minIdx), i + 1, cancel, s.checks).trace);
      }
    }
  }

  /** From a sorted, dominated prefix labelled so, the rounds show green
      only on settled bars, and a completed run leaves every bar sorted by
      value and green. */
  lemma {:induction false} RoundsSort(f: Frame, i: nat, cancel: nat -> bool, checks: nat)
    requires f.Valid() && i <= |f.items|
    requires SortedBefore(f.labels, i) && SortedRange(f.items, 0, i) && Partitioned(f.items, i)
    ensures var r := Rounds(f, i, cancel, checks);
      && AllSettled(r.trace)
      && (r.outcome.Completed? ==> SortedByValue(r.last.items) && AllIn(r.last.labels, Sorted))
    decreases |f.items| - i, 1
  {
    var n := |f.items|;
    if i + 1 >= n {
      if n > 0 {
        var done := Frame(f.items, f.labels[n - 1 := Sorted]);
        assert SortedByValue(f.items) by {
          if i == n - 1 {
            assert forall x :: 0 <= x < n - 1 ==> f.items[x].value <= f.items[n - 1].value;
          }
        }
        assert AllIn(done.labels, Sorted);
        assert Settled(done);
      }
    } else {
      RoundSorts(f, i, cancel, checks);
    }
  }

  // ---------------------------------------------------------------------
  // The whole run

  /** A run shows the input with every label reset first, ends on its
      last snapshot, every snapshot holds exactly the input's bars, and it
      fails exactly on an empty array. */
  lemma SelectionSortPermutes(sorting: bool, data: Frame, cancel: nat -> bool)
    requires data.Valid() && !sorting
    ensures var r := SelectionSort(sorting, data, cancel);
      && r.trace != [] && r.trace[0] == Frame(data.items, Fill(|data.items|, Default))
      && r.last == Last(r.trace) && r.last.Valid()
      && AllPermute(r.trace, multiset(data.items))
      && !r.outcome.Ignored? && (r.outcome.Failed? <==> |data.items| == 0)
  {
    var w := Frame(data.items, Fill(|data.items|, Default));
    RoundsPermute(w, 0, cancel, 0);
    RoundsLast(w, 0, cancel, 0);
    AllPermuteAppend([w], Rounds(w, 0, cancel, 0).trace, multiset(data.items));
  }

  /** A completed run leaves the bars sorted by value and all green, and
      no snapshot on the way shows a green bar out of its final place. */
  lemma SelectionSortSorts(sorting: bool, data: Frame, cancel: nat -> bool)
    requires data.Valid()
    ensures var r := SelectionSort(sorting, data, cancel);
      && (!sorting ==> AllSettled(r.trace))
      && (r.outcome.Completed? ==> SortedByValue(r.last.items) && AllIn(r.last.labels, Sorted))
  {
    if !sorting {
      var w := Frame(data.items, Fill(|data.items|, Default));
      RoundsSort(w, 0, cancel, 0);
      PrefixSettled(w, 0);
      AllSettledAppend([w], Rounds(w, 0, cancel, 0).trace);
    }
  }

  /** A cancel read that finds the flag set ends the scan with nothing
      more shown: its snapshots are a prefix of the same scan's with the
      flag never set. A scan that is not cancelled is that scan exactly. */
  lemma {:induction false} ScanPrefix(f: Frame, i: nat, j: nat, minIdx: nat, cancel: nat -> bool, checks: nat)
    requires f.Valid() && i <= minIdx < j <= |f.items|
    ensures var s := Scan(f, i, j, minIdx, cancel, checks);
      var t := Scan(f, i, j, minIdx, Never, checks);
      && !t.cancelled
      && (s.cancelled ==> s.snaps <= t.snaps)
      && (!s.cancelled ==> s == t)
    decreases |f.items| - j
  {
    if j < |f.items| {
      ScanPrefix(Resolve(f, i, j, minIdx), i, j + 1, NextMin(f, j, minIdx), cancel, checks + 1);
    }
  }

  /** A cancelled run of the rounds shows a prefix of what the rounds show
      with the flag never set; one that is not cancelled is that run. */
  lemma {:induction false} RoundPrefix(f: Frame, i: nat, cancel: nat -> bool, checks: nat)
    requires f.Valid() && i + 1 < |f.items|
    ensures var r := Round(f, i, cancel, checks);
      var n := Round(f, i, Never, checks);
      && (r.outcome.Cancelled? ==> r.trace <= n.trace)
      && (!r.outcome.Cancelled? ==> r == n)
    decreases |f.items| - i, 0
  {
    if !cancel(checks) {
      var start := Frame(f.items, f.labels[i := Comparing]);
      var s := Scan(start, i, i + 1, i, cancel, checks + 1);
      ScanPrefix(start, i, i + 1, i, cancel, checks + 1);
      if !s.cancelled {
        RoundsPrefix(Closed(s.last, i, s.minIdx), i + 1, cancel, s.checks);
      }
    }
  }

  /** A cancelled run of the rounds shows a prefix of what the rounds show
      with the flag never set; one that is not cancelled is that run. */
  lemma {:induction false} RoundsPrefix(f: Frame, i: nat, cancel: nat -> bool, checks: nat)
    requires f.Valid() && i <= |f.items|
    ensures var r := Rounds(f, i, cancel, checks);
      var n := Rounds(f, i, Never, checks);
      && (r.outcome.Cancelled? ==> r.trace <= n.trace)
      && (!r.outcome.Cancelled? ==> r == n)
    decreases |f.items| - i, 1
  {
    if i + 1 < |f.items| {
      RoundPrefix(f, i, cancel, checks);
    }
  }

  /** The run stops early exactly when a cancel read finds the flag set;
      with the flag never set it completes on any non-empty array, after
      `(n - 1) * (n + 2) / 2` reads. */
  lemma SelectionSortCancel(sorting: bool, data: Frame, cancel: nat -> bool)
    requires data.Valid()
    ensures var r := SelectionSort(sorting, data, cancel);
      && ChecksLog(cancel, 0, r.checks, r.outcome.Cancelled?)
      && (!sorting && 0 < |data.items| && (forall k: nat :: !cancel(k)) ==> r.outcome.Completed?)
      && (r.outcome.Completed? ==> 2 * r.checks == (|data.items| - 1) * (|data.items| + 2))
      && (r.outcome.Cancelled? ==> r.trace <= SelectionSort(sorting, data, Never).trace)
  {
    if !sorting {
      var w := Frame(data.items, Fill(|data.items|, Default));
      var r := SelectionSort(sorting, data, cancel);
      RoundsChecks(w, 0, cancel, 0);
      RoundsPermute(w, 0, cancel, 0);
      RoundsPrefix(w, 0, cancel, 0);
      if |data.items| > 0 {
        RoundsCount(w, 0, cancel, 0);
        ReadsClosed(|data.items| - 1);
      }
      if r.outcome.Cancelled? {
        assert cancel(r.checks - 1);
      }
    }
  }

  /** With the flag never set, round `i` exchanges position `i` with the
      leftmost smallest bar from `i` on and moves on to round `i + 1`. */
  lemma CompletedRound(f: Frame, i: nat, m: nat, cancel: nat -> bool, checks: nat) returns (g: Frame, c: nat)
    requires f.Valid() && i + 1 < |f.items| && (forall k: nat :: !cancel(k))
    requires LeftmostMin(f.items, i, |f.items|, m)
    ensures g.Valid() && |g.items| == |f.items| && g.items == Swap(f.items, i, m)
    ensures Round(f, i, cancel, checks).outcome == Rounds(g, i + 1, cancel, c).outcome
    ensures Round(f, i, cancel, checks).last == Rounds(g, i + 1, cancel, c).last
  {
    var start := Frame(f.items, f.labels[i := Comparing]);
    var s := Scan(start, i, i + 1, i, cancel, checks + 1);
    ScanChecks(start, i, i + 1, i, cancel, checks + 1);
    NeverStops(cancel, checks + 1, s.checks, s.cancelled);
    ScanMin(start, i, i + 1, i, cancel, checks + 1);
    ClosePermutes(s.last, i, s.minIdx);
    g, c := Closed(s.last, i, m), s.checks;
  }

  /** The leftmost smallest bar from `lo` on, found independently of the
      scan. */
  function MinIndex(s: seq<Item>, lo: nat): (m: nat)
    requires lo < |s|
    ensures lo <= m < |s|
    decreases |s| - lo
  {
    if lo + 1 == |s| then lo
    else
      var m := MinIndex(s, lo + 1);
      if s[m].value < s[lo].value then m else lo
  }

  /** Textbook selection sort on the bars alone, from position `i` on: the
      reference the instrumented rounds are compared with. */
  function SelectItems(s: seq<Item>, i: nat): seq<Item>
    decreases |s| - i
  {
    if i + 1 >= |s| then s else SelectItems(Swap(s, i, MinIndex(s, i)), i + 1)
  }

  /** `MinIndex` finds the leftmost minimum. */
  lemma {:induction false} MinIndexIsMin(s: seq<Item>, lo: nat)
    requires lo < |s|
    ensures LeftmostMin(s, lo, |s|, MinIndex(s, lo))
    decreases |s| - lo
  {
    if lo + 1 < |s| {
      MinIndexIsMin(s, lo + 1);
    }
  }

  /** Only one position is the leftmost minimum. */
  lemma LeftmostMinUnique(s: seq<Item>, lo: int, hi: int, m: int, m': int)
    requires LeftmostMin(s, lo, hi, m) && LeftmostMin(s, lo, hi, m')
    ensures m == m'
  {
    assert s[m].value <= s[m'].value && s[m'].value <= s[m].value;
  }

  /** With the flag never set the rounds complete on the bars the textbook
      sort produces. */
  lemma {:induction false} RoundItems(f: Frame, i: nat, checks: nat)
    requires f.Valid() && i + 1 < |f.items|
    ensures var r := Round(f, i, Never, checks);
      r.outcome.Completed? && r.last.items == SelectItems(f.items, i)
    decreases |f.items| - i, 0
  {
    MinIndexIsMin(f.items, i);
    var g, c := CompletedRound(f, i, MinIndex(f.items, i), Never, checks);
    RoundsItems(g, i + 1, c);
    SelectStep(f.items, i, MinIndex(f.items, i));
  }

  /** With the flag never set the rounds complete on any non-empty array,
      on the bars the textbook sort produces. */
  lemma {:induction false} RoundsItems(f: Frame, i: nat, checks: nat)
    requires f.Valid() && i <= |f.items|
    ensures var r := Rounds(f, i, Never, checks);
      (0 < |f.items| ==> r.outcome.Completed?) && r.last.items == SelectItems(f.items, i)
    decreases |f.items| - i, 1
  {
    if i + 1 < |f.items| {
      RoundItems(f, i, checks);
    }
  }

  /** With the flag never set a run completes on any non-empty array and
      leaves the bars exactly as textbook selection sort does. */
  lemma SelectionSortItems(data: Frame)
    requires data.Valid()
    ensures var r := SelectionSort(false, data, Never);
      (0 < |data.items| ==> r.outcome.Completed?) && r.last.items == SelectItems(data.items, 0)
  {
    RoundsItems(Frame(data.items, Fill(|data.items|, Default)), 0, 0);
  }

  /** `MinIndex` finds the one leftmost minimum. */
  lemma MinIndexAt(s: seq<Item>, lo: nat, m: nat)
    requires lo < |s| && LeftmostMin(s, lo, |s|, m)
    ensures MinIndex(s, lo) == m
  {
    MinIndexIsMin(s, lo);
    LeftmostMinUnique(s, lo, |s|, MinIndex(s, lo), m);
  }

  /** One round of the reference sort: the leftmost minimum moves to `i`. */
  lemma SelectStep(s: seq<Item>, i: nat, m: nat)
    requires i + 1 < |s| && LeftmostMin(s, i, |s|, m)
    ensures SelectItems(s, i) == SelectItems(Swap(s, i, m), i + 1)
  {
    MinIndexAt(s, i, m);
  }

  /** Textbook selection sort moves the first of two equal bars past the
      second when a smaller one follows them. */
  lemma SelectItemsEqualPair(s: seq<Item>)
    requires |s| == 3 && s[0].value == s[1].value && s[2].value < s[0].value
    ensures SelectItems(s, 0) == [s[2], s[1], s[0]]
  {
    var t := [s[2], s[1], s[0]];
    assert LeftmostMin(s, 0, 3, 2);
    SelectStep(s, 0, 2);
    assert Swap(s, 0, 2) == t;
    assert LeftmostMin(t, 1, 3, 1);
    SelectStep(t, 1, 1);
    assert Swap(t, 1, 1) == t;
    assert SelectItems(t, 2) == t;
  }

  /** Selection sort is not stable: two equal bars followed by a smaller
      one end up in the opposite order. */
  lemma SelectionSortUnstable(a: Item, b: Item, c: Item)
    requires a.value == b.value && c.value < a.value && a.originalIndex < b.originalIndex
    ensures var data := Frame([a, b, c], Fill(3, Default));
      && EqualsInOrder(data.items)
      && var r := SelectionSort(false, data, Never);
      && r.outcome.Completed? && r.last.items == [c, b, a]
      && !EqualsInOrder(r.last.items)
  {
    var data := Frame([a, b, c], Fill(3, Default));
    assert EqualsInOrder(data.items) by {
      forall p, q | 0 <= p < q < 3 && data.items[p].value == data.items[q].value
        ensures data.items[p].originalIndex < data.items[q].originalIndex
      {
        assert p == 0 && q == 1;
      }
    }
    assert !EqualsInOrder([c, b, a]) by {
      assert [c, b, a][1].value == [c, b, a][2].value;
    }
    SelectionSortItems(data);
    SelectItemsEqualPair([a, b, c]);
  }
}
