/** What every instrumented sort shares: how a run ends, the trace of
    frames that its `setData` calls emit, and the log of cancel-flag reads. */
module Runs {
  import opened Bars

  /** How a call of a sort (or of `startSorting`) returns.
      `Ignored`: it did nothing, because a run was already in progress (or,
      for `startSorting`, because no sort has the selected name).
      `Failed`: it threw before finishing (indexing an empty array), so
      `isSorting` was never cleared. */
  datatype Outcome = Ignored | Completed | Cancelled | Failed

  /** The result of one call of a sort: how it returned, the array it
      left in `workingData`, every snapshot it handed to `setData` in order,
      and how many times it read the cancel flag. */
  datatype Run = Run(outcome: Outcome, last: Frame, trace: seq<Frame>, checks: nat)

  /** Snapshots `s` emitted before the run `r`. */
  function Prepend(s: seq<Frame>, r: Run): Run {
    r.(trace := s + r.trace)
  }

  /** The array the component shows once the run stops: the last snapshot. */
  function Last(trace: seq<Frame>): Frame
    requires trace != []
  {
    trace[|trace| - 1]
  }

  /** Every snapshot holds exactly the bars of `bag`, in some order. */
  predicate AllPermute(trace: seq<Frame>, bag: multiset<Item>) {
    forall k :: 0 <= k < |trace| ==> trace[k].Valid() && multiset(trace[k].items) == bag
  }

  /** Every snapshot shows green only on bars in their final place. */
  predicate AllSettled(trace: seq<Frame>) {
    forall k :: 0 <= k < |trace| ==> trace[k].Valid() && Settled(trace[k])
  }

  lemma AllPermuteAppend(a: seq<Frame>, b: seq<Frame>, bag: multiset<Item>)
    requires AllPermute(a, bag) && AllPermute(b, bag)
    ensures AllPermute(a + b, bag)
  {
    forall k | 0 <= k < |a + b|
      ensures (a + b)[k].Valid() && multiset((a + b)[k].items) == bag
    {
      if k >= |a| {
        assert (a + b)[k] == b[k - |a|];
      }
    }
  }

  lemma AllSettledAppend(a: seq<Frame>, b: seq<Frame>)
    requires AllSettled(a) && AllSettled(b)
    ensures AllSettled(a + b)
  {
    forall k | 0 <= k < |a + b|
      ensures (a + b)[k].Valid() && Settled((a + b)[k])
    {
      if k >= |a| {
        assert (a + b)[k] == b[k - |a|];
      }
    }
  }

  /** The cancel flag is an outside input, read only at loop heads; the
      k-th read sees `cancel(k)`. Reads `from` up to `to` all saw it clear,
      except that the final read saw it set when the run `stopped` there. */
  predicate ChecksLog(cancel: nat -> bool, from: nat, to: nat, stopped: bool) {
    && from <= to
    && (stopped ==> from < to)
    && forall k: nat :: from <= k < to ==> (cancel(k) <==> stopped && k == to - 1)
  }

  /** Two consecutive stretches of reads make one. */
  lemma ChecksLogJoin(cancel: nat -> bool, a: nat, b: nat, c: nat, stopped: bool)
    requires ChecksLog(cancel, a, b, false) && ChecksLog(cancel, b, c, stopped)
    ensures ChecksLog(cancel, a, c, stopped)
  {
  }

  /** A cancel flag that is never set. */
  function Never(k: nat): bool {
    false
  }

  /** A flag that is never set stops nothing. */
  lemma NeverStops(cancel: nat -> bool, from: nat, to: nat, stopped: bool)
    requires ChecksLog(cancel, from, to, stopped) && forall k: nat :: !cancel(k)
    ensures !stopped
  {
    var last: nat := if to > 0 then to - 1 else 0;
    assert !cancel(last);
  }
}
