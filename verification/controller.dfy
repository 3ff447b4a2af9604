/** The component's state and its event handlers: starting a sort,
    pausing, resetting to the original array, drawing a new one, and the
    two controls. A sort is taken as one step from the moment it starts to
    the moment its `async` function returns. The cancel flag its loop heads
    read is an outside input, and its sleeps wait on the pause flag. In the
    component a reset or a new draw during a run sets the cancel flag but
    also cancels the animation frame the sort's pending sleep waits for:
    that sleep never resolves, so the sort reaches no further read and
    shows nothing more. Such a run is abandoned, not ended through the flag;
    here the reset or draw is an event between runs, and a `Cancelled`
    outcome is the exit the loop heads provide, which the component's own
    handlers never reach. */
module Controller {
  import opened Bars
  import opened Runs
  import Playback
  import Dataset
  import BubbleSort
  import SelectionSort
  import InsertionSort

  /** The component's state: `data` and `originalData`, `isSorting`,
      `isPaused`, the two flags `pauseRef` and `cancelRef`, the speed
      slider and the selected algorithm. */
  datatype Controller = Controller(
    data: Frame,
    original: Frame,
    isSorting: bool,
    isPaused: bool,
    pauseFlag: bool,
    cancelFlag: bool,
    speed: int,
    algorithm: string)

  /** The names the algorithm selector offers. */
  predicate Known(name: string) {
    name == "bubble" || name == "selection" || name == "insertion"
  }

  /** What holds between events in a component that only its own controls
      have driven: both arrays are well formed, the original is unlabelled,
      the bars shown are the original bars in some order, the pause flag
      mirrors `isPaused`, and nothing is paused unless a sort is running. */
  predicate Consistent(c: Controller) {
    && c.data.Valid() && c.original.Valid()
    && AllIn(c.original.labels, Default)
    && multiset(c.data.items) == multiset(c.original.items)
    && c.pauseFlag == c.isPaused
    && (c.isPaused ==> c.isSorting)
  }

  // ---------------------------------------------------------------------
  // Reset, new data, pause

  /** `resetToOriginal`: cancels any run, clears pause and `isSorting`,
      and shows the original bars with default labels. */
  function ResetToOriginal(c: Controller): (d: Controller)
    ensures d.data.Valid() && d.data.items == c.original.items && AllIn(d.data.labels, Default)
    ensures d.cancelFlag && !d.pauseFlag && !d.isSorting && !d.isPaused
    ensures d.original == c.original && d.speed == c.speed && d.algorithm == c.algorithm
  {
    c.(data := Frame(c.original.items, Fill(|c.original.items|, Default)),
       isSorting := false, isPaused := false, pauseFlag := false, cancelFlag := true)
  }

  /** Resetting twice is resetting once, and what a reset shows depends
      only on the original array: not on anything shown or running before. */
  lemma ResetIdempotent(c: Controller, e: Controller)
    requires e.original == c.original && e.speed == c.speed && e.algorithm == c.algorithm
    ensures ResetToOriginal(ResetToOriginal(c)) == ResetToOriginal(c)
    ensures ResetToOriginal(e) == ResetToOriginal(c)
  {
  }

  /** `generateNew`: cancels any run and clears pause and `isSorting` as a
      reset does, then draws `DefaultCount` fresh bars and makes them both
      the shown and the original array. */
  function GenerateNew(c: Controller, rand: nat -> real): (d: Controller)
    ensures |d.data.items| == Dataset.DefaultCount
    ensures d.cancelFlag && !d.pauseFlag && !d.isSorting && !d.isPaused
    ensures d.speed == c.speed && d.algorithm == c.algorithm
  {
    var drawn := Frame(Dataset.Fresh(Dataset.DefaultCount, rand), Fill(Dataset.DefaultCount, Default));
    c.(data := drawn, original := drawn,
       isSorting := false, isPaused := false, pauseFlag := false, cancelFlag := true)
  }

  /** A reset right after new data changes nothing, and the new array has
      the shape every sort expects. */
  lemma GenerateThenReset(c: Controller, rand: nat -> real)
    requires forall k: nat :: k < Dataset.DefaultCount ==> 0.0 <= rand(k) < 1.0
    ensures var d := GenerateNew(c, rand);
      && ResetToOriginal(d) == d
      && Consistent(d)
      && DistinctIds(d.data.items) && EqualsInOrder(d.data.items)
      && forall k :: 0 <= k < |d.data.items| ==> 10 <= d.data.items[k].value <= 99
  {
    Dataset.FreshShape(Dataset.DefaultCount, rand);
  }

  /** `togglePause`: flips `isPaused` and sets the pause flag to match. */
  function TogglePause(c: Controller): (d: Controller)
    ensures d.isPaused == !c.isPaused && d.pauseFlag == d.isPaused
    ensures d.data == c.data && d.original == c.original && d.isSorting == c.isSorting
    ensures d.cancelFlag == c.cancelFlag && d.speed == c.speed && d.algorithm == c.algorithm
  {
    c.(isPaused := !c.isPaused, pauseFlag := !c.isPaused)
  }

  /** Pausing and resuming restores the state exactly, when the flag was
      in step with `isPaused` before. */
  lemma ToggleTwice(c: Controller)
    ensures TogglePause(TogglePause(c)) == c <==> c.pauseFlag == c.isPaused
  {
  }

  // ---------------------------------------------------------------------
  // Starting a sort

  /** The run `startSorting` launches: nothing while a run is in progress
      or for a name no sort has, else the selected sort. */
  function SortRun(c: Controller, cancel: nat -> bool): Run
    requires c.data.Valid()
  {
    if c.isSorting then Run(Ignored, c.data, [], 0)
    else if c.algorithm == "bubble" then BubbleSort.BubbleSort(c.isSorting, c.data, cancel)
    else if c.algorithm == "selection" then SelectionSort.SelectionSort(c.isSorting, c.data, cancel)
    else if c.algorithm == "insertion" then InsertionSort.InsertionSort(c.isSorting, c.data, cancel)
    else Run(Ignored, c.data, [], 0)
  }

  /** The state a run leaves behind. A sort sets `isSorting` and clears
      both flags as it starts; the array shown is its last snapshot; it
      clears `isSorting` when it completes or when a loop-head read finds
      the cancel flag set, and never when it throws. The cancel flag is as
      its last read saw it. */
  function AfterRun(c: Controller, r: Run): Controller {
    if r.outcome.Ignored? then c
    else c.(data := if r.trace == [] then c.data else Last(r.trace),
            isSorting := r.outcome.Failed?,
            pauseFlag := false,
            cancelFlag := r.outcome.Cancelled?)
  }

  /** `startSorting`, up to the moment the launched sort returns. */
  function StartSorting(c: Controller, cancel: nat -> bool): Controller
    requires c.data.Valid()
  {
    AfterRun(c, SortRun(c, cancel))
  }

  /** `startSorting` does nothing exactly when a run is in progress or no
      sort has the selected name; otherwise the run ends completed,
      cancelled, or (on an empty array, for selection and insertion sort)
      failed with `isSorting` stuck. */
  lemma StartDispatch(c: Controller, cancel: nat -> bool)
    requires c.data.Valid()
    ensures var r := SortRun(c, cancel);
      && (r.outcome.Ignored? <==> c.isSorting || !Known(c.algorithm))
      && (r.outcome.Ignored? ==> StartSorting(c, cancel) == c)
      && (r.outcome.Failed? <==> !c.isSorting && |c.data.items| == 0 && (c.algorithm == "selection" || c.algorithm == "insertion"))
      && (!r.outcome.Ignored? ==> StartSorting(c, cancel).isSorting == r.outcome.Failed?)
      && ChecksLog(cancel, 0, r.checks, r.outcome.Cancelled?)
  {
    if !c.isSorting {
      if c.algorithm == "bubble" {
        BubbleSort.BubbleSortPermutes(false, c.data, cancel);
        BubbleSort.BubbleSortCancel(false, c.data, cancel);
      } else if c.algorithm == "selection" {
        SelectionSort.SelectionSortPermutes(false, c.data, cancel);
        if |c.data.items| > 0 {
          SelectionSort.SelectionSortCancel(false, c.data, cancel);
        } else {
          assert SortRun(c, cancel).checks == 0;
        }
      } else if c.algorithm == "insertion" {
        InsertionSort.InsertionSortShown(false, c.data, cancel);
        InsertionSort.InsertionSortCancel(false, c.data, cancel);
      }
    }
  }

  /** After any run the array shown holds the same bars as before, and it
      is the array the sort was working on. */
  lemma StartKeepsBars(c: Controller, cancel: nat -> bool)
    requires c.data.Valid()
    ensures var r := SortRun(c, cancel);
      var d := StartSorting(c, cancel);
      && d.data.Valid() && multiset(d.data.items) == multiset(c.data.items)
      && (!r.outcome.Ignored? && r.trace != [] ==> d.data == r.last)
  {
    var r := SortRun(c, cancel);
    if !c.isSorting {
      if c.algorithm == "bubble" {
        BubbleSort.BubbleSortPermutes(false, c.data, cancel);
      } else if c.algorithm == "selection" {
        SelectionSort.SelectionSortPermutes(false, c.data, cancel);
      } else if c.algorithm == "insertion" {
        InsertionSort.InsertionSortShown(false, c.data, cancel);
        if r.trace != [] {
          assert InsertionSort.ShownAt(r.trace, |r.trace| - 1, multiset(c.data.items));
        }
      }
    }
  }

  /** Left alone, each sort completes on a non-empty array: every bar
      ends up green, in order of value, and `isSorting` is cleared. */
  lemma StartSorts(c: Controller, cancel: nat -> bool)
    requires c.data.Valid() && !c.isSorting && Known(c.algorithm) && |c.data.items| > 0
    requires forall k: nat :: !cancel(k)
    ensures var d := StartSorting(c, cancel);
      && SortRun(c, cancel).outcome.Completed? && !d.isSorting
      && SortedByValue(d.data.items) && AllIn(d.data.labels, Sorted)
  {
    StartKeepsBars(c, cancel);
    if c.algorithm == "bubble" {
      BubbleSort.BubbleSortPermutes(false, c.data, cancel);
      BubbleSort.BubbleSortSorts(false, c.data, cancel);
      BubbleSort.BubbleSortCancel(false, c.data, cancel);
    } else if c.algorithm == "selection" {
      SelectionSort.SelectionSortPermutes(false, c.data, cancel);
      SelectionSort.SelectionSortSorts(false, c.data, cancel);
      SelectionSort.SelectionSortCancel(false, c.data, cancel);
    } else {
      InsertionSort.InsertionSortShown(false, c.data, cancel);
      InsertionSort.InsertionSortSorts(false, c.data, cancel);
      InsertionSort.InsertionSortCancel(false, c.data, cancel);
    }
  }

  /** Bubble and insertion sort keep bars of equal value in any order they
      had, whether they complete or are cancelled half-way. */
  lemma StartStable(c: Controller, cancel: nat -> bool, rank: Item -> int)
    requires c.data.Valid() && (c.algorithm == "bubble" || c.algorithm == "insertion")
    requires InOrderBy(c.data.items, rank)
    ensures InOrderBy(StartSorting(c, cancel).data.items, rank)
  {
    StartKeepsBars(c, cancel);
    if !c.isSorting {
      if c.algorithm == "bubble" {
        BubbleSort.BubbleSortStable(false, c.data, cancel, rank);
      } else if |c.data.items| > 0 {
        InsertionSort.InsertionSortShown(false, c.data, cancel);
        InsertionSort.InsertionSortStable(false, c.data, cancel, rank);
      }
    }
  }

  /** In particular, bars of equal value leave bubble and insertion sort in
      the order they stood in when the sort started. */
  lemma StartKeepsOrder(c: Controller, cancel: nat -> bool)
    requires c.data.Valid() && DistinctIds(c.data.items)
    requires c.algorithm == "bubble" || c.algorithm == "insertion"
    ensures InOrderBy(StartSorting(c, cancel).data.items, PositionIn(c.data.items))
  {
    PositionRanks(c.data.items);
    StartStable(c, cancel, PositionIn(c.data.items));
  }

  // ---------------------------------------------------------------------
  // The controls

  /** What the user can do. The buttons offered depend on the state:
      Start only while no sort runs, Pause/Resume only while one does; the
      speed slider is locked while a sort runs unpaused, the algorithm
      selector while any sort runs. */
  datatype Event =
    | Start(cancel: nat -> bool)
    | Pause
    | Reset
    | NewData(rand: nat -> real)
    | SetSpeed(speed: int)
    | SetAlgorithm(name: string)

  /** The state after one event; an event on a control that is not
      offered or is disabled changes nothing. */
  function Handle(c: Controller, e: Event): Controller
    requires c.data.Valid()
  {
    match e
    case Start(cancel) => if c.isSorting then c else StartSorting(c, cancel)
    case Pause => if c.isSorting then TogglePause(c) else c
    case Reset => ResetToOriginal(c)
    case NewData(rand) => GenerateNew(c, rand)
    case SetSpeed(v) => if c.isSorting && !c.isPaused then c else c.(speed := v)
    case SetAlgorithm(name) => if c.isSorting then c else c.(algorithm := name)
  }

  /** A draw stream `Math.random` could produce. */
  ghost predicate Draws(rand: nat -> real) {
    forall k: nat :: 0.0 <= rand(k) < 1.0
  }

  /** Every event keeps the state consistent, and only new data replaces
      the array a reset returns to. */
  lemma HandleConsistent(c: Controller, e: Event)
    requires Consistent(c)
    requires e.NewData? ==> Draws(e.rand)
    ensures Consistent(Handle(c, e))
    ensures !e.NewData? ==> Handle(c, e).original == c.original
  {
    match e
    case Start(cancel) =>
      StartKeepsBars(c, cancel);
    case NewData(rand) =>
      GenerateThenReset(c, rand);
    case _ =>
  }

  /** A speed the slider can set gives a delay between 100 and 991 ms. */
  lemma HandleSpeed(c: Controller, v: int)
    requires c.data.Valid() && Playback.MinSpeed <= v <= Playback.MaxSpeed
    ensures var d := Handle(c, SetSpeed(v));
      && (d.speed == v <==> !c.isSorting || c.isPaused || c.speed == v)
      && (d.speed == v ==> 100 <= Playback.Delay(d.speed) <= 991)
  {
    Playback.DelayOnSlider(v);
  }
}
