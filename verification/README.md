# Sorting visualizer: instrumented sorts and playback controller

This project models the core of a browser sorting visualizer: the React
component `SortingVisualizer`. The component holds an array of bar records
`{value, index, state, originalIndex}` and offers three sorts: bubble,
selection and insertion. Each sort works on a copy of the array and hands a
snapshot to `setData` after every visible step, relabelling bars as
`default`, `comparing`, `current` or `sorted`. Around each snapshot it
suspends in `sleep`, which polls a cancel flag and a pause flag. A small
controller starts a sort, pauses and resumes it, resets to the original
array, draws a new random array, and sets the playback speed.

The modules:

- `Bars` (bars.dfy) holds the bar record, the column-wise `Frame` used by
  every sort, and the order and label predicates.
  - A `Frame` keeps each bar's identity (`Item`: value, index,
    originalIndex) apart from its label.
  - `Rows` and `Columns` convert to and from the component's array of
    records.
- `Runs` (runs.dfy) describes what a call of a sort produces: how it
  returned, the array it left, the trace of `setData` snapshots, and the
  number of cancel-flag reads.
  - The cancel flag is an outside input `cancel: nat -> bool`; the k-th
    read sees `cancel(k)`.
- `BubbleSort`, `SelectionSort` and `InsertionSort` (bubble.dfy,
  selection.dfy, insertion.dfy) model the three sorts.
  - Every loop is a recursive function that emits exactly the snapshots
    the source emits, in order.
  - Every property is a separate lemma.
- `Playback` (playback.dfy) models `getDelay` and the cancel/pause decision
  of `sleep`'s `checkPause`.
- `Dataset` (dataset.dfy) models `generateRandomData`, with `Math.random`
  given as a stream of draws.
- `Controller` (controller.dfy) models the component state and the
  handlers `resetToOriginal`, `generateNew`, `togglePause` and
  `startSorting`, plus the two controls.
  - A sort is one step: from the moment it starts to the moment it
    returns.

Insertion sort is modelled as written. Each shift step writes the moving
bar over its left neighbour, shows that snapshot, and only then moves the
neighbour right. That intermediate snapshot shows one bar twice and loses
another, so insertion sort's trace is stated as "every snapshot is a
permutation of the input, or a half-done step of the snapshot that follows
it" (`InsertionSort.AllShown`). `InsertionSort.InsertionSortShowsCopy`
exhibits such a snapshot.

Stability is stated for any ranking of the bars. Whenever the input has
its bars of equal value in increasing rank, so does the result
(`BubbleSort.BubbleSortStable`, `InsertionSort.InsertionSortStable`).
Ranking by position in the input (`Bars.PositionIn`) gives the usual
reading: bars of equal value leave in the order they came in. That holds
for any input, including one that an earlier selection sort has put out of
generation order.

## Model

| member | source | states |
|---|---|---|
| Bars.Rows | src/components/sorting-visualizer.tsx:19-24 | a frame stands for an array of bar records of the same length |
| Bars.Columns | src/components/sorting-visualizer.tsx:19-24 | any array of bar records has a well-formed frame of the same length |
| Bars.RowsColumns | src/components/sorting-visualizer.tsx:19-24 | splitting a record array into identities and labels and joining them back loses nothing |
| Bars.ColumnsRows | src/components/sorting-visualizer.tsx:19-24 | joining a frame into records and splitting it again gives the same frame |
| Bars.Swap | src/components/sorting-visualizer.tsx:192-194 | the exchange through a temporary puts each of the two bars in the other's place and leaves every other position alone |
| Bars.SwapPermutes | src/components/sorting-visualizer.tsx:296-298 | an exchange keeps the same bars |
| Bars.AdjacentSwapOrder | src/components/sorting-visualizer.tsx:190-194 | exchanging a neighbour pair only when the left value is strictly larger keeps equal values in any ranking they were in |
| Runs.ChecksLogJoin | src/components/sorting-visualizer.tsx:178-181 | two consecutive stretches of cancel reads, the first never finding the flag, form one stretch |
| Runs.NeverStops | src/components/sorting-visualizer.tsx:178-181 | a flag that is never set stops no run |
| BubbleSort.Next | src/components/sorting-visualizer.tsx:190-204 | one comparison keeps the array's length and shape; what it does to the bars and labels is stated by `NextItems` and `CompareState` |
| BubbleSort.CompareFrames | src/components/sorting-visualizer.tsx:184-205 | a comparison shows three snapshots when the pair is out of order and two otherwise |
| BubbleSort.Inner | src/components/sorting-visualizer.tsx:177-206 | a pass keeps the array's length and shape; its effect is stated by the `Inner…` lemmas |
| BubbleSort.Finish | src/components/sorting-visualizer.tsx:214-219 | the final relabel keeps every bar where it is and labels all of them sorted |
| BubbleSort.BubbleSort | src/components/sorting-visualizer.tsx:153-154 | a call made while a sort runs does nothing and shows nothing |
| BubbleSort.SuffixSettled | src/components/sorting-visualizer.tsx:204 | a green suffix that is sorted and dominates the rest shows every green bar in its final place |
| BubbleSort.NextItems | src/components/sorting-visualizer.tsx:190-195 | a comparison exchanges the pair exactly when the left value is strictly larger, and keeps the same bars |
| BubbleSort.ComparePermutes | src/components/sorting-visualizer.tsx:184-205 | every snapshot of a comparison holds the bars it started with |
| BubbleSort.CompareState | src/components/sorting-visualizer.tsx:190-204 | a comparison carries a largest bar of the prefix one place right, and labels it sorted at the pass's end |
| BubbleSort.MarkedSettled | src/components/sorting-visualizer.tsx:184-199 | while the pair is marked, no snapshot shows a green bar out of its final place |
| BubbleSort.UnmarkedSettled | src/components/sorting-visualizer.tsx:203-205 | once unmarked, the pass's last right bar shown green is in its final place |
| BubbleSort.CompareSettled | src/components/sorting-visualizer.tsx:184-205 | no snapshot of a comparison shows a green bar out of place |
| BubbleSort.CompareStable | src/components/sorting-visualizer.tsx:190 | a comparison keeps equal values in any ranking they were in |
| BubbleSort.InnerKeeps | src/components/sorting-visualizer.tsx:177-206 | a pass keeps the same bars |
| BubbleSort.InnerPermutes | src/components/sorting-visualizer.tsx:177-206 | every snapshot of a pass holds the bars it started with |
| BubbleSort.InnerLast | src/components/sorting-visualizer.tsx:177-206 | a pass leaves the array it last showed |
| BubbleSort.InnerChecks | src/components/sorting-visualizer.tsx:177-181 | a pass reads the cancel flag once per comparison, and stops at the first read that finds it set |
| BubbleSort.InnerState | src/components/sorting-visualizer.tsx:177-206 | a completed pass leaves a largest bar of the prefix at its end, labelled sorted; no snapshot shows a green bar out of place |
| BubbleSort.InnerStable | src/components/sorting-visualizer.tsx:177-206 | a pass keeps equal values in any ranking they were in |
| BubbleSort.InnerNoSwap | src/components/sorting-visualizer.tsx:175-195 | a pass exchanges nothing exactly when its range is already in order, and then it moves no bar |
| BubbleSort.PassPermutes | src/components/sorting-visualizer.tsx:174-212 | the passes only exchange bars and end completed or cancelled |
| BubbleSort.PassesPermute | src/components/sorting-visualizer.tsx:174-212 | the outer loop only exchanges bars and ends completed or cancelled |
| BubbleSort.PassLast | src/components/sorting-visualizer.tsx:174-212 | the passes leave the array they last showed |
| BubbleSort.PassesLast | src/components/sorting-visualizer.tsx:174-212 | the outer loop leaves the array it last showed |
| BubbleSort.PassChecks | src/components/sorting-visualizer.tsx:178-181 | the passes stop exactly at the first cancel read that finds the flag set |
| BubbleSort.PassesChecks | src/components/sorting-visualizer.tsx:178-181 | the outer loop stops exactly at the first cancel read that finds the flag set |
| BubbleSort.FinishSettles | src/components/sorting-visualizer.tsx:214-219 | on sorted bars the final all-green snapshot is settled and sorted |
| BubbleSort.PassSettles | src/components/sorting-visualizer.tsx:174-219 | from a green, sorted, dominating suffix, the passes show green only on settled bars |
| BubbleSort.PassesSettle | src/components/sorting-visualizer.tsx:174-219 | from a green, sorted, dominating suffix, the outer loop shows green only on settled bars |
| BubbleSort.PassSorts | src/components/sorting-visualizer.tsx:174-219 | passes that complete leave the bars sorted by value and all green |
| BubbleSort.PassesSort | src/components/sorting-visualizer.tsx:174-219 | an outer loop that completes leaves the bars sorted by value and all green |
| BubbleSort.PassStable | src/components/sorting-visualizer.tsx:174-212 | the passes keep equal values in any ranking they were in |
| BubbleSort.PassesStable | src/components/sorting-visualizer.tsx:174-212 | the outer loop keeps equal values in any ranking they were in |
| BubbleSort.BubbleSortPermutes | src/components/sorting-visualizer.tsx:153-222 | a run first shows the input with labels reset, ends on its last snapshot, shows only permutations of the input, and ends completed or cancelled |
| BubbleSort.BubbleSortSorts | src/components/sorting-visualizer.tsx:153-222 | a completed run leaves the bars sorted by value and all green; no snapshot shows a green bar out of its final place |
| BubbleSort.BubbleSortStable | src/components/sorting-visualizer.tsx:190 | bubble sort keeps equal values in any ranking the input had them in, whether it completes or is cancelled |
| BubbleSort.BubbleSortKeepsOrder | src/components/sorting-visualizer.tsx:190 | bars of equal value leave bubble sort in the order they arrived in, whatever that order |
| BubbleSort.BubbleSortCancel | src/components/sorting-visualizer.tsx:178-181 | a run stops early exactly when a cancel read finds the flag set, and then has shown a prefix of what it shows with the flag never set; with the flag never set it completes |
| BubbleSort.InnerPrefix | src/components/sorting-visualizer.tsx:177-206 | a cancelled pass shows a prefix of the same pass with the flag never set, and a pass not cancelled is that pass |
| BubbleSort.PassPrefix | src/components/sorting-visualizer.tsx:174-212 | a cancelled run of the passes shows a prefix of the uncancelled run, and one not cancelled is that run |
| BubbleSort.PassesPrefix | src/components/sorting-visualizer.tsx:174-219 | the outer loop, if cancelled, shows a prefix of the uncancelled loop, and otherwise is that loop |
| BubbleSort.BubbleSortEarlyExit | src/components/sorting-visualizer.tsx:208-211 | on input already in order the run stops after one pass of n - 1 comparisons and moves no bar |
| SelectionSort.Resolve | src/components/sorting-visualizer.tsx:270-281 | looking at a position only relabels, never moves a bar; its labels are stated by `ResolveLabels` |
| SelectionSort.Scan | src/components/sorting-visualizer.tsx:259-285 | the scan only relabels, and the minimum it reports lies in the unsorted part |
| SelectionSort.Settle | src/components/sorting-visualizer.tsx:305-316 | closing a round keeps the number of labels; the labels it leaves are stated by `CloseSorts` |
| SelectionSort.Closed | src/components/sorting-visualizer.tsx:288-316 | the array closing a round keeps its length and shape; its bars are stated by `ClosePermutes` and its labels by `CloseSorts` |
| SelectionSort.Close | src/components/sorting-visualizer.tsx:288-318 | closing a round shows three snapshots when it exchanges and one otherwise |
| SelectionSort.SelectionSort | src/components/sorting-visualizer.tsx:225-226 | a call made while a sort runs does nothing and shows nothing |
| SelectionSort.ScanKeeps | src/components/sorting-visualizer.tsx:259-285 | no scan snapshot moves a bar, and the scan leaves the array it last showed |
| SelectionSort.ScanMin | src/components/sorting-visualizer.tsx:270-277 | a finished scan finds the leftmost smallest bar of the unsorted part |
| SelectionSort.ResolveLabels | src/components/sorting-visualizer.tsx:266-281 | looking at a position keeps exactly the prefix green and marks the new minimum so far |
| SelectionSort.ScanLabels | src/components/sorting-visualizer.tsx:259-285 | during the scan exactly the bars before the round are green; a finished scan leaves the minimum marked current |
| SelectionSort.ScanChecks | src/components/sorting-visualizer.tsx:260-263 | the scan reads the cancel flag once per remaining position, until a read finds it set |
| SelectionSort.SwapAbove | src/components/sorting-visualizer.tsx:296-298 | an exchange in the unsorted part keeps the sorted prefix sorted and dominated |
| SelectionSort.SelectExtends | src/components/sorting-visualizer.tsx:288-306 | bringing the leftmost minimum to the round's position extends the sorted prefix by one |
| SelectionSort.PrefixSettled | src/components/sorting-visualizer.tsx:306 | a green prefix that is sorted and dominated shows every green bar in its final place |
| SelectionSort.ClosePermutes | src/components/sorting-visualizer.tsx:288-303 | closing a round only exchanges the round's position with the minimum |
| SelectionSort.CloseSorts | src/components/sorting-visualizer.tsx:288-318 | after round i, positions 0..i are sorted, green and no larger than the rest, and every later label is default |
| SelectionSort.ScanSettled | src/components/sorting-visualizer.tsx:252-285 | the snapshots up to the end of a scan show green only on the sorted prefix |
| SelectionSort.RoundSettles | src/components/sorting-visualizer.tsx:252-319 | one round shows green only on settled bars and hands on a sorted prefix one longer |
| SelectionSort.RoundKeeps | src/components/sorting-visualizer.tsx:252-319 | one round shows only permutations of its input |
| SelectionSort.RoundPermutes | src/components/sorting-visualizer.tsx:246-326 | the rounds only exchange bars and end completed or cancelled |
| SelectionSort.RoundsPermute | src/components/sorting-visualizer.tsx:246-326 | the outer loop only exchanges bars, and fails exactly on an empty array |
| SelectionSort.RoundLast | src/components/sorting-visualizer.tsx:246-326 | the rounds leave the array they last showed |
| SelectionSort.RoundsLast | src/components/sorting-visualizer.tsx:246-326 | the outer loop leaves the array it last showed |
| SelectionSort.ReadsClosed | src/components/sorting-visualizer.tsx:246-263 | t completed rounds read the cancel flag t(t + 3)/2 times |
| SelectionSort.RoundReads | src/components/sorting-visualizer.tsx:247-263 | one round reads the flag once, then once per position it scans, until a read finds it set |
| SelectionSort.RoundChecks | src/components/sorting-visualizer.tsx:247-263 | the rounds stop exactly at the first cancel read that finds the flag set |
| SelectionSort.RoundsChecks | src/components/sorting-visualizer.tsx:247-263 | the outer loop stops exactly at the first cancel read that finds the flag set |
| SelectionSort.RoundContinues | src/components/sorting-visualizer.tsx:246-320 | a round that is not cancelled reads the flag n - i times and goes on with the next round |
| SelectionSort.RoundCount | src/components/sorting-visualizer.tsx:246-320 | from round i, a run that is not cancelled reads the flag a number of times fixed by n - 1 - i |
| SelectionSort.RoundsCount | src/components/sorting-visualizer.tsx:246-320 | from round i, the outer loop, unless cancelled, reads the flag a number of times fixed by n - 1 - i |
| SelectionSort.RoundSorts | src/components/sorting-visualizer.tsx:246-324 | the rounds show green only on settled bars, and a completed run is sorted and all green |
| SelectionSort.RoundsSort | src/components/sorting-visualizer.tsx:246-324 | the outer loop shows green only on settled bars, and a completed run is sorted and all green |
| SelectionSort.SelectionSortPermutes | src/components/sorting-visualizer.tsx:225-327 | a run first shows the input with labels reset, ends on its last snapshot, shows only permutations of the input, and fails exactly on an empty array |
| SelectionSort.SelectionSortSorts | src/components/sorting-visualizer.tsx:225-327 | a completed run leaves the bars sorted by value and all green; no snapshot shows a green bar out of its final place |
| SelectionSort.SelectionSortCancel | src/components/sorting-visualizer.tsx:246-263 | a run stops early exactly when a cancel read finds the flag set, and then has shown a prefix of what it shows with the flag never set; left alone it completes on a non-empty array after (n - 1)(n + 2)/2 reads |
| SelectionSort.ScanPrefix | src/components/sorting-visualizer.tsx:259-285 | a cancelled scan shows a prefix of the same scan with the flag never set, and a scan not cancelled is that scan |
| SelectionSort.RoundPrefix | src/components/sorting-visualizer.tsx:246-320 | a cancelled round shows a prefix of the uncancelled rounds, and one not cancelled is that run |
| SelectionSort.RoundsPrefix | src/components/sorting-visualizer.tsx:246-324 | the outer loop, if cancelled, shows a prefix of the uncancelled loop, and otherwise is that loop |
| SelectionSort.CompletedRound | src/components/sorting-visualizer.tsx:252-320 | left alone, a round exchanges its position with the leftmost minimum and goes on with the next round |
| SelectionSort.MinIndex | src/components/sorting-visualizer.tsx:253-277 | the reference minimum lies in the unsorted part |
| SelectionSort.MinIndexIsMin | src/components/sorting-visualizer.tsx:270-277 | the reference minimum is the leftmost smallest bar |
| SelectionSort.LeftmostMinUnique | src/components/sorting-visualizer.tsx:270 | only one position is the leftmost minimum |
| SelectionSort.RoundItems | src/components/sorting-visualizer.tsx:246-320 | left alone, the rounds complete on the bars the reference selection sort produces |
| SelectionSort.RoundsItems | src/components/sorting-visualizer.tsx:246-324 | left alone, the outer loop ends on the bars the reference selection sort produces |
| SelectionSort.SelectionSortItems | src/components/sorting-visualizer.tsx:225-327 | left alone, a run completes on a non-empty array and leaves the bars exactly as the reference selection sort does |
| SelectionSort.MinIndexAt | src/components/sorting-visualizer.tsx:270-277 | the reference minimum is the one leftmost minimum |
| SelectionSort.SelectStep | src/components/sorting-visualizer.tsx:288-298 | one reference round moves the leftmost minimum to the round's position |
| SelectionSort.SelectItemsEqualPair | src/components/sorting-visualizer.tsx:270 | two equal bars followed by a smaller one end in the opposite order |
| SelectionSort.SelectionSortUnstable | src/components/sorting-visualizer.tsx:270-298 | selection sort is not stable: a concrete input whose equal bars end reversed |
| InsertionSort.Shift | src/components/sorting-visualizer.tsx:373-393 | the shift keeps the array's shape and the moving bar never ends right of where it started; its effect is stated by the `Shift…` lemmas |
| InsertionSort.InsertionSort | src/components/sorting-visualizer.tsx:330-331 | a call made while a sort runs does nothing and shows nothing |
| InsertionSort.TransientNotPermutation | src/components/sorting-visualizer.tsx:379-383 | the half-done step shown at the overwrite is never a permutation when bars have distinct identities |
| InsertionSort.StepShown | src/components/sorting-visualizer.tsx:379-391 | a full shift step exchanges neighbours; the snapshot in between is a half-done step |
| InsertionSort.ShiftKeeps | src/components/sorting-visualizer.tsx:373-393 | the shift keeps the same bars, and the moving bar stays the one it started with |
| InsertionSort.ShiftShown | src/components/sorting-visualizer.tsx:373-393 | every shift snapshot is a permutation of the input or a half-done step of the next one |
| InsertionSort.ShiftLast | src/components/sorting-visualizer.tsx:373-393 | the shift leaves the array it last showed |
| InsertionSort.ShiftChecks | src/components/sorting-visualizer.tsx:373-377 | the shift reads the cancel flag once per step it takes, plus once more when that read finds it set and stops the shift |
| InsertionSort.ShiftStable | src/components/sorting-visualizer.tsx:373 | moving only past strictly larger bars keeps equal values in any ranking they were in |
| InsertionSort.ShiftingGreen | src/components/sorting-visualizer.tsx:373-393 | while shifting, the green bars are in order |
| InsertionSort.TransientGreen | src/components/sorting-visualizer.tsx:379-383 | the half-done step shows no green bar out of order |
| InsertionSort.ShiftStep | src/components/sorting-visualizer.tsx:379-391 | a full step moves the bar one place left and keeps the prefix's shape |
| InsertionSort.StepGreen | src/components/sorting-visualizer.tsx:379-392 | one full step shows green bars only in order |
| InsertionSort.ShiftGreen | src/components/sorting-visualizer.tsx:373-393 | the whole shift shows green bars only in order |
| InsertionSort.ShiftShape | src/components/sorting-visualizer.tsx:373-393 | the shift keeps the sorted prefix's shape around the moving bar |
| InsertionSort.ShiftStops | src/components/sorting-visualizer.tsx:373 | unless cancelled, the shift stops at the front or at the first left neighbour no larger than the key |
| InsertionSort.InsertDone | src/components/sorting-visualizer.tsx:395-399 | writing the key back where the shift stopped makes the first i + 1 bars sorted and green, the rest default |
| InsertionSort.RoundKeeps | src/components/sorting-visualizer.tsx:359-400 | one round only exchanges bars, apart from half-done steps |
| InsertionSort.RoundSettles | src/components/sorting-visualizer.tsx:359-400 | one round shows green bars only in order and hands on a sorted green prefix one longer |
| InsertionSort.RoundReads | src/components/sorting-visualizer.tsx:354-377 | one round reads the flag once at its head, then once per shift step, plus once more when a read finds it set and stops the shift |
| InsertionSort.RoundStable | src/components/sorting-visualizer.tsx:359-400 | one round keeps equal values in any ranking they were in |
| InsertionSort.RoundLands | src/components/sorting-visualizer.tsx:395-396 | writing the key back into the gap leaves the round's bars as the shift left them |
| InsertionSort.RoundShown | src/components/sorting-visualizer.tsx:353-401 | the rounds show only permutations of the input or half-done steps, and end completed or cancelled |
| InsertionSort.RoundsShown | src/components/sorting-visualizer.tsx:353-401 | the outer loop shows only permutations of the input or half-done steps |
| InsertionSort.RoundEnds | src/components/sorting-visualizer.tsx:353-401 | the rounds leave the input's bars, in the array they last showed |
| InsertionSort.RoundsEnd | src/components/sorting-visualizer.tsx:353-401 | the outer loop leaves the input's bars, in the array it last showed |
| InsertionSort.RoundChecks | src/components/sorting-visualizer.tsx:354-377 | the rounds stop exactly at the first cancel read that finds the flag set |
| InsertionSort.RoundsChecks | src/components/sorting-visualizer.tsx:354-377 | the outer loop stops exactly at the first cancel read that finds the flag set |
| InsertionSort.RoundSorts | src/components/sorting-visualizer.tsx:353-403 | the rounds show green bars only in order, and a completed run is sorted and all green |
| InsertionSort.RoundsSort | src/components/sorting-visualizer.tsx:353-403 | the outer loop shows green bars only in order, and a completed run is sorted and all green |
| InsertionSort.RoundStays | src/components/sorting-visualizer.tsx:353-401 | the rounds keep equal values in any ranking they were in |
| InsertionSort.RoundsStay | src/components/sorting-visualizer.tsx:353-401 | the outer loop keeps equal values in any ranking they were in |
| InsertionSort.InsertionSortShown | src/components/sorting-visualizer.tsx:330-404 | a run first shows bar 0 green and the rest default, ends on its last snapshot, shows only permutations or half-done steps, and fails exactly on an empty array, showing nothing |
| InsertionSort.InsertionSortSorts | src/components/sorting-visualizer.tsx:330-404 | a completed run leaves the bars sorted by value and all green; green bars are always in order |
| InsertionSort.InsertionSortStable | src/components/sorting-visualizer.tsx:373 | insertion sort keeps equal values in any ranking the input had them in, whether it completes or is cancelled |
| InsertionSort.InsertionSortKeepsOrder | src/components/sorting-visualizer.tsx:373 | bars of equal value leave insertion sort in the order they arrived in, whatever that order |
| InsertionSort.InsertionSortCancel | src/components/sorting-visualizer.tsx:354-377 | a run stops early exactly when a cancel read finds the flag set, and then has shown a prefix of what it shows with the flag never set; left alone it completes on a non-empty array |
| InsertionSort.ShiftPrefix | src/components/sorting-visualizer.tsx:373-393 | a cancelled shift shows a prefix of the same shift with the flag never set, and a shift not cancelled is that shift |
| InsertionSort.RoundPrefix | src/components/sorting-visualizer.tsx:353-401 | a cancelled round shows a prefix of the uncancelled rounds, and one not cancelled is that run |
| InsertionSort.RoundsPrefix | src/components/sorting-visualizer.tsx:353-401 | the outer loop, if cancelled, shows a prefix of the uncancelled loop, and otherwise is that loop |
| InsertionSort.TwoBarsTrace | src/components/sorting-visualizer.tsx:349-400 | on two bars out of order the run shows five snapshots, the third holding the smaller bar twice |
| InsertionSort.InsertionSortShowsCopy | src/components/sorting-visualizer.tsx:380-383 | that third snapshot is not a permutation of the input |
| Playback.DelayFloor | src/components/sorting-visualizer.tsx:150 | the delay is at least 50 ms and otherwise the linear formula |
| Playback.DelayMonotone | src/components/sorting-visualizer.tsx:150 | a faster speed never gives a longer delay |
| Playback.DelayOnSlider | src/components/sorting-visualizer.tsx:150 | on speeds 1..100 the delay lies in 100..991 ms, the floor never applies, and the speed can be read back from it |
| Playback.DelayFloorBinds | src/components/sorting-visualizer.tsx:150 | the 50 ms floor applies exactly from speed 106 on |
| Playback.Sleep | src/components/sorting-visualizer.tsx:122-147 | a sleep that resolves does so at one of the polls observed |
| Playback.SleepFirst | src/components/sorting-visualizer.tsx:126-145 | a sleep resolves at the first poll that sees the flag set, or sees it unpaused and late enough, and waits exactly when no poll does |
| Playback.SleepCancelled | src/components/sorting-visualizer.tsx:127-135 | cancel takes precedence over pause: a poll that sees the flag set ends the sleep at or before it |
| Playback.SleepNotEarly | src/components/sorting-visualizer.tsx:132-142 | a sleep that was not cancelled never resolves while paused or early |
| Playback.SleepPaused | src/components/sorting-visualizer.tsx:132-135 | while paused and not cancelled, a sleep never resolves |
| Playback.FirstPollWaits | src/components/sorting-visualizer.tsx:122-147 | the synchronous first poll never ends a sleep of positive length unless the flag is set, so a suspended sort always has a frame pending |
| Dataset.DrawRange | src/components/sorting-visualizer.tsx:43 | a draw in [0, 1) gives a value in 10..99 |
| Dataset.DrawReaches | src/components/sorting-visualizer.tsx:43 | every value in 10..99 comes from some draw |
| Dataset.Fresh | src/components/sorting-visualizer.tsx:39-48 | the first count bars drawn number count; their shape is stated by `FreshShape` |
| Dataset.GenerateRandomData | src/components/sorting-visualizer.tsx:39-51 | the loop builds exactly count bars, bar k from draw k with index and originalIndex k, all labelled default, and an equal copy as the original |
| Dataset.FreshShape | src/components/sorting-visualizer.tsx:39-48 | fresh bars have values in 10..99, distinct originalIndex equal to position, and equal values in generation order |
| Dataset.FreshReaches | src/components/sorting-visualizer.tsx:39-48 | every array of values in 10..99 can be generated |
| Controller.ResetToOriginal | src/components/sorting-visualizer.tsx:407-427 | a reset cancels, unpauses and stops, shows the original bars all default, and keeps the original, speed and algorithm |
| Controller.ResetIdempotent | src/components/sorting-visualizer.tsx:407-427 | resetting twice equals resetting once, and a reset does not depend on what was shown or running |
| Controller.GenerateNew | src/components/sorting-visualizer.tsx:430-445 | new data cancels, unpauses and stops, and shows 20 fresh bars |
| Controller.GenerateThenReset | src/components/sorting-visualizer.tsx:430-445 | a reset right after new data changes nothing, and the new state is consistent |
| Controller.TogglePause | src/components/sorting-visualizer.tsx:448-452 | toggling flips isPaused, sets the pause flag to match, and changes nothing else |
| Controller.ToggleTwice | src/components/sorting-visualizer.tsx:448-452 | toggling twice restores the state exactly when the pause flag was in step with isPaused |
| Controller.StartDispatch | src/components/sorting-visualizer.tsx:455-465 | start does nothing exactly while a sort runs or for a name other than bubble, selection and insertion; otherwise isSorting is cleared unless the run failed |
| Controller.StartKeepsBars | src/components/sorting-visualizer.tsx:455-465 | after any run the array shown holds the same bars as before, and it is the array the sort left |
| Controller.StartSorts | src/components/sorting-visualizer.tsx:455-465 | left alone, each sort completes on a non-empty array with the bars sorted and all green, and isSorting cleared |
| Controller.StartStable | src/components/sorting-visualizer.tsx:455-465 | bubble and insertion sort keep equal values in any ranking they were in when the sort started |
| Controller.StartKeepsOrder | src/components/sorting-visualizer.tsx:455-465 | bubble and insertion sort leave equal values in the order they stood in when the sort started |
| Controller.HandleConsistent | src/components/sorting-visualizer.tsx:407-465 | every event keeps the shown bars a permutation of the original and the pause flag in step with isPaused; only new data replaces the original |
| Controller.HandleSpeed | src/components/sorting-visualizer.tsx:150 | the slider takes effect unless a sort runs unpaused, and any speed it sets gives a delay in 100..991 ms |

## Left out

- Rendering with D3 (bar geometry, colours, text) is not modelled. It is DOM work with floating-point layout.
- The clock and animation frames in `sleep` are not modelled. `Playback.Sleep` takes what each poll observes as input. The sorts do not call it, because a sleep's resolution never changes the array. The sorts read the cancel flag only at their loop heads, as the source does.
- `Math.random` is not modelled. It is replaced by a stream of draws in [0, 1).
- The JSX markup is not modelled. `Controller.Handle` models only which control is offered or enabled.
- React's asynchronous, batched state updates are not modelled. The state is a plain record, each `setData` is one trace entry, and each snapshot is a value copy. Under batching, some snapshots, including insertion sort's half-done step, may never reach the screen.
- Aliasing between snapshots is not modelled. `setData([...workingData])` copies only the array, so a later `workingData[k].state = …` also relabels the bar records already handed to `setData`. The model gives each snapshot its own labels.
- A reset or new draw during a run is modelled only as an event between runs. In the component these handlers set the cancel flag and also call `cancelAnimationFrame` on the frame the sort's pending sleep waits for. A sort between snapshots is always suspended in such a sleep (`Playback.FirstPollWaits`), so that sleep never resolves and the run is abandoned with its promise pending: it makes no further read, shows no further snapshot, and never clears `isSorting` itself. The model instead ends a run at a loop-head read that finds the flag set (`Cancelled`), the exit the code provides. The component's own handlers never take that exit. What a cancelled run has shown is still pinned: it is a prefix of the uncancelled run's trace. A handler's stale closure over `isSorting` is not modelled either.
- Controller.StartSorting: the pause flag is taken as cleared and `isPaused` as unchanged when the run returns. The cancel flag is taken as the run's last read saw it. Events during the run that would change them are not modelled.
- Quicksort and the reference algorithm texts in `src/lib/utils.ts` are not modelled. They are displayed, never run.
- The array length is not configurable. New data always draws 20 bars, and there is no length slider.
- The speed a running sort uses is not modelled. Its `getDelay` reads the speed from the render that started it, so a change made during the run is not seen; a comment at the top of the file notes this as a known defect. No sort property depends on timing.
- The iteration and swap counters of the explanation panel are not modelled. The component shown does not keep them.
