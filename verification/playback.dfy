/** Playback timing of the visualizer: the delay between animation steps,
    set by the speed slider, and the suspension a sort makes after each
    snapshot (`sleep`), which polls the cancel and pause flags once per
    animation frame. Clocks and frames are outside inputs here: each poll
    is given as what it observes. */
module Playback {

  /** The slider's range. */
  const MinSpeed := 1
  const MaxSpeed := 100

  /** `getDelay`: milliseconds to wait per step at slider position `speed`,
      never below 50. */
  function Delay(speed: int): (ms: int)
  {
    if 1000 - speed * 9 < 50 then 50 else 1000 - speed * 9
  }

  /** The delay is never shorter than 50 ms, and it is the straight-line
      formula wherever that formula is at least 50. */
  lemma DelayFloor(speed: int)
    ensures Delay(speed) >= 50
    ensures Delay(speed) >= 1000 - speed * 9
    ensures Delay(speed) == 50 || Delay(speed) == 1000 - speed * 9
  {
  }

  /** A faster slider never gives a longer delay. */
  lemma DelayMonotone(slow: int, fast: int)
    requires slow <= fast
    ensures Delay(fast) <= Delay(slow)
  {
  }

  /** On the slider's range the floor never applies: the delay runs from
      991 ms at speed 1 down to 100 ms at speed 100, and the speed can be
      read back from it. */
  lemma DelayOnSlider(speed: int)
    requires MinSpeed <= speed <= MaxSpeed
    ensures 100 <= Delay(speed) <= 991
    ensures Delay(speed) == 1000 - speed * 9
    ensures (1000 - Delay(speed)) / 9 == speed
  {
  }

  /** Past speed 105 the floor takes over. */
  lemma DelayFloorBinds(speed: int)
    ensures Delay(speed) == 50 <==> speed >= 106
  {
  }

  // ---------------------------------------------------------------------
  // Sleep

  /** What one call of `checkPause` sees: the cancel flag, the pause
      flag, and the clock. */
  datatype Tick = Tick(cancel: bool, pause: bool, now: int)

  /** What one call of `checkPause` decides. */
  datatype Poll = Resolve | Wait

  /** `checkPause` of a `sleep(ms)` that started at `start`: resolve at
      once when cancelled; otherwise keep waiting while paused; otherwise
      resolve once `ms` have passed. */
  function CheckPause(t: Tick, start: int, ms: int): Poll {
    if t.cancel then Resolve
    else if t.pause then Wait
    else if t.now - start >= ms then Resolve
    else Wait
  }

  /** The result of a `sleep`: how many polls it took to resolve, if it
      resolved within the polls given. */
  datatype Wake = Asleep | Woke(polls: nat)

  /** `sleep(ms)` started at `start`, polled once synchronously and then
      once per animation frame, observing `ticks` in turn. */
  function Sleep(ticks: seq<Tick>, start: int, ms: int): (w: Wake)
    ensures w.Woke? ==> 0 < w.polls <= |ticks|
    decreases |ticks|
  {
    if ticks == [] then Asleep
    else if CheckPause(ticks[0], start, ms) == Resolve then Woke(1)
    else match Sleep(ticks[1..], start, ms)
      case Asleep => Asleep
      case Woke(k) => Woke(k + 1)
  }

  /** A poll that ends the sleep: the flag set, or unpaused and late enough. */
  predicate Wakes(t: Tick, start: int, ms: int) {
    t.cancel || (!t.pause && t.now - start >= ms)
  }

  /** The sleep ends at the first poll that `Wakes`, and only there; it
      keeps waiting exactly when no poll does. */
  lemma {:induction false} SleepFirst(ticks: seq<Tick>, start: int, ms: int)
    ensures var w := Sleep(ticks, start, ms);
      && (w.Woke? ==> Wakes(ticks[w.polls - 1], start, ms)
                      && forall k :: 0 <= k < w.polls - 1 ==> !Wakes(ticks[k], start, ms))
      && (w.Asleep? <==> forall k :: 0 <= k < |ticks| ==> !Wakes(ticks[k], start, ms))
    decreases |ticks|
  {
    if ticks != [] {
      SleepFirst(ticks[1..], start, ms);
      var w := Sleep(ticks, start, ms);
      if !Wakes(ticks[0], start, ms) {
        forall k | 1 <= k < |ticks|
          ensures ticks[k] == ticks[1..][k - 1]
        {
        }
      }
    }
  }

  /** Cancel takes precedence over pause: a poll that sees the flag set
      ends the sleep, at that poll or earlier, whatever the pause flag. */
  lemma {:induction false} SleepCancelled(ticks: seq<Tick>, start: int, ms: int, k: nat)
    requires k < |ticks| && ticks[k].cancel
    ensures var w := Sleep(ticks, start, ms);
      w.Woke? && w.polls <= k + 1
    decreases k
  {
    if k > 0 && CheckPause(ticks[0], start, ms) == Wait {
      assert ticks[1..][k - 1] == ticks[k];
      SleepCancelled(ticks[1..], start, ms, k - 1);
    }
  }

  /** A sleep that was not cancelled never ends early, and never while
      paused. */
  lemma SleepNotEarly(ticks: seq<Tick>, start: int, ms: int)
    ensures var w := Sleep(ticks, start, ms);
      w.Woke? && !ticks[w.polls - 1].cancel ==>
        !ticks[w.polls - 1].pause && ticks[w.polls - 1].now - start >= ms
  {
    SleepFirst(ticks, start, ms);
  }

  /** While paused and not cancelled, a sleep never ends, however long. */
  lemma SleepPaused(ticks: seq<Tick>, start: int, ms: int)
    requires forall k :: 0 <= k < |ticks| ==> ticks[k].pause && !ticks[k].cancel
    ensures Sleep(ticks, start, ms) == Asleep
  {
    SleepFirst(ticks, start, ms);
  }

  /** The first poll of a sleep is made at once, before the clock moves,
      so unless the cancel flag is already set it never ends a sleep of
      positive length: a sort suspended in a sleep always has an animation
      frame pending, and a sleep whose frame is cancelled stays asleep. */
  lemma FirstPollWaits(pause: bool, start: int, ms: int)
    requires ms > 0
    ensures CheckPause(Tick(false, pause, start), start, ms) == Wait
    ensures Sleep([Tick(false, pause, start)], start, ms) == Asleep
  {
  }
}
