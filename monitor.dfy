/** The sequential decisions of the door monitor's main loop: runLEDSense
    (main.cpp:760-834), which samples both channels, steps the direction
    machine and logs crossings, and the display ticker (main.cpp:848-859). */
module Monitor {
  import opened Direction
  import opened Sensor
  import opened EventLog

  /** The event text a recorded crossing logs (onGoInside, onGoOutside). */
  function EventText(r: Record): string
  {
    match r
    case WentIn => "in"
    case WentOut => "out"
    case NoRecord => ""
  }

  /** The log after a step that recorded r. */
  function LogAfter(entries: seq<string>, r: Record, now: nat): seq<string>
  {
    if r == NoRecord then entries else Logged(entries, Entry(now, EventText(r)))
  }

  class DoorMonitor {
    const outside: SensorChannel
    const inside: SensorChannel
    const log: Log
    /** The static `state` of runLEDSense. */
    var phase: Phase
    /** canRunLEDSense, set by the LED ticker. */
    var canRun: bool
    /** sensorLEDPower. */
    var ledOn: bool

    ghost predicate Valid()
      reads this, outside, inside, log
    {
      outside != inside && outside.Valid() && inside.Valid() && log.Valid()
    }

    constructor ()
      ensures Valid() && phase == Nothing && !canRun && !ledOn
      ensures log.entries == [] && outside.state == Unblocked && inside.state == Unblocked
      ensures fresh(outside) && fresh(inside) && fresh(log)
    {
      outside := new SensorChannel();
      inside := new SensorChannel();
      log := new Log();
      phase := Nothing;
      canRun, ledOn := false, false;
    }

    /** onLEDTick (main.cpp:554-557). */
    method OnLEDTick()
      modifies this
      ensures canRun && phase == old(phase) && ledOn == old(ledOn)
    {
      canRun := true;
    }

    /** runLEDSense: nothing unless the ticker allowed it; otherwise both
        channels take a sample with the LED as it is, the LED toggles, the
        direction machine steps on the channels' new blocked-ness and logs
        a crossing at time now, and both channels settle into static
        states. The levels stand for the samples' brightness decisions. */
    method RunLEDSense(outsideLevel: Level, insideLevel: Level, now: nat)
      requires Valid()
      modifies this, outside, inside, log
      ensures Valid()
      ensures !old(canRun) ==> (phase == old(phase) && ledOn == old(ledOn)
        && unchanged(outside) && unchanged(inside) && unchanged(log))
      ensures old(canRun) ==> !canRun && ledOn == !old(ledOn)
      ensures old(canRun) ==>
        var o := Sampled(old(outside.state), old(outside.supersampleCount),
          old(outside.onValueSet), old(outside.offValueSet), old(ledOn), outsideLevel);
        var i := Sampled(old(inside.state), old(inside.supersampleCount),
          old(inside.onValueSet), old(inside.offValueSet), old(ledOn), insideLevel);
        var t := Next(old(phase), Reading(Blocks(o), Blocks(i)));
        phase == t.next && log.entries == LogAfter(old(log.entries), t.recorded, now)
        && outside.state == Staticified(o) && inside.state == Staticified(i)
      ensures old(canRun) ==> !Changing(outside.state) && !Changing(inside.state)
      ensures old(canRun) ==>
        outside.onValueSet == (old(outside.onValueSet) || (old(ledOn) && LastSample(outside.supersampleCount)))
        && outside.offValueSet == (old(outside.offValueSet) || (!old(ledOn) && LastSample(outside.supersampleCount)))
        && inside.onValueSet == (old(inside.onValueSet) || (old(ledOn) && LastSample(inside.supersampleCount)))
        && inside.offValueSet == (old(inside.offValueSet) || (!old(ledOn) && LastSample(inside.supersampleCount)))
      ensures old(canRun) ==>
        (if Decides(old(outside.supersampleCount), old(outside.onValueSet), old(outside.offValueSet), old(ledOn))
         then outside.display == !outside.IsBlocked() else outside.display == old(outside.display))
        && (if Decides(old(inside.supersampleCount), old(inside.onValueSet), old(inside.offValueSet), old(ledOn))
         then inside.display == !inside.IsBlocked() else inside.display == old(inside.display))
      ensures old(canRun) ==>
        outside.supersampleCount == NextCount(old(outside.supersampleCount))
        && inside.supersampleCount == NextCount(old(inside.supersampleCount))
    {
      if !canRun {
        return;
      }
      canRun := false;
      var isLEDOn := ledOn;
      outside.Run(isLEDOn, outsideLevel);
      inside.Run(isLEDOn, insideLevel);
      ledOn := !isLEDOn;
      var t := Next(phase, Reading(outside.IsBlocked(), inside.IsBlocked()));
      phase := t.next;
      if t.recorded != NoRecord {
        log.AddEvent(now, EventText(t.recorded));
      }
      outside.StaticifyState();
      inside.StaticifyState();
    }
  }

  /** DisplayLast: the number of display pages (time, IP address). */
  const DISPLAY_LAST: int := 2

  /** displayInfoState. */
  class DisplayInfo {
    var state: int

    ghost predicate Valid()
      reads this
    {
      0 <= state < DISPLAY_LAST
    }

    constructor ()
      ensures Valid() && state == 0
    {
      state := 0;
    }

    /** handleDisplayInfoTick (main.cpp:856-859): the next page, wrapping
        around after the last. */
    method Tick()
      requires Valid()
      modifies this
      ensures Valid() && state == Cycled(old(state), 1)
    {
      state := (state + 1) % DISPLAY_LAST;
      CycledStep(old(state), 0);
    }
  }

  /** The page after k ticks from page s. */
  function Cycled(s: int, k: nat): (r: int)
    requires 0 <= s < DISPLAY_LAST
    ensures 0 <= r < DISPLAY_LAST
  {
    if k == 0 then s
    else var p := Cycled(s, k - 1); if p + 1 == DISPLAY_LAST then 0 else p + 1
  }

  /** One tick more is the C remainder of one more step. */
  lemma CycledStep(s: int, k: nat)
    requires 0 <= s < DISPLAY_LAST
    ensures Cycled(s, k + 1) == (Cycled(s, k) + 1) % DISPLAY_LAST
  {
  }

  /** The ticker visits every page in turn: k ticks from s reach
      (s + k) mod DisplayLast, so DisplayLast ticks return to the start and
      fewer never do. */
  lemma {:induction false} CycledPages(s: int, k: nat)
    requires 0 <= s < DISPLAY_LAST
    ensures Cycled(s, k) == (s + k) % DISPLAY_LAST
    ensures 0 < k < DISPLAY_LAST ==> Cycled(s, k) != s
    ensures Cycled(s, DISPLAY_LAST) == s
  {
    CycledMod(s, k);
    CycledMod(s, DISPLAY_LAST);
  }

  lemma {:induction false} CycledMod(s: int, k: nat)
    requires 0 <= s < DISPLAY_LAST
    ensures Cycled(s, k) == (s + k) % DISPLAY_LAST
  {
    if k > 0 {
      CycledMod(s, k - 1);
    }
  }
}
