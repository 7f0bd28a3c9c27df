/** SingleSensorChannel (main.cpp:559-671): one light barrier, sampled with
    the sensor LED alternately on and off. The analog readings and their
    floating-point averages are not modelled; what a finished sample
    decides is an input, a Level. */
module Sensor {
  /** SupersampleFactor (main.cpp:52). */
  const SUPERSAMPLE_FACTOR: int := 2

  /** SingleSensorChannel::State: Blocking and Unblocking are the changing
      states a step has just entered; Blocked and Unblocked are static. */
  datatype ChannelState = Blocked | Blocking | Unblocked | Unblocking

  predicate Blocks(s: ChannelState)
  {
    s == Blocked || s == Blocking
  }

  predicate Changing(s: ChannelState)
  {
    s == Blocking || s == Unblocking
  }

  /** The state after staticifyState. */
  function Staticified(s: ChannelState): ChannelState
  {
    match s
    case Blocking => Blocked
    case Unblocking => Unblocked
    case _ => s
  }

  /** The state after setChangingState(blocked). */
  function Changed(s: ChannelState, blocked: bool): ChannelState
  {
    if blocked then (if Blocks(s) then s else Blocking)
    else (if Blocks(s) then Unblocking else s)
  }

  /** staticifyState ends in a static state with the same blocked-ness,
      leaves static states alone and is idempotent. */
  lemma StaticifiedState(s: ChannelState)
    ensures !Changing(Staticified(s)) && Blocks(Staticified(s)) == Blocks(s)
    ensures !Changing(s) ==> Staticified(s) == s
    ensures Staticified(Staticified(s)) == Staticified(s)
  {
  }

  /** setChangingState(b) leaves the channel blocked exactly when b; a
      channel whose blocked-ness already matches is untouched, and one that
      flips enters the changing state. */
  lemma ChangedState(s: ChannelState, blocked: bool)
    ensures Blocks(Changed(s, blocked)) == blocked
    ensures Blocks(s) == blocked ==> Changed(s, blocked) == s
    ensures Blocks(s) != blocked ==> Changing(Changed(s, blocked))
  {
  }

  /** What a finished sample says about the brightness difference between
      LED on and LED off: below lowerValueThreshold (the beam is blocked),
      above upperValueThreshold (clear), or in between (no decision). */
  datatype Level = Low | Middle | High

  /** The decision at the end of run (main.cpp:663-667). */
  function Decided(s: ChannelState, level: Level): ChannelState
  {
    match level
    case Low => Changed(s, true)
    case High => Changed(s, false)
    case Middle => s
  }

  /** The counts after which a sample of each LED phase is complete. */
  predicate LastSample(count: int)
  {
    count == 0 || count == SUPERSAMPLE_FACTOR * 2 - 1
  }

  /** The supersample counter after one run. */
  function NextCount(count: int): (r: int)
    requires 0 <= count < 2 * SUPERSAMPLE_FACTOR
    ensures 0 <= r < 2 * SUPERSAMPLE_FACTOR
    ensures r == (count + 1) % (2 * SUPERSAMPLE_FACTOR)
  {
    if count + 1 >= SUPERSAMPLE_FACTOR * 2 then 0 else count + 1
  }

  /** Whether a run from this counter and these phase flags, with the LED
      on or off, ends a sample with both LED phases measured, so that the
      level decides the state (main.cpp:613-624, 648-669). */
  predicate Decides(count: int, onSet: bool, offSet: bool, isLEDOn: bool)
    requires 0 <= count < 2 * SUPERSAMPLE_FACTOR
  {
    LastSample(NextCount(count)) && (onSet || isLEDOn) && (offSet || !isLEDOn)
  }

  /** The channel state after one run. */
  function Sampled(s: ChannelState, count: int, onSet: bool, offSet: bool, isLEDOn: bool, level: Level): ChannelState
    requires 0 <= count < 2 * SUPERSAMPLE_FACTOR
  {
    if Decides(count, onSet, offSet, isLEDOn) then Decided(s, level) else s
  }

  /** What a run makes of the levels: a deciding run leaves the channel
      blocked after Low and clear after High; Middle, or a run that does not
      decide, keeps the state. */
  lemma SampledLevel(s: ChannelState, count: int, onSet: bool, offSet: bool, isLEDOn: bool, level: Level)
    requires 0 <= count < 2 * SUPERSAMPLE_FACTOR
    ensures Decides(count, onSet, offSet, isLEDOn) && level == Low ==>
      Blocks(Sampled(s, count, onSet, offSet, isLEDOn, level))
    ensures Decides(count, onSet, offSet, isLEDOn) && level == High ==>
      !Blocks(Sampled(s, count, onSet, offSet, isLEDOn, level))
    ensures !Decides(count, onSet, offSet, isLEDOn) || level == Middle ==>
      Sampled(s, count, onSet, offSet, isLEDOn, level) == s
  {
    ChangedState(s, true);
    ChangedState(s, false);
  }

  /** The counter after n runs from count. */
  function CountAfter(count: int, n: nat): (r: int)
    requires 0 <= count < 2 * SUPERSAMPLE_FACTOR
    ensures 0 <= r < 2 * SUPERSAMPLE_FACTOR
  {
    if n == 0 then count else NextCount(CountAfter(count, n - 1))
  }

  /** The counter is a clock of period 2 * SupersampleFactor. */
  lemma {:induction false} CountCycles(count: int, n: nat)
    requires 0 <= count < 2 * SUPERSAMPLE_FACTOR
    ensures CountAfter(count, n) == (count + n) % (2 * SUPERSAMPLE_FACTOR)
  {
    if n > 0 {
      CountCycles(count, n - 1);
    }
  }

  class SensorChannel {
    var state: ChannelState
    var supersampleCount: int
    var onValueSet: bool
    var offValueSet: bool
    /** The indicator LED: lit while the beam is clear. */
    var display: bool

    ghost predicate Valid()
      reads this
    {
      0 <= supersampleCount < 2 * SUPERSAMPLE_FACTOR
    }

    /** The constructor (main.cpp:577-580): unblocked, no sample yet. */
    constructor ()
      ensures Valid() && state == Unblocked && supersampleCount == 0
      ensures !onValueSet && !offValueSet
    {
      state := Unblocked;
      supersampleCount := 0;
      onValueSet, offValueSet := false, false;
    }

    /** isBlocked (main.cpp:589-592). */
    function IsBlocked(): (r: bool)
      reads this
      ensures r <==> state == Blocked || state == Blocking
    {
      Blocks(state)
    }

    /** staticifyState (main.cpp:582-588). */
    method StaticifyState()
      modifies this
      ensures state == Staticified(old(state)) && !Changing(state)
      ensures IsBlocked() == old(IsBlocked())
      ensures supersampleCount == old(supersampleCount) && display == old(display)
      ensures onValueSet == old(onValueSet) && offValueSet == old(offValueSet)
    {
      if state == Blocking {
        state := Blocked;
      } else if state == Unblocking {
        state := Unblocked;
      }
    }

    /** setChangingState (main.cpp:593-605). */
    method SetChangingState(blocked: bool)
      modifies this
      ensures state == Changed(old(state), blocked) && IsBlocked() == blocked
      ensures old(IsBlocked()) == blocked ==> state == old(state)
      ensures supersampleCount == old(supersampleCount) && display == old(display)
      ensures onValueSet == old(onValueSet) && offValueSet == old(offValueSet)
    {
      if blocked {
        if !IsBlocked() {
          state := Blocking;
        }
      } else {
        if IsBlocked() {
          state := Unblocking;
        }
      }
    }

    /** run (main.cpp:606-670) without the arithmetic on samples: advance the
        supersample counter; when a sample is complete, mark the LED phase
        it belongs to as measured; once both phases are measured, let the
        level decide the state and show it on the indicator. */
    method Run(isLEDOn: bool, level: Level)
      requires Valid()
      modifies this
      ensures Valid() && supersampleCount == NextCount(old(supersampleCount))
      ensures onValueSet == (old(onValueSet) || (isLEDOn && LastSample(supersampleCount)))
      ensures offValueSet == (old(offValueSet) || (!isLEDOn && LastSample(supersampleCount)))
      ensures LastSample(supersampleCount) && onValueSet && offValueSet ==>
        state == Decided(old(state), level) && display == !IsBlocked()
      ensures !(LastSample(supersampleCount) && onValueSet && offValueSet) ==>
        state == old(state) && display == old(display)
      ensures state == Sampled(old(state), old(supersampleCount), old(onValueSet), old(offValueSet), isLEDOn, level)
      ensures Decides(old(supersampleCount), old(onValueSet), old(offValueSet), isLEDOn)
        <==> LastSample(supersampleCount) && onValueSet && offValueSet
    {
      supersampleCount := supersampleCount + 1;
      if supersampleCount >= SUPERSAMPLE_FACTOR * 2 {
        supersampleCount := 0;
      }
      var isLastSample := supersampleCount == 0 || supersampleCount == SUPERSAMPLE_FACTOR * 2 - 1;
      if isLEDOn {
        if isLastSample {
          onValueSet := true;
        }
      } else {
        if isLastSample {
          offValueSet := true;
        }
      }
      if !isLastSample {
        return;
      }
      if !onValueSet || !offValueSet {
        return;
      }
      if level == Low {
        SetChangingState(true);
      } else if level == High {
        SetChangingState(false);
      }
      display := !IsBlocked();
    }
  }
}
