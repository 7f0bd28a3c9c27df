/** The direction state machine of runLEDSense (main.cpp:679-691,
    771-824): two light barriers, one outside and one inside the door, and
    the order in which they are blocked and cleared decides whether someone
    went in or out. */
module Direction {
  /** SensorStateType. */
  datatype Phase =
    | Nothing
    | GoingInFirstBlocked | GoingInBothBlocked | GoingInLastBlocked
    | GoingOutFirstBlocked | GoingOutBothBlocked | GoingOutLastBlocked

  /** What one step records: onGoInside ("in"), onGoOutside ("out") or
      nothing. */
  datatype Record = NoRecord | WentIn | WentOut

  /** The blocked-ness of both sensors as one step sees it. */
  datatype Reading = Reading(outside: bool, inside: bool)

  datatype Transition = Transition(next: Phase, recorded: Record)

  /** One pass through the switch of runLEDSense. */
  function Next(p: Phase, r: Reading): Transition
  {
    match p
    case GoingInFirstBlocked =>
      if r.outside then Transition(GoingInBothBlocked, NoRecord)
      else if !r.inside then Transition(Nothing, NoRecord)
      else Transition(p, NoRecord)
    case GoingInBothBlocked =>
      if !r.inside then Transition(GoingInLastBlocked, NoRecord)
      else if !r.outside then Transition(GoingInFirstBlocked, NoRecord)
      else Transition(p, NoRecord)
    case GoingInLastBlocked =>
      if r.inside then Transition(GoingInBothBlocked, NoRecord)
      else if !r.outside then Transition(Nothing, WentIn)
      else Transition(p, NoRecord)
    case GoingOutFirstBlocked =>
      if r.inside then Transition(GoingOutBothBlocked, NoRecord)
      else if !r.outside then Transition(Nothing, NoRecord)
      else Transition(p, NoRecord)
    case GoingOutBothBlocked =>
      if !r.outside then Transition(GoingOutLastBlocked, NoRecord)
      else if !r.inside then Transition(GoingOutFirstBlocked, NoRecord)
      else Transition(p, NoRecord)
    case GoingOutLastBlocked =>
      if r.outside then Transition(GoingOutBothBlocked, NoRecord)
      else if !r.inside then Transition(Nothing, WentOut)
      else Transition(p, NoRecord)
    case Nothing =>
      if r.outside then Transition(GoingOutFirstBlocked, NoRecord)
      else if r.inside then Transition(GoingInFirstBlocked, NoRecord)
      else Transition(Nothing, NoRecord)
  }

  /** Leaving Nothing: a blocked outside sensor wins over a blocked inside
      one, and nothing is recorded. */
  lemma FromNothing(r: Reading)
    ensures Next(Nothing, r).recorded == NoRecord
    ensures r.outside ==> Next(Nothing, r).next == GoingOutFirstBlocked
    ensures !r.outside && r.inside ==> Next(Nothing, r).next == GoingInFirstBlocked
    ensures !r.outside && !r.inside ==> Next(Nothing, r).next == Nothing
  {
  }

  /** "in" is recorded exactly when GoingInLastBlocked sees both sensors
      clear, "out" exactly when GoingOutLastBlocked does, and every
      recording returns the machine to Nothing. */
  lemma Recording(p: Phase, r: Reading)
    ensures Next(p, r).recorded == WentIn <==> p == GoingInLastBlocked && !r.inside && !r.outside
    ensures Next(p, r).recorded == WentOut <==> p == GoingOutLastBlocked && !r.inside && !r.outside
    ensures Next(p, r).recorded != NoRecord ==> Next(p, r).next == Nothing
  {
  }

  /** Which way a crossing under way is going. */
  datatype Way = Idle | Inward | Outward

  function WayOf(p: Phase): Way
  {
    match p
    case Nothing => Idle
    case GoingInFirstBlocked => Inward
    case GoingInBothBlocked => Inward
    case GoingInLastBlocked => Inward
    case GoingOutFirstBlocked => Outward
    case GoingOutBothBlocked => Outward
    case GoingOutLastBlocked => Outward
  }

  /** A crossing under way keeps its direction until the machine is back
      at Nothing. */
  lemma WayKept(p: Phase, r: Reading)
    requires p != Nothing && Next(p, r).next != Nothing
    ensures WayOf(Next(p, r).next) == WayOf(p)
  {
  }

  /** The phase after a run of readings. */
  function Walk(p: Phase, rs: seq<Reading>): Phase
    decreases |rs|
  {
    if |rs| == 0 then p else Walk(Next(p, rs[0]).next, rs[1..])
  }

  /** p and every phase the readings lead through are away from Nothing. */
  predicate Busy(p: Phase, rs: seq<Reading>)
    decreases |rs|
  {
    p != Nothing && (|rs| == 0 || Busy(Next(p, rs[0]).next, rs[1..]))
  }

  /** A walk that never returns to Nothing keeps the direction it started
      with. */
  lemma {:induction false} WalkKeepsWay(p: Phase, rs: seq<Reading>)
    requires Busy(p, rs)
    ensures Walk(p, rs) != Nothing && WayOf(Walk(p, rs)) == WayOf(p)
    decreases |rs|
  {
    if |rs| > 0 {
      WayKept(p, rs[0]);
      WalkKeepsWay(Next(p, rs[0]).next, rs[1..]);
    }
  }

  /** The direction recorded at the end of a crossing is the side whose
      sensor was blocked first: a crossing that starts from Nothing with
      reading first and records something at reading last, without
      returning to Nothing in between, records "in" only when the inside
      sensor alone was blocked first and "out" only when the outside
      sensor was. */
  lemma {:induction false} CrossingDirection(first: Reading, middle: seq<Reading>, last: Reading)
    requires Busy(Next(Nothing, first).next, middle)
    ensures var p := Walk(Next(Nothing, first).next, middle);
      (Next(p, last).recorded == WentIn ==> !first.outside && first.inside)
      && (Next(p, last).recorded == WentOut ==> first.outside)
  {
    var start := Next(Nothing, first).next;
    WalkKeepsWay(start, middle);
    var p := Walk(start, middle);
    Recording(p, last);
    FromNothing(first);
  }

  /** Inside blocked, then both, then outside only, then neither: one
      "in". */
  lemma WalkingIn()
    ensures var p := Walk(Nothing, [Reading(false, true), Reading(true, true), Reading(true, false)]);
      p == GoingInLastBlocked && Next(p, Reading(false, false)) == Transition(Nothing, WentIn)
  {
  }
}
