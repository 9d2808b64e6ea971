/**
 * The cut-off of bsm-2/cutoff.c: four checks, three of them with a timer, and an actuator that runs once and can be
 * held back for a while. The clock counts milliseconds; whether the balloon is too far away is an input.
 */
module Cutoff {
  import StatusMgr

  /** Times in seconds, lengths in metres. */
  datatype Limits = Limits(missionTimeout: int, distTimeout: int, deltaAltitude: int, altitudeTimeout: int,
                           altmaxMeters: int, altmaxTimeout: int)

  /** The ranges to which the configuration entries are clamped. */
  predicate InRange(l: Limits) {
    && 10 <= l.missionTimeout <= 86400 && 0 <= l.distTimeout <= 1800 && 10 <= l.deltaAltitude <= 5000
    && 0 <= l.altitudeTimeout <= 300 && 20 <= l.altmaxMeters <= 500000 && 0 <= l.altmaxTimeout <= 1800
  }

  const SECOND := 1000
  const MIN_ALTITUDE := -2000
  const PAUSE_TIME := 5 * 60 * SECOND

  /** What one check sees; now is read a little earlier than clock. */
  datatype Reading = Reading(now: int, clock: int, alt: int, tooFar: bool, status: StatusMgr.Status, missionStart: int,
                             test: bool)

  predicate InFlight(s: StatusMgr.Status) {
    s != StatusMgr.GroundWait && s != StatusMgr.NoFix
  }

  datatype Timer = Fine | Since(start: int)

  datatype State = State(dist: Timer, drop: Timer, high: Timer, altMax: int, cut: bool, pauseTime: int)

  const FRESH := State(Fine, Fine, Fine, MIN_ALTITUDE, false, 0)

  // --- What one check does ---

  predicate TimeOver(l: Limits, x: Reading) {
    x.now - x.missionStart > l.missionTimeout * SECOND
  }

  function Ticked(t: Timer, bad: bool, now: int): Timer {
    if !bad then Fine else if t.Fine? then Since(now) else t
  }

  /** Given the timer before the check. */
  predicate TimedOut(t: Timer, bad: bool, now: int, timeout: int) {
    bad && t.Since? && now - t.start > timeout * SECOND
  }

  predicate BadDist(x: Reading) {
    InFlight(x.status) && x.tooFar
  }

  function Peak(altMax: int, x: Reading): int {
    if InFlight(x.status) && x.alt > altMax then x.alt else altMax
  }

  predicate BadDrop(l: Limits, altMax: int, x: Reading) {
    InFlight(x.status) && Peak(altMax, x) - x.alt > l.deltaAltitude
  }

  predicate BadHigh(l: Limits, x: Reading) {
    InFlight(x.status) && x.alt > l.altmaxMeters
  }

  /** The timers after a check and whether one of the four conditions holds; the first that does hides the rest. */
  function Evaluate(l: Limits, s: State, x: Reading): (State, bool) {
    if TimeOver(l, x) then (s, true) else
    var s1 := s.(dist := Ticked(s.dist, BadDist(x), x.now));
    if TimedOut(s.dist, BadDist(x), x.now, l.distTimeout) then (s1, true) else
    var bad := BadDrop(l, s.altMax, x);
    var s2 := s1.(altMax := Peak(s.altMax, x), drop := Ticked(s.drop, bad, x.now));
    if TimedOut(s.drop, bad, x.now, l.altitudeTimeout) then (s2, true) else
    var s3 := s2.(high := Ticked(s.high, BadHigh(l, x), x.now));
    (s3, TimedOut(s.high, BadHigh(l, x), x.now, l.altmaxTimeout))
  }

  predicate OnHold(pauseTime: int, clock: int) {
    pauseTime != 0 && clock - pauseTime < PAUSE_TIME
  }

  datatype Event = Check(x: Reading) | Pause(clock: int) | Resume | Reset

  /** The state after an event and whether the cutting procedure ran. */
  function Step(l: Limits, s: State, e: Event): (State, bool) {
    match e
    case Check(x) =>
      var (t, over) := Evaluate(l, s, x);
      if !over || OnHold(t.pauseTime, x.clock) then (t, false)
      else (t.(pauseTime := 0, cut := t.cut || !x.test), !t.cut && !x.test)
    case Pause(clock) => (s.(pauseTime := clock), false)
    case Resume => (s.(pauseTime := 0), false)
    case Reset => (FRESH, false)
  }

  // --- The process ---

  class CutoffManager {
    var limits: Limits
    var maxaltOk: bool
    var maxaltKoTime: int
    var distOk: bool
    var distKoTime: int
    var altOk: bool
    var altKoTime: int
    var altMax: int
    var cut: bool
    var pauseTime: int

    /** The time at which a condition began matters only while it lasts. */
    function TimerOf(ok: bool, koTime: int): Timer {
      if ok then Fine else Since(koTime)
    }

    function View(): State
      reads this
    {
      State(TimerOf(distOk, distKoTime), TimerOf(altOk, altKoTime), TimerOf(maxaltOk, maxaltKoTime), altMax, cut,
            pauseTime)
    }

    constructor (l: Limits)
      ensures limits == l && View() == FRESH
    {
      limits := l;
      maxaltOk, distOk, altOk, altMax, cut, pauseTime := true, true, true, MIN_ALTITUDE, false, 0;
      maxaltKoTime, distKoTime, altKoTime := 0, 0, 0;
    }

    method CheckMaxalt(x: Reading) returns (ok: bool)
      modifies `maxaltOk, `maxaltKoTime
      ensures View() == old(View()).(high := Ticked(old(View()).high, BadHigh(limits, x), x.now))
      ensures ok == !TimedOut(old(View()).high, BadHigh(limits, x), x.now, limits.altmaxTimeout)
    {
      if x.status != StatusMgr.GroundWait && x.status != StatusMgr.NoFix {
        if x.alt > limits.altmaxMeters {
          if maxaltOk {
            maxaltOk := false;
            maxaltKoTime := x.now;
          } else if x.now - maxaltKoTime > limits.altmaxTimeout * SECOND {
            return false;
          }
          return true;
        }
      }
      maxaltOk := true;
      return true;
    }

    method CheckDist(x: Reading) returns (ok: bool)
      modifies `distOk, `distKoTime
      ensures View() == old(View()).(dist := Ticked(old(View()).dist, BadDist(x), x.now))
      ensures ok == !TimedOut(old(View()).dist, BadDist(x), x.now, limits.distTimeout)
    {
      if x.status != StatusMgr.GroundWait && x.status != StatusMgr.NoFix {
        if x.tooFar {
          if distOk {
            distOk := false;
            distKoTime := x.now;
          } else if x.now - distKoTime > limits.distTimeout * SECOND {
            return false;
          }
          return true;
        }
      }
      distOk := true;
      return true;
    }

    method CheckAltitude(x: Reading) returns (ok: bool)
      modifies `altOk, `altKoTime, `altMax
      ensures var was := old(View()); var bad := BadDrop(limits, was.altMax, x);
        && View() == was.(altMax := Peak(was.altMax, x), drop := Ticked(was.drop, bad, x.now))
        && ok == !TimedOut(was.drop, bad, x.now, limits.altitudeTimeout)
    {
      if x.status != StatusMgr.GroundWait && x.status != StatusMgr.NoFix {
        altMax := if altMax > x.alt then altMax else x.alt;
        if altMax - x.alt > limits.deltaAltitude {
          if altOk {
            altOk := false;
            altKoTime := x.now;
          } else if x.now - altKoTime > limits.altitudeTimeout * SECOND {
            return false;
          }
          return true;
        }
      }
      altOk := true;
      return true;
    }

    method CheckTime(x: Reading) returns (ok: bool)
      ensures ok == !TimeOver(limits, x)
    {
      ok := !(x.now - x.missionStart > limits.missionTimeout * SECOND);
    }

    method Cut(test: bool) returns (ran: bool)
      modifies `cut
      ensures cut == (old(cut) || !test) && ran == (!old(cut) && !test)
    {
      ran := false;
      if !cut && !test {
        cut := true;
        ran := true;
      }
    }

    method EvaluateChecks(x: Reading) returns (over: bool)
      modifies this
      ensures limits == old(limits) && (View(), over) == Evaluate(limits, old(View()), x)
    {
      var ok := CheckTime(x);
      if ok {
        ok := CheckDist(x);
      }
      if ok {
        ok := CheckAltitude(x);
      }
      if ok {
        ok := CheckMaxalt(x);
      }
      over := !ok;
    }

    /** The answer of the check and whether the procedure ran. */
    method CutoffCheck(x: Reading) returns (over: bool, ran: bool)
      modifies this
      ensures limits == old(limits) && over == Evaluate(limits, old(View()), x).1
      ensures (View(), ran) == Step(limits, old(View()), Check(x))
    {
      over := EvaluateChecks(x);
      ran := false;
      if over {
        if pauseTime != 0 && x.clock - pauseTime < PAUSE_TIME {
        } else {
          pauseTime := 0;
          ran := Cut(x.test);
        }
      }
    }

    method CutoffReset()
      modifies this
      ensures limits == old(limits) && View() == FRESH
    {
      altOk := true;
      altMax := MIN_ALTITUDE;
      distOk := true;
      maxaltOk := true;
      pauseTime := 0;
      cut := false;
    }

    /** A new configuration resets the state. */
    method Reload(l: Limits)
      modifies this
      ensures limits == l && View() == FRESH
    {
      limits := l;
      CutoffReset();
    }

    method CutoffPause(clock: int)
      modifies `pauseTime
      ensures (View(), false) == Step(limits, old(View()), Pause(clock))
    {
      pauseTime := clock;
    }

    method CutoffResume()
      modifies `pauseTime
      ensures (View(), false) == Step(limits, old(View()), Resume)
    {
      pauseTime := 0;
    }
  }
}
