/**
 * What makes the cut-off answer, in plain numbers: runs in which nothing is wrong never do, and what stays wrong for
 * longer than its timeout always does.
 */
module CutoffLimits {
  import opened Cutoff
  import opened CutoffHistory
  import StatusMgr

  predicate OnGround(x: Reading) {
    x.status == StatusMgr.GroundWait || x.status == StatusMgr.NoFix
  }

  // --- What never fails ---

  /** Never above the limit, except on the ground or without a fix. */
  predicate NeverTooHigh(l: Limits, es: seq<Event>) {
    forall i | 0 <= i < |es| && es[i].Check? :: es[i].x.alt <= l.altmaxMeters || OnGround(es[i].x)
  }

  predicate NeverTooFar(es: seq<Event>) {
    forall i | 0 <= i < |es| && es[i].Check? :: !es[i].x.tooFar || OnGround(es[i].x)
  }

  /** The fall from the i-th reading to the j-th is within the limit. */
  predicate SmallFall(l: Limits, es: seq<Event>, i: nat, j: nat)
    requires i < |es| && j < |es|
  {
    es[i].Check? && es[j].Check? && !OnGround(es[i].x) && !OnGround(es[j].x)
    ==> es[i].x.alt - es[j].x.alt <= l.deltaAltitude
  }

  /** No fall of more than the limit between any two readings, nor from -2000 metres. */
  predicate NeverDropped(l: Limits, es: seq<Event>) {
    && (forall i, j | 0 <= i <= j < |es| :: SmallFall(l, es, i, j))
    && (forall j | 0 <= j < |es| && es[j].Check? :: OnGround(es[j].x) || -2000 - es[j].x.alt <= l.deltaAltitude)
  }

  lemma {:induction false} LowNeverFails(l: Limits, es: seq<Event>)
    requires NeverTooHigh(l, es)
    ensures After(l, es).high == Fine
    decreases |es|
  {
    if es != [] {
      LowNeverFails(l, es[..|es| - 1]);
    }
  }

  lemma {:induction false} NearNeverFails(l: Limits, es: seq<Event>)
    requires NeverTooFar(es)
    ensures After(l, es).dist == Fine
    decreases |es|
  {
    if es != [] {
      NearNeverFails(l, es[..|es| - 1]);
    }
  }

  /** The highest altitude comes from a reading in flight. */
  predicate PeakSeen(p: int, es: seq<Event>) {
    p == -2000 || exists i :: 0 <= i < |es| && es[i].Check? && !OnGround(es[i].x) && es[i].x.alt == p
  }

  lemma {:induction false} PeakIsSeen(l: Limits, es: seq<Event>)
    ensures PeakSeen(After(l, es).altMax, es)
    decreases |es|
  {
    hide Ticked, TimedOut;
    if es != [] {
      var n := |es| - 1;
      PeakIsSeen(l, es[..n]);
      var p := After(l, es[..n]).altMax;
      if After(l, es).altMax == p != -2000 {
        var i :| 0 <= i < n && es[..n][i].Check? && !OnGround(es[..n][i].x) && es[..n][i].x.alt == p;
        assert es[i] == es[..n][i];
      }
    }
  }

  lemma {:induction false} LevelNeverFails(l: Limits, es: seq<Event>)
    requires NeverDropped(l, es) && l.deltaAltitude >= 0
    ensures After(l, es).drop == Fine
    decreases |es|
  {
    hide TimedOut, TimeOver, BadDist, BadHigh;
    if es != [] {
      var n := |es| - 1;
      var front := es[..n];
      forall i, j | 0 <= i <= j < n
        ensures SmallFall(l, front, i, j)
      {
        assert SmallFall(l, es, i, j);
      }
      LevelNeverFails(l, front);
      PeakIsSeen(l, front);
      if es[n].Check? {
        assert !BadDrop(l, After(l, front).altMax, es[n].x) by {
          forall i | 0 <= i < n && front[i].Check? && !OnGround(front[i].x) && !OnGround(es[n].x)
            ensures front[i].x.alt - es[n].x.alt <= l.deltaAltitude
          {
            assert SmallFall(l, es, i, n);
          }
        }
      }
    }
  }

  /** The check has an answer, which is that a limit is exceeded. */
  predicate Answered(l: Limits, es: seq<Event>, k: nat)
    requires k < |es|
  {
    es[k].Check? && Evaluate(l, After(l, es[..k]), es[k].x).1
  }

  /** Each answer has its cause: the mission time, or a limit that was exceeded at some time. */
  lemma NothingWrongNoAnswer(l: Limits, es: seq<Event>, k: nat)
    requires InRange(l) && k < |es| && es[k].Check?
    requires NeverTooHigh(l, es) && NeverTooFar(es) && NeverDropped(l, es)
    requires es[k].x.now - es[k].x.missionStart <= 1000 * l.missionTimeout
    ensures !Answered(l, es, k)
  {
    hide After, BadDist, BadDrop, BadHigh;
    var front := es[..k];
    forall i, j | 0 <= i <= j < k
      ensures SmallFall(l, front, i, j)
    {
      assert SmallFall(l, es, i, j);
    }
    LowNeverFails(l, front);
    NearNeverFails(l, front);
    LevelNeverFails(l, front);
  }

  /** Once the mission time is over every check answers. */
  lemma LateAnswers(l: Limits, es: seq<Event>, k: nat)
    requires k < |es| && es[k].Check? && es[k].x.now - es[k].x.missionStart > 1000 * l.missionTimeout
    ensures Answered(l, es, k)
  {
    hide After;
  }

  // --- What always fails ---

  /** The readings are in order of time. */
  predicate InOrder(es: seq<Event>) {
    forall i, j | 0 <= i < j < |es| && es[i].Check? && es[j].Check? :: es[i].x.now <= es[j].x.now
  }

  /** From the k-th event on, which is a check, there is no reset and no answer up to the last one. */
  predicate SilentSince(l: Limits, es: seq<Event>, k: nat) {
    && k < |es| && es[k].Check?
    && (forall i | k <= i < |es| :: !es[i].Reset? && !Answered(l, es, i))
  }

  predicate StartedBy(t: Timer, now: int) {
    t.Since? && t.start <= now
  }

  /** The timers that run were started by some check. */
  predicate TimersSeen(s: State, now: int) {
    (s.dist.Fine? || s.dist.start <= now) && (s.drop.Fine? || s.drop.start <= now) && (s.high.Fine? || s.high.start <= now)
  }

  lemma {:induction false} TimersAreSeen(l: Limits, es: seq<Event>, now: int)
    requires forall i | 0 <= i < |es| && es[i].Check? :: es[i].x.now <= now
    ensures TimersSeen(After(l, es), now)
    decreases |es|
  {
    hide TimeOver, BadDist, BadDrop, BadHigh, TimedOut, Peak;
    if es != [] {
      TimersAreSeen(l, es[..|es| - 1], now);
    }
  }

  lemma SilentFront(l: Limits, es: seq<Event>, k: nat)
    requires SilentSince(l, es, k) && k < |es| - 1
    ensures SilentSince(l, es[..|es| - 1], k)
  {
    hide Evaluate, After;
    var front := es[..|es| - 1];
    forall i | k <= i < |front|
      ensures !front[i].Reset? && !Answered(l, front, i)
    {
      assert !Answered(l, es, i) && front[..i] == es[..i];
    }
  }

  predicate EvaluatedAll(l: Limits, s: State, t: State, x: Reading) {
    && t.dist == Ticked(s.dist, BadDist(x), x.now) && t.altMax == Peak(s.altMax, x)
    && t.drop == Ticked(s.drop, BadDrop(l, s.altMax, x), x.now) && t.high == Ticked(s.high, BadHigh(l, x), x.now)
  }

  /** The check at the end of a silent run evaluates all of its conditions. */
  lemma SilentStep(l: Limits, es: seq<Event>, k: nat)
    requires SilentSince(l, es, k)
    ensures var n := |es| - 1;
      var s, t := After(l, es[..n]), After(l, es);
      if es[n].Check? then EvaluatedAll(l, s, t, es[n].x)
      else t.dist == s.dist && t.drop == s.drop && t.high == s.high && t.altMax == s.altMax
  {
    hide Ticked, TimedOut, BadDist, BadHigh, BadDrop, Peak, After;
    var n := |es| - 1;
    assert !Answered(l, es, n);
    AfterAppend(l, es[..n], es[n]);
    assert es[..n] + [es[n]] == es;
  }

  lemma {:induction false} HighTimerRuns(l: Limits, es: seq<Event>, k: nat)
    requires SilentSince(l, es, k) && InOrder(es)
    requires forall i | k <= i < |es| && es[i].Check? :: es[i].x.alt > l.altmaxMeters && !OnGround(es[i].x)
    ensures StartedBy(After(l, es).high, es[k].x.now)
    decreases |es|
  {
    hide After, Answered, Peak, BadDrop, BadDist;
    SilentStep(l, es, k);
    if k < |es| - 1 {
      SilentFront(l, es, k);
      HighTimerRuns(l, es[..|es| - 1], k);
    } else {
      TimersAreSeen(l, es[..k], es[k].x.now);
    }
  }

  lemma {:induction false} DistTimerRuns(l: Limits, es: seq<Event>, k: nat)
    requires SilentSince(l, es, k) && InOrder(es)
    requires forall i | k <= i < |es| && es[i].Check? :: es[i].x.tooFar && !OnGround(es[i].x)
    ensures StartedBy(After(l, es).dist, es[k].x.now)
    decreases |es|
  {
    hide After, Answered, Peak, BadDrop, BadHigh;
    SilentStep(l, es, k);
    if k < |es| - 1 {
      SilentFront(l, es, k);
      DistTimerRuns(l, es[..|es| - 1], k);
    } else {
      TimersAreSeen(l, es[..k], es[k].x.now);
    }
  }

  /** At every check from the k-th event on, the balloon is in flight and too far below the altitude p. */
  predicate BelowSince(l: Limits, es: seq<Event>, k: nat, p: int) {
    forall i | k <= i < |es| && es[i].Check? :: p - es[i].x.alt > l.deltaAltitude && !OnGround(es[i].x)
  }

  lemma {:induction false} DropTimerRuns(l: Limits, es: seq<Event>, k: nat, p: int)
    requires SilentSince(l, es, k) && InOrder(es) && BelowSince(l, es, k, p)
    requires After(l, es[..k]).altMax >= p
    ensures StartedBy(After(l, es).drop, es[k].x.now) && After(l, es).altMax >= p
    decreases |es|
  {
    hide After, Answered, BadDist, BadHigh;
    SilentStep(l, es, k);
    if k < |es| - 1 {
      SilentFront(l, es, k);
      assert es[..|es| - 1][..k] == es[..k];
      DropTimerRuns(l, es[..|es| - 1], k, p);
    } else {
      TimersAreSeen(l, es[..k], es[k].x.now);
    }
  }

  /** A check in flight that gives no answer lifts the peak to its altitude, which stays until a reset. */
  lemma {:induction false} PeakStays(l: Limits, es: seq<Event>, i: nat)
    requires i < |es| && es[i].Check? && !OnGround(es[i].x) && !Answered(l, es, i)
    requires forall j | i < j < |es| :: !es[j].Reset?
    ensures After(l, es).altMax >= es[i].x.alt
    decreases |es|
  {
    hide Ticked, TimedOut, BadDist, BadHigh, BadDrop, TimeOver;
    var n := |es| - 1;
    if i < n {
      assert es[..n][..i] == es[..i];
      PeakStays(l, es[..n], i);
    }
  }

  /** Above the limit at every check of a while longer than the timeout: the last one answers, if none before did. */
  lemma StayingTooHighAnswers(l: Limits, es: seq<Event>, k: nat, x: Reading)
    requires SilentSince(l, es, k) && InOrder(es)
    requires forall i | k <= i < |es| && es[i].Check? :: es[i].x.alt > l.altmaxMeters && !OnGround(es[i].x)
    requires x.alt > l.altmaxMeters && !OnGround(x) && x.now - es[k].x.now > 1000 * l.altmaxTimeout
    ensures Evaluate(l, After(l, es), x).1
  {
    hide After, Answered, Peak, BadDrop, BadDist, Ticked;
    HighTimerRuns(l, es, k);
  }

  lemma StayingTooFarAnswers(l: Limits, es: seq<Event>, k: nat, x: Reading)
    requires SilentSince(l, es, k) && InOrder(es)
    requires forall i | k <= i < |es| && es[i].Check? :: es[i].x.tooFar && !OnGround(es[i].x)
    requires x.tooFar && !OnGround(x) && x.now - es[k].x.now > 1000 * l.distTimeout
    ensures Evaluate(l, After(l, es), x).1
  {
    hide After, Answered, Peak, BadDrop, BadHigh, Ticked;
    DistTimerRuns(l, es, k);
  }

  /** Too far below the altitude of an earlier check in flight, likewise. */
  lemma StayingDroppedAnswers(l: Limits, es: seq<Event>, i: nat, k: nat, x: Reading)
    requires SilentSince(l, es, k) && InOrder(es)
    requires i < k && es[i].Check? && !OnGround(es[i].x) && !Answered(l, es, i)
    requires forall j | i < j < k :: !es[j].Reset?
    requires BelowSince(l, es + [Check(x)], k, es[i].x.alt)
    requires x.now - es[k].x.now > 1000 * l.altitudeTimeout
    ensures Evaluate(l, After(l, es), x).1
  {
    hide After, Answered, BadDist, BadHigh, Ticked;
    var all := es + [Check(x)];
    assert all[|es|] == Check(x) && forall j | 0 <= j < |es| :: all[j] == es[j];
    assert es[..k][..i] == es[..i];
    assert !Answered(l, es[..k], i) by {
      AnsweredFront(l, es, i, k);
    }
    PeakStays(l, es[..k], i);
    DropTimerRuns(l, es, k, es[i].x.alt);
  }

  lemma AnsweredFront(l: Limits, es: seq<Event>, i: nat, k: nat)
    requires i < k <= |es|
    ensures Answered(l, es[..k], i) <==> Answered(l, es, i)
  {
    assert es[..k][..i] == es[..i];
  }

  // --- The default limits ---

  function DefaultLimits(): Limits {
    Limits(8400, 300, 500, 30, 50000, 300)
  }

  function ReadingAt(now: int, alt: int, far: bool, s: StatusMgr.Status): Reading {
    Reading(now, now + 1, alt, far, s, 0, false)
  }

  /** The answer of the second of two checks, for all altitudes, times and statuses. */
  lemma TwoChecks(alt: int, low: int, far: bool, t: int, s: StatusMgr.Status)
    requires t >= 0
    ensures var first := Check(ReadingAt(0, alt, far, s));
      var ground := s == StatusMgr.GroundWait || s == StatusMgr.NoFix;
      Evaluate(DefaultLimits(), After(DefaultLimits(), [first]), ReadingAt(t, low, far, s)).1
      <==> t > 8400000
           || (!ground && t > 300000 && (far || (alt > 50000 && low > 50000)))
           || (!ground && t > 30000 && alt < -2500 && low < -2500)
  {
    AfterOne(DefaultLimits(), Check(ReadingAt(0, alt, far, s)));
  }

  /** The answer of the third check after a fall from the given altitude, seen at the second one. */
  lemma FallFrom(top: int, low: int, t: int)
    requires 0 <= t <= 8000000 && -2000 <= top <= 50000 && -2000 <= low <= top
    ensures var l := DefaultLimits();
      var es := [Check(ReadingAt(0, top, false, StatusMgr.Takeoff)), Check(ReadingAt(1000, low, false, StatusMgr.Falling))];
      Evaluate(l, After(l, es), ReadingAt(1000 + t, low, false, StatusMgr.Falling)).1 <==> top - low > 500 && t > 30000
  {
    var l := DefaultLimits();
    var e, f := Check(ReadingAt(0, top, false, StatusMgr.Takeoff)), Check(ReadingAt(1000, low, false, StatusMgr.Falling));
    AfterOne(l, e);
    assert [e] + [f] == [e, f];
    AfterAppend(l, [e], f);
  }

  /** A pause holds the cut back for five minutes, unless it is commanded at clock zero; then it is used up. */
  lemma PauseLasts(l: Limits, pause: int, x: Reading)
    requires x.now - x.missionStart > 1000 * l.missionTimeout && !x.test
    ensures var t := After(l, [Pause(pause), Check(x)]);
      if pause == 0 || x.clock - pause >= 300000
      then Ran(l, [Pause(pause), Check(x)]) && t.cut && t.pauseTime == 0
      else !Ran(l, [Pause(pause), Check(x)]) && !t.cut && t.pauseTime == pause
    ensures Ran(l, [Pause(pause), Resume, Check(x)])
  {
    hide Evaluate;
    var two := [Pause(pause), Resume];
    AfterOne(l, Pause(pause));
    assert [Pause(pause)] + [Check(x)] == [Pause(pause), Check(x)] && [Pause(pause)] + [Resume] == two;
    AfterAppend(l, [Pause(pause)], Check(x));
    AfterAppend(l, [Pause(pause)], Resume);
    assert two + [Check(x)] == [Pause(pause), Resume, Check(x)];
    AfterAppend(l, two, Check(x));
    LateIsOver(l, After(l, [Pause(pause)]), x);
    LateIsOver(l, After(l, two), x);
  }

  lemma LateIsOver(l: Limits, s: State, x: Reading)
    requires x.now - x.missionStart > 1000 * l.missionTimeout
    ensures Evaluate(l, s, x) == (s, true)
  {
  }
}
