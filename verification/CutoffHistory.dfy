/**
 * What the cut-off does, told from the history of events alone: when each condition holds, and that the cutting
 * procedure runs exactly at the first check since the last reset that finds one of them while not on hold.
 */
module CutoffHistory {
  import opened Cutoff
  import StatusMgr

  // --- Debouncing ---

  /** One evaluation of a condition. */
  datatype Eval = Eval(now: int, bad: bool)

  /** The condition has held at every evaluation from the k-th to the last, and not at the one before. */
  predicate HoldsSince(evals: seq<Eval>, k: int) {
    && 0 <= k < |evals|
    && (forall j :: k <= j < |evals| ==> evals[j].bad)
    && (k > 0 ==> !evals[k - 1].bad)
  }

  ghost predicate Expired(evals: seq<Eval>, timeout: int) {
    exists k :: HoldsSince(evals, k) && evals[|evals| - 1].now - evals[k].now > 1000 * timeout
  }

  ghost predicate TimerMatches(t: Timer, evals: seq<Eval>) {
    match t
    case Fine => evals == [] || !evals[|evals| - 1].bad
    case Since(start) => exists k :: HoldsSince(evals, k) && evals[k].now == start
  }

  lemma HoldsSinceUnique(evals: seq<Eval>, j: int, k: int)
    requires HoldsSince(evals, j) && HoldsSince(evals, k)
    ensures j == k
  {
  }

  lemma HoldsLonger(evals: seq<Eval>, e: Eval, k: int)
    requires HoldsSince(evals, k) && e.bad
    ensures HoldsSince(evals + [e], k)
  {
  }

  lemma TimerStep(t: Timer, evals: seq<Eval>, e: Eval, timeout: int)
    requires TimerMatches(t, evals) && timeout >= 0
    ensures TimerMatches(Ticked(t, e.bad, e.now), evals + [e])
    ensures TimedOut(t, e.bad, e.now, timeout) <==> Expired(evals + [e], timeout)
  {
    var after := evals + [e];
    if e.bad {
      var k;
      if t.Fine? {
        k := |evals|;
      } else {
        k :| HoldsSince(evals, k) && evals[k].now == t.start;
        HoldsLonger(evals, e, k);
      }
      assert HoldsSince(after, k);
      forall j | HoldsSince(after, j)
        ensures j == k
      {
        HoldsSinceUnique(after, j, k);
      }
    }
  }

  // --- Which checks are evaluated ---

  /** The statuses in which the timed checks take part: all but no fix and waiting on the ground. */
  predicate Airborne(s: StatusMgr.Status) {
    s in {StatusMgr.Takeoff, StatusMgr.StratosphereUp, StatusMgr.StratosphereFall, StatusMgr.Falling,
          StatusMgr.Landing, StatusMgr.Hovering}
  }

  predicate Late(l: Limits, x: Reading) {
    x.now > x.missionStart + 1000 * l.missionTimeout
  }

  predicate Away(x: Reading) {
    Airborne(x.status) && x.tooFar
  }

  predicate TooHigh(l: Limits, x: Reading) {
    Airborne(x.status) && l.altmaxMeters < x.alt
  }

  /** The highest altitude in flight, but at least the lowest possible one. */
  predicate IsPeak(p: int, xs: seq<Reading>) {
    && p >= -2000
    && (forall i :: 0 <= i < |xs| && Airborne(xs[i].status) ==> xs[i].alt <= p)
    && (p == -2000 || exists i :: 0 <= i < |xs| && Airborne(xs[i].status) && xs[i].alt == p)
  }

  /** The last altitude is too far below an earlier one in flight, or below the lowest possible one. */
  predicate Dropped(l: Limits, xs: seq<Reading>)
    requires xs != []
  {
    var x := xs[|xs| - 1];
    && Airborne(x.status)
    && (-2000 - x.alt > l.deltaAltitude
        || exists i :: 0 <= i < |xs| && Airborne(xs[i].status) && xs[i].alt - x.alt > l.deltaAltitude)
  }

  ghost function Drops(l: Limits, xs: seq<Reading>): (d: seq<Eval>)
    ensures |d| == |xs|
  {
    seq(|xs|, i requires 0 <= i < |xs| => Eval(xs[i].now, Dropped(l, xs[..i + 1])))
  }

  /** The evaluations of the three timed checks; for the drop, the readings at which it was evaluated. */
  datatype History = History(dist: seq<Eval>, drop: seq<Reading>, high: seq<Eval>)

  ghost predicate DistOver(l: Limits, h: History, x: Reading) {
    Expired(h.dist + [Eval(x.now, Away(x))], l.distTimeout)
  }

  ghost predicate DropOver(l: Limits, h: History, x: Reading) {
    Expired(Drops(l, h.drop + [x]), l.altitudeTimeout)
  }

  ghost predicate HighOver(l: Limits, h: History, x: Reading) {
    Expired(h.high + [Eval(x.now, TooHigh(l, x))], l.altmaxTimeout)
  }

  /** A check is evaluated only if those before it are passed. */
  ghost function SeenBy(l: Limits, h: History, x: Reading): History {
    History(
      if Late(l, x) then h.dist else h.dist + [Eval(x.now, Away(x))],
      if Late(l, x) || DistOver(l, h, x) then h.drop else h.drop + [x],
      if Late(l, x) || DistOver(l, h, x) || DropOver(l, h, x) then h.high
      else h.high + [Eval(x.now, TooHigh(l, x))])
  }

  ghost function Seen(l: Limits, es: seq<Event>): History {
    if es == [] then History([], [], []) else
    var h := Seen(l, es[..|es| - 1]);
    match es[|es| - 1]
    case Check(x) => SeenBy(l, h, x)
    case _ => h
  }

  ghost predicate OverLimit(l: Limits, h: History, x: Reading) {
    Late(l, x) || DistOver(l, h, x) || DropOver(l, h, x) || HighOver(l, h, x)
  }

  // --- The timers follow the history ---

  ghost predicate Matches(l: Limits, s: State, h: History) {
    && TimerMatches(s.dist, h.dist) && TimerMatches(s.drop, Drops(l, h.drop)) && TimerMatches(s.high, h.high)
    && IsPeak(s.altMax, h.drop)
  }

  lemma DropsAppend(l: Limits, xs: seq<Reading>, x: Reading)
    ensures Drops(l, xs + [x]) == Drops(l, xs) + [Eval(x.now, Dropped(l, xs + [x]))]
  {
    var after := xs + [x];
    assert after[..|after|] == after;
    forall i | 0 <= i < |xs|
      ensures Drops(l, after)[i] == Drops(l, xs)[i]
    {
      assert after[..i + 1] == xs[..i + 1];
    }
  }

  lemma PeakStep(l: Limits, p: int, xs: seq<Reading>, x: Reading)
    requires IsPeak(p, xs) && l.deltaAltitude >= 0
    ensures IsPeak(Peak(p, x), xs + [x])
    ensures BadDrop(l, p, x) <==> Dropped(l, xs + [x])
  {
    var after, q := xs + [x], Peak(p, x);
    assert after[|xs|] == x;
    if p != -2000 {
      var i :| 0 <= i < |xs| && Airborne(xs[i].status) && xs[i].alt == p;
      assert after[i] == xs[i];
    }
    assert IsPeak(q, after);
  }

  lemma CausesAgree(l: Limits, x: Reading)
    ensures TimeOver(l, x) == Late(l, x) && BadDist(x) == Away(x) && BadHigh(l, x) == TooHigh(l, x)
  {
  }

  lemma EvaluateMatches(l: Limits, s: State, h: History, x: Reading)
    requires InRange(l) && Matches(l, s, h)
    ensures var (t, over) := Evaluate(l, s, x);
      && Matches(l, t, SeenBy(l, h, x)) && (over <==> OverLimit(l, h, x))
      && t.cut == s.cut && t.pauseTime == s.pauseTime
  {
    hide Expired, TimerMatches, Ticked, TimedOut, IsPeak, Drops, Dropped, BadDrop, Peak, BadDist, BadHigh, Away,
         TooHigh, Late, TimeOver, HoldsSince;
    CausesAgree(l, x);
    TimerStep(s.dist, h.dist, Eval(x.now, Away(x)), l.distTimeout);
    PeakStep(l, s.altMax, h.drop, x);
    DropsAppend(l, h.drop, x);
    TimerStep(s.drop, Drops(l, h.drop), Eval(x.now, Dropped(l, h.drop + [x])), l.altitudeTimeout);
    TimerStep(s.high, h.high, Eval(x.now, TooHigh(l, x)), l.altmaxTimeout);
  }

  // --- Runs ---

  function After(l: Limits, es: seq<Event>): State {
    if es == [] then FRESH else Step(l, After(l, es[..|es| - 1]), es[|es| - 1]).0
  }

  /** The last event makes the procedure run. */
  predicate Ran(l: Limits, es: seq<Event>) {
    es != [] && Step(l, After(l, es[..|es| - 1]), es[|es| - 1]).1
  }

  function SinceReset(es: seq<Event>): (h: seq<Event>)
    ensures forall i :: 0 <= i < |h| ==> !h[i].Reset?
  {
    if es == [] || es[|es| - 1].Reset? then [] else SinceReset(es[..|es| - 1]) + [es[|es| - 1]]
  }

  predicate NoReset(es: seq<Event>) {
    forall i :: 0 <= i < |es| ==> !es[i].Reset?
  }

  predicate Stamped(e: Event) {
    e.Check? || e.Pause?
  }

  function Stamp(e: Event): int
    requires Stamped(e)
  {
    match e
    case Check(x) => x.clock
    case Pause(clock) => clock
  }

  /** The clock does not run backwards. */
  predicate Ordered(es: seq<Event>) {
    forall i, j :: 0 <= i < j < |es| && Stamped(es[i]) && Stamped(es[j]) ==> Stamp(es[i]) <= Stamp(es[j])
  }

  predicate NotBefore(es: seq<Event>, clock: int) {
    forall i :: 0 <= i < |es| && Stamped(es[i]) ==> Stamp(es[i]) <= clock
  }

  /** The i-th event is a pause that nothing has ended by the given time; a pause at time zero is none. */
  predicate PausedBy(es: seq<Event>, i: int, clock: int) {
    && 0 <= i < |es| && es[i].Pause? && es[i].clock != 0 && clock - es[i].clock < 300000
    && (forall j :: i < j < |es| ==> es[j].Check?)
  }

  ghost predicate Paused(es: seq<Event>, clock: int) {
    exists i :: PausedBy(es, i, clock)
  }

  lemma {:induction false} PauseMatches(l: Limits, es: seq<Event>, clock: int)
    requires Ordered(es) && NotBefore(es, clock)
    ensures OnHold(After(l, es).pauseTime, clock) <==> Paused(es, clock)
    decreases |es|
  {
    hide Evaluate;
    if es != [] {
      var n := |es| - 1;
      var front, e := es[..n], es[n];
      match e {
        case Check(x) =>
          PauseMatches(l, front, clock);
          PauseMatches(l, front, x.clock);
          assert forall i, c :: PausedBy(es, i, c) <==> PausedBy(front, i, c);
          EvaluateKeeps(l, After(l, front), x);
          if After(l, es).pauseTime != After(l, front).pauseTime {
            assert !Paused(front, x.clock);
            assert forall i :: PausedBy(front, i, clock) ==> PausedBy(front, i, x.clock);
          }
        case Pause(c) =>
          assert PausedBy(es, n, clock) <==> OnHold(c, clock);
        case Resume =>
        case Reset =>
      }
    }
  }

  lemma EvaluateKeeps(l: Limits, s: State, x: Reading)
    ensures Evaluate(l, s, x).0.cut == s.cut && Evaluate(l, s, x).0.pauseTime == s.pauseTime
  {
  }

  /** In a run without a reset, the timers and the highest altitude are those of the history. */
  lemma {:induction false} RunMatches(l: Limits, es: seq<Event>)
    requires InRange(l) && NoReset(es)
    ensures Matches(l, After(l, es), Seen(l, es))
    decreases |es|
  {
    hide Evaluate, SeenBy, TimerMatches, IsPeak;
    if es == [] {
      assert Matches(l, FRESH, History([], [], [])) by {
        EmptyMatches(l);
      }
    } else {
      var front, e := es[..|es| - 1], es[|es| - 1];
      RunMatches(l, front);
      if e.Check? {
        EvaluateMatches(l, After(l, front), Seen(l, front), e.x);
      }
    }
  }

  lemma EmptyMatches(l: Limits)
    ensures Matches(l, FRESH, History([], [], []))
  {
  }

  lemma {:induction false} AfterSinceReset(l: Limits, es: seq<Event>)
    ensures After(l, es) == After(l, SinceReset(es))
    decreases |es|
  {
    hide Evaluate;
    if es != [] && !es[|es| - 1].Reset? {
      var front := SinceReset(es[..|es| - 1]);
      AfterSinceReset(l, es[..|es| - 1]);
      assert SinceReset(es)[..|front|] == front;
    }
  }

  lemma {:induction false} SinceResetIsSuffix(es: seq<Event>)
    ensures |SinceReset(es)| <= |es| && SinceReset(es) == es[|es| - |SinceReset(es)|..]
    decreases |es|
  {
    if es != [] && !es[|es| - 1].Reset? {
      SinceResetIsSuffix(es[..|es| - 1]);
    }
  }

  /** The three timed checks, each against its own history; a check may be asked whether or not it is evaluated. */
  lemma TimersTell(l: Limits, s: State, h: History, x: Reading)
    requires InRange(l) && Matches(l, s, h)
    ensures DistOver(l, h, x) <==> TimedOut(s.dist, BadDist(x), x.now, l.distTimeout)
    ensures DropOver(l, h, x) <==> TimedOut(s.drop, BadDrop(l, s.altMax, x), x.now, l.altitudeTimeout)
    ensures HighOver(l, h, x) <==> TimedOut(s.high, BadHigh(l, x), x.now, l.altmaxTimeout)
  {
    hide Expired, TimerMatches, Ticked, TimedOut, IsPeak, Drops, Dropped, BadDrop, Peak, BadDist, BadHigh, Away,
         TooHigh, Late, TimeOver, HoldsSince;
    CausesAgree(l, x);
    TimerStep(s.dist, h.dist, Eval(x.now, Away(x)), l.distTimeout);
    PeakStep(l, s.altMax, h.drop, x);
    DropsAppend(l, h.drop, x);
    TimerStep(s.drop, Drops(l, h.drop), Eval(x.now, Dropped(l, h.drop + [x])), l.altitudeTimeout);
    TimerStep(s.high, h.high, Eval(x.now, TooHigh(l, x)), l.altmaxTimeout);
  }

  /**
   * In every run each of the three timed checks fails exactly if its own history since the last reset says so, the
   * highest altitude is that of the readings seen, and the answer is that one of the limits is exceeded.
   */
  lemma AnswerFromHistory(l: Limits, es: seq<Event>, x: Reading)
    requires InRange(l)
    ensures var s, h := After(l, es), Seen(l, SinceReset(es));
      && (DistOver(l, h, x) <==> TimedOut(s.dist, BadDist(x), x.now, l.distTimeout))
      && (DropOver(l, h, x) <==> TimedOut(s.drop, BadDrop(l, s.altMax, x), x.now, l.altitudeTimeout))
      && (HighOver(l, h, x) <==> TimedOut(s.high, BadHigh(l, x), x.now, l.altmaxTimeout))
      && IsPeak(s.altMax, h.drop)
      && (Evaluate(l, s, x).1 <==> OverLimit(l, h, x))
  {
    hide Evaluate, OverLimit, Seen, After, DistOver, DropOver, HighOver, TimedOut;
    var h := SinceReset(es);
    AfterSinceReset(l, es);
    RunMatches(l, h);
    EvaluateMatches(l, After(l, h), Seen(l, h), x);
    TimersTell(l, After(l, h), Seen(l, h), x);
  }

  // --- The cut ---

  /** The last event is a check that finds a limit exceeded, not on hold and outside test mode. */
  ghost predicate Ready(l: Limits, es: seq<Event>) {
    && es != []
    && var front, e := es[..|es| - 1], es[|es| - 1];
    && e.Check? && OverLimit(l, Seen(l, front), e.x) && !Paused(front, e.x.clock) && !e.x.test
  }

  ghost predicate EverReady(l: Limits, es: seq<Event>) {
    exists n :: 0 < n <= |es| && Ready(l, es[..n])
  }

  lemma EverReadyStep(l: Limits, es: seq<Event>)
    requires es != []
    ensures EverReady(l, es) <==> EverReady(l, es[..|es| - 1]) || Ready(l, es)
  {
    hide Ready;
    var front := es[..|es| - 1];
    assert es[..|es|] == es;
    if EverReady(l, es) {
      var n :| 0 < n <= |es| && Ready(l, es[..n]);
      if n < |es| {
        assert front[..n] == es[..n];
      }
    }
    if EverReady(l, front) {
      var n :| 0 < n <= |front| && Ready(l, front[..n]);
      assert front[..n] == es[..n];
    }
  }

  lemma OrderedFront(es: seq<Event>)
    requires NoReset(es) && Ordered(es) && es != [] && es[|es| - 1].Check?
    ensures var front := es[..|es| - 1];
      NoReset(front) && Ordered(front) && NotBefore(front, es[|es| - 1].x.clock)
  {
  }

  lemma LastCheck(l: Limits, es: seq<Event>)
    requires InRange(l) && NoReset(es) && Ordered(es) && es != []
    ensures var s, t := After(l, es[..|es| - 1]), After(l, es);
      && (Ran(l, es) <==> Ready(l, es) && !s.cut)
      && (t.cut <==> s.cut || Ready(l, es))
  {
    hide Evaluate, OverLimit, OnHold, Paused, Seen, Matches, Ordered, NotBefore, InRange;
    var front, e := es[..|es| - 1], es[|es| - 1];
    if e.Check? {
      OrderedFront(es);
      RunMatches(l, front);
      EvaluateMatches(l, After(l, front), Seen(l, front), e.x);
      PauseMatches(l, front, e.x.clock);
    }
  }

  lemma {:induction false} CutMatches(l: Limits, es: seq<Event>)
    requires InRange(l) && NoReset(es) && Ordered(es)
    ensures After(l, es).cut <==> EverReady(l, es)
    decreases |es|
  {
    hide Ready, After;
    if es == [] {
      assert !FRESH.cut;
      StartsFresh(l, es);
    } else {
      CutMatches(l, es[..|es| - 1]);
      LastCheck(l, es);
      EverReadyStep(l, es);
    }
  }

  lemma StartsFresh(l: Limits, es: seq<Event>)
    requires es == []
    ensures After(l, es) == FRESH
  {
  }

  /**
   * In every run the procedure runs exactly at the first check since the last reset that finds a limit exceeded,
   * not on hold and outside test mode.
   */
  lemma RunsAtFirstReady(l: Limits, es: seq<Event>)
    requires InRange(l) && Ordered(es) && es != []
    ensures var h := SinceReset(es);
      Ran(l, es) <==> h != [] && Ready(l, h) && forall n :: 0 < n < |h| ==> !Ready(l, h[..n])
  {
    hide Ready, After, Evaluate;
    var h, n := SinceReset(es), |es| - 1;
    SinceResetIsSuffix(es);
    if h == [] {
      assert es[n].Reset?;
    } else {
      var front := h[..|h| - 1];
      assert front == SinceReset(es[..n]);
      AfterSinceReset(l, es[..n]);
      LastCheck(l, h);
      CutMatches(l, front);
      assert forall m :: 0 < m < |h| ==> h[..m] == front[..m];
    }
  }

  lemma {:induction false} SinceResetExtends(es: seq<Event>, m: nat)
    requires m <= |es| && forall k :: m <= k < |es| ==> !es[k].Reset?
    ensures SinceReset(es) == SinceReset(es[..m]) + es[m..]
    decreases |es|
  {
    if m < |es| {
      var front := es[..|es| - 1];
      SinceResetExtends(front, m);
      assert front[..m] == es[..m];
      assert es[m..] == front[m..] + [es[|es| - 1]];
    } else {
      assert es[..m] == es;
    }
  }

  /** Between two cuts there is a reset. */
  lemma CutsAtMostOnce(l: Limits, es: seq<Event>, m: nat)
    requires InRange(l) && Ordered(es) && 0 < m < |es|
    requires Ran(l, es[..m]) && Ran(l, es)
    ensures exists k :: m <= k < |es| && es[k].Reset?
  {
    hide Ready, Ran;
    if forall k :: m <= k < |es| ==> !es[k].Reset? {
      var h, g := SinceReset(es), SinceReset(es[..m]);
      SinceResetExtends(es, m);
      assert h[..|g|] == g;
      RunsAtFirstReady(l, es[..m]);
      RunsAtFirstReady(l, es);
      assert false;
    }
  }

  // --- Two surprises ---

  lemma AfterAppend(l: Limits, es: seq<Event>, e: Event)
    ensures After(l, es + [e]) == Step(l, After(l, es), e).0
    ensures Ran(l, es + [e]) <==> Step(l, After(l, es), e).1
  {
    assert (es + [e])[..|es|] == es;
  }

  lemma AfterOne(l: Limits, e: Event)
    ensures After(l, [e]) == Step(l, FRESH, e).0
  {
    AfterAppend(l, [], e);
    assert [] + [e] == [e];
  }

  /** A pause commanded at clock zero does not hold the cut back; one commanded a millisecond later does. */
  lemma PauseAtZeroIsNone()
    ensures var l := Limits(10, 300, 500, 30, 50000, 300);
      var x := Reading(20000, 20001, 1000, false, StatusMgr.Takeoff, 0, false);
      InRange(l) && Ran(l, [Pause(0), Check(x)]) && !Ran(l, [Pause(1), Check(x)])
  {
    var l := Limits(10, 300, 500, 30, 50000, 300);
    var x := Reading(20000, 20001, 1000, false, StatusMgr.Takeoff, 0, false);
    AfterOne(l, Pause(0));
    AfterOne(l, Pause(1));
    assert [Pause(0)] + [Check(x)] == [Pause(0), Check(x)] && [Pause(1)] + [Check(x)] == [Pause(1), Check(x)];
    AfterAppend(l, [Pause(0)], Check(x));
    AfterAppend(l, [Pause(1)], Check(x));
  }

  /** While the distance check fails, the highest altitude stands still, and the fall from it goes unnoticed. */
  lemma FailingCheckHidesPeak(far: bool)
    ensures var l := Limits(8400, 0, 500, 30, 50000, 300);
      var x := Reading(1000, 1000, 1000, far, StatusMgr.Takeoff, 0, false);
      var y := Reading(2000, 2000, 9000, far, StatusMgr.Takeoff, 0, false);
      InRange(l) && After(l, [Check(x), Check(y)]).altMax == if far then 1000 else 9000
  {
    var l := Limits(8400, 0, 500, 30, 50000, 300);
    var x := Reading(1000, 1000, 1000, far, StatusMgr.Takeoff, 0, false);
    var y := Reading(2000, 2000, 9000, far, StatusMgr.Takeoff, 0, false);
    AfterOne(l, Check(x));
    assert [Check(x)] + [Check(y)] == [Check(x), Check(y)];
    AfterAppend(l, [Check(x)], Check(y));
  }
}
