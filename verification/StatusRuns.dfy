/** Whole flights: what the status says about the history of samples, and how often it can change its mind. */
module StatusRuns {
  import opened MovingAvg
  import opened StatusMgr

  // --- The history since the fix was last lost ---

  predicate AllFix(xs: seq<Sample>) {
    forall i :: 0 <= i < |xs| ==> xs[i].Fix?
  }

  function Alts(xs: seq<Sample>): (a: seq<real>)
    requires AllFix(xs)
    ensures |a| == |xs|
  {
    seq(|xs|, i requires 0 <= i < |xs| => xs[i].alt as real)
  }

  function Presses(xs: seq<Sample>): (a: seq<real>)
    requires AllFix(xs)
    ensures |a| == |xs|
  {
    seq(|xs|, i requires 0 <= i < |xs| => xs[i].press)
  }

  /** The differences between neighbours, the first one counting as zero. */
  function Deltas(a: seq<real>): (d: seq<real>)
    ensures |d| == |a|
  {
    seq(|a|, i requires 0 <= i < |a| => if i == 0 then 0.0 else a[i] - a[i - 1])
  }

  /** The value n samples before the last one, or the first one if there are not so many. */
  function Before(a: seq<real>, n: nat): real
    requires a != []
  {
    if |a| <= n then a[0] else a[|a| - 1 - n]
  }

  lemma {:induction false} SliceTelescopes(a: seq<real>, from: nat)
    requires from < |a|
    ensures Sum(Deltas(a)[from..]) == a[|a| - 1] - (if from == 0 then a[0] else a[from - 1])
    decreases |a|
  {
    var n := |a| - 1;
    var d := Deltas(a)[from..];
    assert d[|d| - 1] == Deltas(a)[n];
    if from == n {
      assert d == [Deltas(a)[n]];
      SumOfOne(d[0]);
    } else {
      assert d[..|d| - 1] == Deltas(a[..n])[from..];
      SliceTelescopes(a[..n], from);
    }
  }

  /** The sum of a window of differences is the difference of its ends. */
  lemma Telescope(a: seq<real>, n: nat)
    requires a != [] && n > 0
    ensures Sum(Last(Deltas(a), n)) == a[|a| - 1] - Before(a, n)
  {
    var from := if |a| <= n then 0 else |a| - n;
    assert Last(Deltas(a), n) == Deltas(a)[from..];
    SliceTelescopes(a, from);
  }

  lemma {:induction false} RunConcat(c: Config, s: State, xs: seq<Sample>, ys: seq<Sample>)
    requires WellFormed(s)
    ensures Run(c, s, xs + ys) == Run(c, Run(c, s, xs), ys)
    decreases |ys|
  {
    if ys == [] {
      assert xs + ys == xs;
    } else {
      assert (xs + ys)[..|xs + ys| - 1] == xs + ys[..|ys| - 1];
      RunConcat(c, s, xs, ys[..|ys| - 1]);
    }
  }

  lemma DeltasAppend(a: seq<real>, v: real)
    ensures Deltas(a + [v]) == Deltas(a) + [if a == [] then 0.0 else v - a[|a| - 1]]
  {
  }

  /** The windows hold the last differences of all samples, and the last sample is remembered. */
  predicate Remembers(s: State, alts: seq<real>, presses: seq<real>) {
    && |alts| == |presses|
    && s.altWindow == Last(Deltas(alts), WINDOW) && s.pressWindow == Last(Deltas(presses), WINDOW)
    && (alts != [] ==> s.prevAlt as real == alts[|alts| - 1] && s.prevPress == presses[|presses| - 1])
  }

  lemma FixRemembers(c: Config, s: State, alts: seq<real>, presses: seq<real>, x: Sample)
    requires WellFormed(s) && Remembers(s, alts, presses) && x.Fix?
    ensures Remembers(Check(c, s, x), alts + [x.alt as real], presses + [x.press])
  {
    hide Rate, StatusFor, NextDir, Deltas, WindowPush;
    var dAlt := if alts == [] then 0.0 else x.alt as real - alts[|alts| - 1];
    var dPress := if presses == [] then 0.0 else x.press - presses[|presses| - 1];
    DeltasAppend(alts, x.alt as real);
    DeltasAppend(presses, x.press);
    PushIsLast(WINDOW, Deltas(alts), dAlt);
    PushIsLast(WINDOW, Deltas(presses), dPress);
    var p := Pushed(s, x.alt, x.press);
    assert p.altWindow == WindowPush(WINDOW, s.altWindow, dAlt);
    assert p.pressWindow == WindowPush(WINDOW, s.pressWindow, dPress);
  }

  lemma {:induction false} WindowsHoldLast(c: Config, s: State, xs: seq<Sample>)
    requires s.altWindow == s.pressWindow == [] && AllFix(xs)
    ensures Remembers(Run(c, s, xs), Alts(xs), Presses(xs))
    decreases |xs|
  {
    hide Check;
    if xs != [] {
      var n := |xs| - 1;
      WindowsHoldLast(c, s, xs[..n]);
      FixRemembers(c, Run(c, s, xs[..n]), Alts(xs[..n]), Presses(xs[..n]), xs[n]);
      assert Alts(xs) == Alts(xs[..n]) + [xs[n].alt as real];
      assert Presses(xs) == Presses(xs[..n]) + [xs[n].press];
    }
  }

  /** The two directions as the samples since the last loss show them: against the one a minute before. */
  predicate Climbed(a: seq<real>, n: nat)
    requires a != []
  {
    a[|a| - 1] > Before(a, n)
  }

  predicate Sank(a: seq<real>, n: nat)
    requires a != []
  {
    a[|a| - 1] < Before(a, n)
  }

  lemma RateSign(c: Config, s: State, x: Sample, alts: seq<real>, presses: seq<real>)
    requires InRange(c) && WellFormed(s) && x.Fix? && alts != []
    requires Remembers(Check(c, s, x), alts, presses) && |alts| >= WINDOW
    ensures var r := Check(c, s, x);
      && (x.alt >= c.groundAlt ==> (r.vdir == Up ==> Climbed(alts, WINDOW)) && (r.vdir == Down ==> Sank(alts, WINDOW)))
      && (x.alt < c.groundAlt ==>
            (r.vdir == Up ==> Sank(presses, WINDOW)) && (r.vdir == Down ==> Climbed(presses, WINDOW)))
  {
    hide Deltas, WindowPush, Sum, StatusFor;
    Telescope(alts, WINDOW);
    Telescope(presses, WINDOW);
  }

  // --- What holds in every reachable state ---

  /** The status fits the direction, and nothing is reported before the windows are full. */
  predicate Coherent(s: State) {
    && WellFormed(s)
    && if |s.altWindow| < WINDOW then s.status == NoFix && s.vdir == Hover else
       match s.vdir
       case Hover => s.status in {GroundWait, Hovering}
       case Up => s.status in {Takeoff, StratosphereUp}
       case Down => s.status in {StratosphereFall, Falling, Landing}
  }

  lemma {:induction false} EveryStateIsCoherent(c: Config, s: State, xs: seq<Sample>)
    requires Coherent(s)
    ensures Coherent(Run(c, s, xs))
    decreases |xs|
  {
    hide Rate, NextDir, Sum;
    if xs != [] {
      EveryStateIsCoherent(c, s, xs[..|xs| - 1]);
    }
  }

  /** Whatever came before a loss of the fix is forgotten. */
  lemma LossForgets(c: Config, s: State, t: State, before: seq<Sample>, other: seq<Sample>, xs: seq<Sample>)
    requires WellFormed(s) && WellFormed(t) && xs != [] && xs[0].Fix?
    ensures Run(c, s, before + [Lost] + xs) == Run(c, t, other + [Lost] + xs)
  {
    var first, rest := xs[..1], xs[1..];
    RunFromLoss(c, s, before, first, rest, xs);
    RunFromLoss(c, t, other, first, rest, xs);
    var a, b := Reset(Run(c, s, before)), Reset(Run(c, t, other));
    assert Check(c, a, xs[0]) == Check(c, b, xs[0]) by {
      hide Rate, NextDir, StatusFor;
    }
  }

  lemma RunFromLoss(c: Config, s: State, before: seq<Sample>, first: seq<Sample>, rest: seq<Sample>,
                    xs: seq<Sample>)
    requires WellFormed(s) && |first| == 1 && xs == first + rest
    ensures Run(c, s, before + [Lost] + xs) == Run(c, Check(c, Reset(Run(c, s, before)), first[0]), rest)
  {
    hide Check;
    var lost := before + [Lost];
    assert before + [Lost] + xs == (lost + first) + rest;
    RunConcat(c, s, lost + first, rest);
    assert (lost + first)[..|lost|] == lost;
    assert lost[..|before|] == before;
    assert Check(c, Run(c, s, before), Lost) == Reset(Run(c, s, before)) by {
      CheckLost(c, Run(c, s, before));
    }
  }

  lemma CheckLost(c: Config, s: State)
    requires WellFormed(s)
    ensures Check(c, s, Lost) == Reset(s)
  {
  }

  // --- The direction ---

  /** The rate at the last of at least six samples since a loss: the change over a minute, of altitude or of pressure. */
  function RateAt(c: Config, xs: seq<Sample>): real
    requires AllFix(xs) && |xs| >= WINDOW
  {
    var last := xs[|xs| - 1];
    if last.alt >= c.groundAlt then
      (last.alt as real - Before(Alts(xs), WINDOW)) / WINDOW as real / CHECK_INTERVAL
    else
      -9.0 * ((last.press - Before(Presses(xs), WINDOW)) / WINDOW as real / CHECK_INTERVAL)
  }

  /** The rate exceeded its limit at the j-th sample and has been upward ever since. */
  predicate UpSince(c: Config, xs: seq<Sample>, j: int)
    requires AllFix(xs)
  {
    && WINDOW <= j <= |xs| && RateAt(c, xs[..j]) > c.rateUp
    && (forall i :: j <= i <= |xs| ==> RateAt(c, xs[..i]) > 0.0)
  }

  predicate DownSince(c: Config, xs: seq<Sample>, j: int)
    requires AllFix(xs)
  {
    && WINDOW <= j <= |xs| && RateAt(c, xs[..j]) < c.rateDown
    && (forall i :: j <= i <= |xs| ==> RateAt(c, xs[..i]) < 0.0)
  }

  ghost predicate GoesUp(c: Config, xs: seq<Sample>)
    requires AllFix(xs)
  {
    exists j :: UpSince(c, xs, j)
  }

  ghost predicate GoesDown(c: Config, xs: seq<Sample>)
    requires AllFix(xs)
  {
    exists j :: DownSince(c, xs, j)
  }

  lemma GoesUpStep(c: Config, xs: seq<Sample>)
    requires AllFix(xs) && |xs| >= WINDOW && c.rateUp >= 0.0
    ensures var rate, n := RateAt(c, xs), |xs| - 1;
      GoesUp(c, xs) <==> rate > if GoesUp(c, xs[..n]) then 0.0 else c.rateUp
  {
    hide RateAt;
    var n := |xs| - 1;
    var front := xs[..n];
    assert xs[..|xs|] == xs && (forall i :: 0 <= i <= n ==> front[..i] == xs[..i]);
    if GoesUp(c, xs) {
      var j :| UpSince(c, xs, j);
      if j <= n {
        assert UpSince(c, front, j);
      }
    }
    if RateAt(c, xs) > c.rateUp {
      assert UpSince(c, xs, n + 1);
    }
    if GoesUp(c, front) && RateAt(c, xs) > 0.0 {
      var j :| UpSince(c, front, j);
      assert UpSince(c, xs, j);
    }
  }

  lemma GoesDownStep(c: Config, xs: seq<Sample>)
    requires AllFix(xs) && |xs| >= WINDOW && c.rateDown <= 0.0
    ensures var rate, n := RateAt(c, xs), |xs| - 1;
      GoesDown(c, xs) <==> rate < if GoesDown(c, xs[..n]) then 0.0 else c.rateDown
  {
    hide RateAt;
    var n := |xs| - 1;
    var front := xs[..n];
    assert xs[..|xs|] == xs && (forall i :: 0 <= i <= n ==> front[..i] == xs[..i]);
    if GoesDown(c, xs) {
      var j :| DownSince(c, xs, j);
      if j <= n {
        assert DownSince(c, front, j);
      }
    }
    if RateAt(c, xs) < c.rateDown {
      assert DownSince(c, xs, n + 1);
    }
    if GoesDown(c, front) && RateAt(c, xs) < 0.0 {
      var j :| DownSince(c, front, j);
      assert DownSince(c, xs, j);
    }
  }

  /** A check with full windows looks at the rate of the samples since the loss. */
  lemma CheckUsesRate(c: Config, s: State, xs: seq<Sample>)
    requires WellFormed(s) && AllFix(xs) && |xs| >= WINDOW
    requires Remembers(Check(c, s, xs[|xs| - 1]), Alts(xs), Presses(xs))
    ensures Check(c, s, xs[|xs| - 1]).vdir == NextDir(c, s.vdir, RateAt(c, xs))
  {
    hide Deltas, Sum, WindowPush, NextDir, StatusFor, Before;
    WindowSums(Check(c, s, xs[|xs| - 1]), Alts(xs), Presses(xs));
  }

  /** The direction is UP or DOWN exactly as the rates since the loss have it. */
  lemma {:induction false} DirectionFromRates(c: Config, s: State, xs: seq<Sample>)
    requires InRange(c) && Coherent(s) && s.altWindow == s.pressWindow == [] && AllFix(xs)
    ensures Run(c, s, xs).vdir == Up <==> GoesUp(c, xs)
    ensures Run(c, s, xs).vdir == Down <==> GoesDown(c, xs)
    decreases |xs|
  {
    hide Check, RateAt, Remembers, Coherent;
    EveryStateIsCoherent(c, s, xs);
    WindowsHoldLast(c, s, xs);
    FullWindow(Run(c, s, xs), Alts(xs), Presses(xs));
    if |xs| >= WINDOW {
      DirectionFromRates(c, s, xs[..|xs| - 1]);
      GoesUpStep(c, xs);
      GoesDownStep(c, xs);
      CheckUsesRate(c, Run(c, s, xs[..|xs| - 1]), xs);
    }
  }

  // --- The status and the history ---

  /** What a state says about the samples since the last loss, of which there is at least one. */
  ghost predicate Explained(c: Config, r: State, xs: seq<Sample>)
    requires AllFix(xs) && xs != []
  {
    var last, alts, presses := xs[|xs| - 1], Alts(xs), Presses(xs);
    && Remembers(r, alts, presses)
    && Sum(r.altWindow) == last.alt as real - Before(alts, WINDOW)
    && Sum(r.pressWindow) == last.press - Before(presses, WINDOW)
    && (r.status == NoFix <==> |xs| < WINDOW)
    && (r.vdir == Up <==> GoesUp(c, xs)) && (r.vdir == Down <==> GoesDown(c, xs))
    && (r.vdir == Up ==> if last.alt >= c.groundAlt then Climbed(alts, WINDOW) else Sank(presses, WINDOW))
    && (r.vdir == Down ==> if last.alt >= c.groundAlt then Sank(alts, WINDOW) else Climbed(presses, WINDOW))
  }

  lemma FullWindow(s: State, alts: seq<real>, presses: seq<real>)
    requires Coherent(s) && Remembers(s, alts, presses)
    ensures s.status == NoFix <==> |alts| < WINDOW
    ensures |alts| < WINDOW ==> s.vdir == Hover
  {
    hide Deltas;
  }

  lemma WindowSums(s: State, alts: seq<real>, presses: seq<real>)
    requires Remembers(s, alts, presses) && alts != []
    ensures Sum(s.altWindow) == alts[|alts| - 1] - Before(alts, WINDOW)
    ensures Sum(s.pressWindow) == presses[|presses| - 1] - Before(presses, WINDOW)
  {
    hide Deltas, Sum;
    Telescope(alts, WINDOW);
    Telescope(presses, WINDOW);
  }

  lemma ExplainedFromEmpty(c: Config, s: State, xs: seq<Sample>)
    requires InRange(c) && Coherent(s) && s.altWindow == s.pressWindow == [] && xs != [] && AllFix(xs)
    ensures Explained(c, Run(c, s, xs), xs)
  {
    hide Check, Deltas, Sum, WindowPush, NextDir, StatusFor, Rate, Coherent, Remembers, Last, Climbed, Sank, Before,
         GoesUp, GoesDown;
    DirectionFromRates(c, s, xs);
    var n := |xs| - 1;
    var r, alts, presses := Run(c, s, xs), Alts(xs), Presses(xs);
    WindowsHoldLast(c, s, xs);
    EveryStateIsCoherent(c, s, xs);
    FullWindow(r, alts, presses);
    WindowSums(r, alts, presses);
    if |xs| >= WINDOW {
      RateSign(c, Run(c, s, xs[..n]), xs[n], alts, presses);
    }
  }

  /**
   * In every flight the status after a fix is decided by the samples since the last loss: none before the sixth;
   * from then on the direction is UP exactly since a rate above its limit if the rates have been upward from there,
   * and DOWN likewise. It agrees with the change of the altitude (below the ground altitude, of the pressure) since
   * the sample six checks earlier, or the first one.
   */
  lemma StatusFromHistory(c: Config, s: State, before: seq<Sample>, xs: seq<Sample>)
    requires InRange(c) && WellFormed(s) && xs != [] && AllFix(xs)
    ensures Explained(c, Run(c, s, before + [Lost] + xs), xs)
  {
    hide Check, Explained;
    RunConcat(c, s, before + [Lost], xs);
    assert (before + [Lost])[..|before|] == before;
    CheckLost(c, Run(c, s, before));
    ExplainedFromEmpty(c, Reset(Run(c, s, before)), xs);
  }

  // --- Integer width ---

  /** Altitudes within m metres of zero. */
  predicate Within(a: seq<real>, m: real) {
    forall i :: 0 <= i < |a| ==> -m <= a[i] <= m
  }

  /** The running sum of the altitude window, before and after the oldest value is taken away, is within 2 m. */
  lemma SumsFit(a: seq<real>, m: real)
    requires a != [] && Within(a, m)
    ensures -2.0 * m <= Sum(Last(Deltas(a), WINDOW)) <= 2.0 * m
    ensures |a| >= WINDOW ==> -2.0 * m <= Sum(Last(Deltas(a), WINDOW)[1..]) <= 2.0 * m
  {
    hide Deltas, Sum;
    Telescope(a, WINDOW);
    Telescope(a, WINDOW - 1);
    if |a| >= WINDOW {
      assert Last(Deltas(a), WINDOW)[1..] == Last(Deltas(a), WINDOW - 1);
    }
  }
}
