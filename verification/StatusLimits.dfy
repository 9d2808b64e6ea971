/** What a reported status says about the altitude and the rate, in plain numbers. */
module StatusLimits {
  import opened MovingAvg
  import opened StatusMgr
  import opened StatusRuns

  /** Where the altitude of the last sample lies. */
  predicate Located(c: Config, s: Status, alt: int) {
    match s
    case NoFix => true
    case GroundWait => alt < c.groundAlt
    case Hovering => alt >= c.groundAlt
    case Takeoff => alt < c.tropopauseAlt + 750
    case StratosphereUp => alt >= c.tropopauseAlt - 750
    case StratosphereFall => alt >= c.tropopauseAlt - 750
    case Falling => c.landingAlt <= alt < c.tropopauseAlt + 750
    case Landing => alt < c.landingAlt + 750
  }

  /** In every reachable state the status fits the last altitude. */
  lemma {:induction false} EveryStatusIsLocated(c: Config, s: State, xs: seq<Sample>)
    requires Coherent(s) && |s.altWindow| < 6
    ensures var r := Run(c, s, xs); Located(c, r.status, r.prevAlt)
    decreases |xs|
  {
    hide Rate, NextDir, Sum, WindowPush;
    if xs != [] {
      EveryStateIsCoherent(c, s, xs[..|xs| - 1]);
      EveryStateIsCoherent(c, s, xs);
      EveryStatusIsLocated(c, s, xs[..|xs| - 1]);
    }
  }

  /** Where a balloon is as its status changes from s to r: the limits are shifted for those that would switch back. */
  predicate Crossed(c: Config, s: Status, r: Status, alt: int) {
    var top, low := c.tropopauseAlt, c.landingAlt;
    match r
    case Takeoff => alt < if s == StratosphereUp then top - 750 else if s == Falling then top + 750 else top
    case StratosphereUp => s != StratosphereUp ==> alt >= if s == Falling then top + 750 else top
    case StratosphereFall => s != StratosphereUp ==> alt >= if s == Falling then top + 750 else top
    case Falling => s != Falling ==> alt < top && (s == Landing ==> alt >= low + 750)
    case Landing => s != Landing ==> alt < low && (s == StratosphereUp ==> alt < top - 750)
    case _ => true
  }

  /** At every check of every run the status changes only where its limit is crossed. */
  lemma EveryChangeIsCrossed(c: Config, s: State, xs: seq<Sample>, x: Sample)
    requires Coherent(s) && |s.altWindow| < 6
    ensures var p, r := Run(c, s, xs), Run(c, s, xs + [x]); r.status == NoFix || Crossed(c, p.status, r.status, r.prevAlt)
  {
    hide Rate, NextDir, Sum, WindowPush, Run;
    EveryStateIsCoherent(c, s, xs);
    EveryStateIsCoherent(c, s, xs + [x]);
    RunConcat(c, s, xs, [x]);
    RunOne(c, Run(c, s, xs), x);
  }

  lemma RunOne(c: Config, s: State, x: Sample)
    requires WellFormed(s)
    ensures Run(c, s, [x]) == Check(c, s, x)
  {
    hide Check;
    assert [x][..0] == [];
  }

  /**
   The rate is the climb over the last six checks, a minute, in metres a second; below the ground altitude the
   change of the pressure stands in for it, nine metres a unit. The sixth sample looks back over five checks.
   */
  lemma RateInNumbers(c: Config, xs: seq<Sample>)
    requires AllFix(xs) && |xs| >= 6
    ensures var last, first := xs[|xs| - 1], xs[if |xs| == 6 then 0 else |xs| - 7];
      RateAt(c, xs) == if last.alt >= c.groundAlt then (last.alt - first.alt) as real / 60.0
                       else -9.0 * (last.press - first.press) / 60.0
  {
  }

  /** What the default configuration reports on both sides of each limit. */
  lemma DefaultLimits()
    ensures var c := Config(1500, 12500, 3600, 2.0, -2.0);
      && InRange(c)
      && StatusFor(c, NoFix, Hover, 1499) == GroundWait && StatusFor(c, NoFix, Hover, 1500) == Hovering
      && StatusFor(c, Takeoff, Up, 12499) == Takeoff && StatusFor(c, Takeoff, Up, 12500) == StratosphereUp
      && StatusFor(c, StratosphereUp, Up, 11749) == Takeoff && StatusFor(c, StratosphereUp, Up, 11750) == StratosphereUp
      && StatusFor(c, StratosphereFall, Down, 12499) == Falling
      && StatusFor(c, StratosphereFall, Down, 12500) == StratosphereFall
      && StatusFor(c, Falling, Down, 13249) == Falling && StatusFor(c, Falling, Down, 13250) == StratosphereFall
      && StatusFor(c, Falling, Down, 3600) == Falling && StatusFor(c, Falling, Down, 3599) == Landing
      && StatusFor(c, Landing, Down, 4349) == Landing && StatusFor(c, Landing, Down, 4350) == Falling
      && NextDir(c, Hover, 2.0) == NextDir(c, Down, 2.0) == Hover && NextDir(c, Hover, 2.1) == NextDir(c, Down, 2.1) == Up
      && NextDir(c, Up, 0.1) == Up && NextDir(c, Up, 0.0) == Hover
      && NextDir(c, Hover, -2.0) == NextDir(c, Up, -2.0) == Hover
      && NextDir(c, Hover, -2.1) == NextDir(c, Up, -2.1) == Down
      && NextDir(c, Down, -0.1) == Down && NextDir(c, Down, 0.0) == Hover
  {
  }
}
