/** How often the status can change its mind: every switch after the first costs more than 750 metres of movement. */
module StatusFlapping {
  import opened MovingAvg
  import opened StatusMgr
  import opened StatusRuns

  // --- Hysteresis ---

  function Distance(x: int, y: int): nat {
    if x < y then y - x else x - y
  }

  /** How far the altitude has moved in all, starting from x. */
  function Variation(x: int, alts: seq<int>): nat
    decreases |alts|
  {
    if alts == [] then 0 else Distance(x, alts[0]) + Variation(alts[0], alts[1..])
  }

  /** A switch that goes on at hi and stays on down to lo. */
  predicate Switched(lo: int, hi: int, on: bool, alt: int) {
    alt >= if on then lo else hi
  }

  function Switches(lo: int, hi: int, on: bool, alts: seq<int>): nat
    decreases |alts|
  {
    if alts == [] then 0 else
    var next := Switched(lo, hi, on, alts[0]);
    (if next != on then 1 else 0) + Switches(lo, hi, next, alts[1..])
  }

  /** The part of the gap that is still to be crossed before the next switch. */
  function ToGo(lo: int, hi: int, on: bool, x: int): nat
    requires lo <= hi
  {
    var way := if on then x - lo + 1 else hi - x;
    if way <= 0 then 0 else if way > hi - lo + 1 then hi - lo + 1 else way
  }

  lemma StepCostsDistance(lo: int, hi: int, on: bool, x: int, y: int)
    requires lo <= hi
    ensures var next := Switched(lo, hi, on, y);
      (if next != on then hi - lo + 1 else 0) + ToGo(lo, hi, on, x) <= Distance(x, y) + ToGo(lo, hi, next, y)
  {
  }

  lemma AddGaps(gap: nat, flip: nat, rest: nat, bound: nat, toGo: nat)
    requires flip <= 1
    requires gap * rest <= bound - (if flip == 1 then gap else 0) - toGo
    ensures gap * (flip + rest) + toGo <= bound
  {
    assert gap * (flip + rest) == gap * flip + gap * rest;
  }

  lemma {:induction false} SwitchesCostDistance(lo: int, hi: int, on: bool, x: int, alts: seq<int>)
    requires lo <= hi
    ensures var gap := hi - lo + 1;
      gap * Switches(lo, hi, on, alts) + ToGo(lo, hi, on, x) <= gap + Variation(x, alts)
    decreases |alts|
  {
    if alts != [] {
      hide Switched, ToGo, Distance;
      var next := Switched(lo, hi, on, alts[0]);
      SwitchesCostDistance(lo, hi, next, alts[0], alts[1..]);
      StepCostsDistance(lo, hi, on, x, alts[0]);
      AddGaps(hi - lo + 1, if next != on then 1 else 0, Switches(lo, hi, next, alts[1..]),
              hi - lo + 1 + Variation(x, alts), ToGo(lo, hi, on, x));
    }
  }

  // --- The status while the direction stays the same ---

  /** How often the status becomes, or stops being, w while the balloon moves in direction d. */
  function Flips(c: Config, s: Status, d: VertDir, w: Status, alts: seq<int>): nat
    decreases |alts|
  {
    if alts == [] then 0 else
    var next := StatusFor(c, s, d, alts[0]);
    (if (next == w) != (s == w) then 1 else 0) + Flips(c, next, d, w, alts[1..])
  }

  lemma {:induction false} ClimbIsSwitch(c: Config, s: Status, alts: seq<int>)
    requires s in {Takeoff, StratosphereUp}
    ensures Flips(c, s, Up, StratosphereUp, alts)
         == Switches(c.tropopauseAlt - ALT_HIST, c.tropopauseAlt, s == StratosphereUp, alts)
    decreases |alts|
  {
    if alts != [] {
      ClimbIsSwitch(c, StatusFor(c, s, Up, alts[0]), alts[1..]);
    }
  }

  lemma {:induction false} FallIsSwitch(c: Config, s: Status, alts: seq<int>)
    requires s in {StratosphereFall, Falling} && (forall i :: 0 <= i < |alts| ==> alts[i] >= c.landingAlt)
    ensures Flips(c, s, Down, StratosphereFall, alts)
         == Switches(c.tropopauseAlt, c.tropopauseAlt + ALT_HIST, s == StratosphereFall, alts)
    decreases |alts|
  {
    if alts != [] {
      FallIsSwitch(c, StatusFor(c, s, Down, alts[0]), alts[1..]);
    }
  }

  lemma {:induction false} LandingIsSwitch(c: Config, s: Status, alts: seq<int>)
    requires s in {StratosphereFall, Falling, Landing} && c.landingAlt + 750 <= c.tropopauseAlt
    ensures Flips(c, s, Down, Landing, alts)
         == Switches(c.landingAlt, c.landingAlt + ALT_HIST, s != Landing, alts)
    decreases |alts|
  {
    if alts != [] {
      LandingIsSwitch(c, StatusFor(c, s, Down, alts[0]), alts[1..]);
    }
  }

  /** At most one switch more than there are gaps of 751 metres in the movement. */
  predicate Bounded(flips: nat, moved: nat) {
    751 * flips <= 751 + moved
  }

  // --- Flights ---

  function AltsOf(xs: seq<Sample>): (a: seq<int>)
    requires AllFix(xs)
    ensures |a| == |xs|
  {
    seq(|xs|, i requires 0 <= i < |xs| => xs[i].alt)
  }

  /** Every check finds the direction d. */
  predicate Stays(c: Config, s: State, d: VertDir, xs: seq<Sample>)
    requires WellFormed(s)
    decreases |xs|
  {
    xs == [] || var r := Check(c, s, xs[0]); r.vdir == d && Stays(c, r, d, xs[1..])
  }

  function RunFlips(c: Config, s: State, w: Status, xs: seq<Sample>): nat
    requires WellFormed(s)
    decreases |xs|
  {
    if xs == [] then 0 else
    var r := Check(c, s, xs[0]);
    (if (r.status == w) != (s.status == w) then 1 else 0) + RunFlips(c, r, w, xs[1..])
  }

  lemma CheckFollows(c: Config, s: State, x: Sample)
    requires WellFormed(s) && |s.altWindow| == WINDOW && x.Fix?
    ensures var r := Check(c, s, x); r.status == StatusFor(c, s.status, r.vdir, x.alt) && |r.altWindow| == WINDOW
  {
    hide Rate, NextDir, StatusFor;
  }

  lemma {:induction false} RunFollows(c: Config, s: State, d: VertDir, w: Status, xs: seq<Sample>)
    requires WellFormed(s) && |s.altWindow| == WINDOW && AllFix(xs) && Stays(c, s, d, xs)
    ensures RunFlips(c, s, w, xs) == Flips(c, s.status, d, w, AltsOf(xs))
    decreases |xs|
  {
    hide Check, StatusFor;
    if xs != [] {
      CheckFollows(c, s, xs[0]);
      assert AltsOf(xs)[1..] == AltsOf(xs[1..]);
      RunFollows(c, Check(c, s, xs[0]), d, w, xs[1..]);
    }
  }

  /** While the balloon climbs, the tropopause is reported crossed at most once, and once more every 751 metres. */
  lemma ClimbIsSteady(c: Config, s: State, xs: seq<Sample>)
    requires Coherent(s) && s.vdir == Up && AllFix(xs) && Stays(c, s, Up, xs)
    ensures Bounded(RunFlips(c, s, StratosphereUp, xs), Variation(s.prevAlt, AltsOf(xs)))
  {
    hide Check, StatusFor, Flips, Switches, Variation, Stays, RunFlips, ToGo;
    RunFollows(c, s, Up, StratosphereUp, xs);
    ClimbIsSwitch(c, s.status, AltsOf(xs));
    SwitchesCostDistance(c.tropopauseAlt - ALT_HIST, c.tropopauseAlt, s.status == StratosphereUp, s.prevAlt, AltsOf(xs));
  }

  /** The same while it sinks, above the landing altitude. */
  lemma FallIsSteady(c: Config, s: State, xs: seq<Sample>)
    requires Coherent(s) && s.vdir == Down && s.status != Landing && AllFix(xs) && Stays(c, s, Down, xs)
    requires forall i :: 0 <= i < |xs| ==> xs[i].alt >= c.landingAlt
    ensures Bounded(RunFlips(c, s, StratosphereFall, xs), Variation(s.prevAlt, AltsOf(xs)))
  {
    hide Check, StatusFor, Flips, Switches, Variation, Stays, RunFlips, ToGo;
    RunFollows(c, s, Down, StratosphereFall, xs);
    FallIsSwitch(c, s.status, AltsOf(xs));
    SwitchesCostDistance(c.tropopauseAlt, c.tropopauseAlt + ALT_HIST, s.status == StratosphereFall, s.prevAlt, AltsOf(xs));
  }

  lemma LandingIsSteady(c: Config, s: State, xs: seq<Sample>)
    requires Coherent(s) && s.vdir == Down && AllFix(xs) && Stays(c, s, Down, xs)
    requires c.landingAlt + 750 <= c.tropopauseAlt
    ensures Bounded(RunFlips(c, s, Landing, xs), Variation(s.prevAlt, AltsOf(xs)))
  {
    hide Check, StatusFor, Flips, Switches, Variation, Stays, RunFlips, ToGo;
    RunFollows(c, s, Down, Landing, xs);
    LandingIsSwitch(c, s.status, AltsOf(xs));
    SwitchesCostDistance(c.landingAlt, c.landingAlt + ALT_HIST, s.status != Landing, s.prevAlt, AltsOf(xs));
  }

  // --- A flight on which the landing status flaps ---

  /** A state without history, as after a reset. */
  predicate Fresh(s: State) {
    s == Reset(s)
  }

  /** The pressure rises by 100 at every check. */
  function FlightOf(alts: seq<int>): (xs: seq<Sample>)
    ensures |xs| == |alts| && AllFix(xs)
  {
    seq(|alts|, i requires 0 <= i < |alts| => Fix(alts[i], 100.0 * i as real))
  }

  /** Below the altitude six checks before, and at the first evaluation by more than any configured rate asks for. */
  predicate Sinking(alts: seq<int>) {
    && (|alts| >= WINDOW ==> alts[WINDOW - 1] - alts[0] < -1200)
    && forall i :: WINDOW <= i < |alts| ==> alts[i] < alts[i - WINDOW]
  }

  function Follow(c: Config, s: Status, alts: seq<int>): Status {
    if alts == [] then s else StatusFor(c, Follow(c, s, alts[..|alts| - 1]), Down, alts[|alts| - 1])
  }

  lemma SinkStep(c: Config, s: State, x: Sample, alts: seq<real>, presses: seq<real>)
    requires InRange(c) && WellFormed(s) && x.Fix? && |alts| >= WINDOW
    requires Remembers(Check(c, s, x), alts, presses)
    requires presses[|presses| - 1] - Before(presses, WINDOW) >= 500.0
    requires alts[|alts| - 1] - Before(alts, WINDOW) < if s.vdir == Down then 0.0 else -1200.0
    ensures var r := Check(c, s, x); r.vdir == Down && r.status == StatusFor(c, s.status, Down, x.alt)
  {
    hide Deltas, WindowPush, Sum, StatusFor;
    Telescope(alts, WINDOW);
    Telescope(presses, WINDOW);
  }

  lemma FlightDifferences(alts: seq<int>)
    requires |alts| >= WINDOW && Sinking(alts)
    ensures var xs := FlightOf(alts);
      && Presses(xs)[|xs| - 1] - Before(Presses(xs), WINDOW) >= 500.0
      && Alts(xs)[|xs| - 1] - Before(Alts(xs), WINDOW) < if |alts| == WINDOW then -1200.0 else 0.0
  {
    if |alts| > WINDOW {
      var n := |alts| - 1;
      assert alts[n] < alts[n - WINDOW];
    }
  }

  lemma {:induction false} FlightSinks(c: Config, s: State, alts: seq<int>)
    requires InRange(c) && Fresh(s) && |alts| >= WINDOW && Sinking(alts)
    ensures var r := Run(c, s, FlightOf(alts));
      && r.vdir == Down && r.status == Follow(c, NoFix, alts[WINDOW - 1..]) && r.prevAlt == alts[|alts| - 1]
    decreases |alts|
  {
    hide Check, StatusFor, Deltas, Before;
    var n := |alts| - 1;
    var xs, front := FlightOf(alts), FlightOf(alts[..n]);
    assert xs[..n] == front;
    WindowsHoldLast(c, s, xs);
    FlightDifferences(alts);
    if n >= WINDOW {
      FlightSinks(c, s, alts[..n]);
      assert alts[WINDOW - 1..][..n - (WINDOW - 1)] == alts[..n][WINDOW - 1..];
    } else {
      EarlyFlight(c, s, front);
      assert alts[WINDOW - 1..] == [alts[n]];
      assert Follow(c, NoFix, []) == NoFix && [alts[n]][..0] == [];
    }
    SinkStep(c, Run(c, s, front), xs[n], Alts(xs), Presses(xs));
  }

  lemma EarlyFlight(c: Config, s: State, xs: seq<Sample>)
    requires Fresh(s) && AllFix(xs) && |xs| < WINDOW
    ensures Run(c, s, xs).status == NoFix && Run(c, s, xs).vdir == Hover
  {
    hide Check;
    EveryStateIsCoherent(c, s, xs);
    WindowsHoldLast(c, s, xs);
    FullWindow(Run(c, s, xs), Alts(xs), Presses(xs));
  }

  lemma {:induction false} StaysAlong(c: Config, s: State, d: VertDir, xs: seq<Sample>, m: nat)
    requires WellFormed(s) && m <= |xs|
    requires forall n :: m < n <= |xs| ==> Run(c, s, xs[..n]).vdir == d
    ensures Stays(c, Run(c, s, xs[..m]), d, xs[m..])
    decreases |xs| - m
  {
    hide Check;
    if m < |xs| {
      assert xs[..m + 1][..m] == xs[..m];
      assert xs[m..][1..] == xs[m + 1..];
      StaysAlong(c, s, d, xs, m + 1);
    }
  }

  /** The balloon falls to the tropopause, below the landing altitude, and then about the tropopause. */
  function Approach(c: Config): seq<int> {
    var top := c.tropopauseAlt;
    [top + 2000, top + 2000, top + 2000, top + 2000, top + 2000, top, Low(c), top - 1]
  }

  function Low(c: Config): int {
    (if c.landingAlt < c.tropopauseAlt then c.landingAlt else c.tropopauseAlt) - 1
  }

  function Swing(c: Config): seq<int> {
    [c.tropopauseAlt, Low(c), c.tropopauseAlt]
  }

  lemma ApproachLands(c: Config)
    requires c.landingAlt + 750 > c.tropopauseAlt
    ensures Follow(c, NoFix, Approach(c)[WINDOW - 1..]) == Landing
    ensures Flips(c, Landing, Down, Landing, Swing(c)) == 3
    ensures Variation(c.tropopauseAlt - 1, Swing(c)) == 1 + 2 * (c.tropopauseAlt - Low(c))
  {
    var top, low := c.tropopauseAlt, Low(c);
    assert Approach(c)[WINDOW - 1..] == [top, low, top - 1];
    assert [top, low, top - 1][..2] == [top, low] && [top, low][..1] == [top] && [top][..0] == [];
    assert Follow(c, NoFix, [top]) == StratosphereFall;
    assert Follow(c, NoFix, [top, low]) == Landing;
    assert Swing(c)[1..] == [low, top] && [low, top][1..] == [top];
    assert [top][1..] == [];
    assert Flips(c, StratosphereFall, Down, Landing, []) == 0 && Flips(c, Landing, Down, Landing, [top]) == 1;
    assert Flips(c, StratosphereFall, Down, Landing, [low, top]) == 2;
    assert Variation(top, []) == 0 && Variation(low, [top]) == top - low;
    assert Variation(top, [low, top]) == 2 * (top - low);
  }

  lemma FlightIsSinking(c: Config, n: nat)
    requires InRange(c) && WINDOW <= n <= 11
    ensures |(Approach(c) + Swing(c))[..n]| == n && Sinking((Approach(c) + Swing(c))[..n])
  {
  }

  /** The samples about the tropopause, as they follow those of the approach. */
  function Swinging(c: Config): (xs: seq<Sample>)
    ensures AllFix(xs)
  {
    FlightOf(Approach(c) + Swing(c))[8..]
  }

  /** Three changes of the status within no more than 1501 metres of movement. */
  lemma LandingFlaps(c: Config, s: State)
    requires InRange(c) && Fresh(s) && c.landingAlt + 750 > c.tropopauseAlt
    ensures var t, xs := Run(c, s, FlightOf(Approach(c))), Swinging(c);
      && t.status == Landing && t.vdir == Down && t.prevAlt == c.tropopauseAlt - 1 && Stays(c, t, Down, xs)
      && RunFlips(c, t, Landing, xs) == 3 && !Bounded(3, Variation(t.prevAlt, AltsOf(xs)))
  {
    hide Check, Sinking, Variation, Follow, Flips, StatusFor, Run;
    var alts := Approach(c) + Swing(c);
    var all := FlightOf(alts);
    ApproachLands(c);
    assert alts[..8] == Approach(c);
    forall n | WINDOW <= n <= 11
      ensures Run(c, s, all[..n]).vdir == Down
    {
      assert all[..n] == FlightOf(alts[..n]);
      FlightIsSinking(c, n);
      FlightSinks(c, s, alts[..n]);
    }
    assert all[..8] == FlightOf(Approach(c));
    FlightIsSinking(c, 8);
    FlightSinks(c, s, Approach(c));
    StaysAlong(c, s, Down, all, 8);
    var t := Run(c, s, all[..8]);
    assert AltsOf(Swinging(c)) == Swing(c);
    EveryStateIsCoherent(c, s, all[..8]);
    RunFollows(c, t, Down, Landing, Swinging(c));
  }

  // --- The condition ---

  /** A descent of any flight: from a state that can be reached, with the direction staying DOWN. */
  ghost predicate Descent(c: Config, s: State, xs: seq<Sample>) {
    && (exists t, before :: Fresh(t) && s == Run(c, t, before))
    && AllFix(xs) && WellFormed(s) && s.vdir == Down && Stays(c, s, Down, xs)
  }

  predicate LandingBounded(c: Config, s: State, xs: seq<Sample>)
    requires WellFormed(s) && AllFix(xs)
  {
    Bounded(RunFlips(c, s, Landing, xs), Variation(s.prevAlt, AltsOf(xs)))
  }

  /**
   * The landing status is kept from flapping only when its upper limit lies below the tropopause: the tropopause is
   * looked at first, so that with a higher landing altitude less than its hysteresis changes the status.
   */
  lemma LandingBoundedIff(c: Config)
    requires InRange(c)
    ensures (forall s, xs | Descent(c, s, xs) :: LandingBounded(c, s, xs))
       <==> c.landingAlt + 750 <= c.tropopauseAlt
  {
    hide Check, Run, Stays, RunFlips;
    if c.landingAlt + 750 <= c.tropopauseAlt {
      forall s, xs | Descent(c, s, xs)
        ensures LandingBounded(c, s, xs)
      {
        var t, before :| Fresh(t) && s == Run(c, t, before);
        EveryStateIsCoherent(c, t, before);
        LandingIsSteady(c, s, xs);
      }
    } else {
      var start := State(NoFix, Hover, 0, 0.0, [], []);
      LandingFlaps(c, start);
      var s, xs := Run(c, start, FlightOf(Approach(c))), Swinging(c);
      assert Descent(c, s, xs) && !LandingBounded(c, s, xs);
    }
  }

  // --- Descents through LANDING and back ---

  /** Where a check that finds the direction DOWN leaves the altitude. */
  predicate Placed(c: Config, s: Status, x: int) {
    match s
    case StratosphereFall => x >= c.tropopauseAlt - ALT_HIST
    case Falling => c.landingAlt <= x < c.tropopauseAlt + ALT_HIST
    case Landing => x < c.landingAlt + ALT_HIST
    case _ => false
  }

  lemma EveryDescentIsPlaced(c: Config, t: State, before: seq<Sample>)
    requires Fresh(t) && Run(c, t, before).vdir == Down
    ensures var s := Run(c, t, before); Coherent(s) && Placed(c, s.status, s.prevAlt)
  {
    hide Rate, NextDir;
    EveryStateIsCoherent(c, t, before);
    EarlierState(c, t, before);
  }

  /** The last check of a run that ends in direction DOWN was evaluated. */
  lemma {:induction false} EarlierState(c: Config, t: State, before: seq<Sample>)
    requires Fresh(t) && Run(c, t, before).vdir == Down
    ensures before != [] && before[|before| - 1].Fix?
    ensures var s, x := Run(c, t, before[..|before| - 1]), before[|before| - 1];
      var r := Run(c, t, before); r.prevAlt == x.alt && r.status == StatusFor(c, s.status, Down, x.alt)
  {
    hide Rate, NextDir, StatusFor;
    EveryStateIsCoherent(c, t, before);
    EveryStateIsCoherent(c, t, before[..|before| - 1]);
  }

  /** The movement that the coming changes to and from STRATOPHERE_FALL may be short of. */
  function Credit(c: Config, s: Status, x: int): nat {
    var top, low := c.tropopauseAlt, c.landingAlt;
    var back := 2 * ALT_HIST - 1 - (top - low) - (x - low);
    var credit :=
      match s
      case StratosphereFall => if x >= top then ALT_HIST - (x - top) else ALT_HIST + 1 + if back > 0 then back else 0
      case Falling => if back > x - top + 1 then back else x - top + 1
      case _ => 2 * ALT_HIST + 1 - top + x;
    if credit > 0 then credit else 0
  }

  lemma CreditStep(c: Config, s: Status, x: int, y: int)
    requires c.landingAlt + 750 <= c.tropopauseAlt && Placed(c, s, x)
    ensures var r := StatusFor(c, s, Down, y);
      && Placed(c, r, y)
      && (if (r == StratosphereFall) != (s == StratosphereFall) then ALT_HIST + 1 else 0) + Credit(c, r, y)
         <= Credit(c, s, x) + Distance(x, y)
  {
  }

  lemma {:induction false} FlipsCostDistance(c: Config, s: Status, x: int, alts: seq<int>)
    requires c.landingAlt + 750 <= c.tropopauseAlt && Placed(c, s, x)
    ensures 751 * Flips(c, s, Down, StratosphereFall, alts) <= Credit(c, s, x) + Variation(x, alts)
    decreases |alts|
  {
    hide Placed, Credit, StatusFor, Distance;
    if alts != [] {
      CreditStep(c, s, x, alts[0]);
      FlipsCostDistance(c, StatusFor(c, s, Down, alts[0]), alts[0], alts[1..]);
    }
  }

  /**
   * With a landing altitude low enough, the bound on STRATOPHERE_FALL holds for every descent that starts outside
   * LANDING, also through LANDING and back; with one change more if it starts below the tropopause in that status,
   * which happens when the balloon turns down right after STRATOPHERE_UP.
   */
  lemma DescentIsSteady(c: Config, s: State, xs: seq<Sample>)
    requires Descent(c, s, xs) && s.status != Landing && c.landingAlt + 750 <= c.tropopauseAlt
    ensures var flips, moved := RunFlips(c, s, StratosphereFall, xs), Variation(s.prevAlt, AltsOf(xs));
      if s.status == StratosphereFall && s.prevAlt < c.tropopauseAlt
      then 751 * flips <= 1502 + moved
      else Bounded(flips, moved)
  {
    hide Check, Run, Stays, RunFlips, Flips, Variation;
    var t, before :| Fresh(t) && s == Run(c, t, before);
    EveryDescentIsPlaced(c, t, before);
    RunFollows(c, s, Down, StratosphereFall, xs);
    FlipsCostDistance(c, s.status, s.prevAlt, AltsOf(xs));
  }

  /** That one change more is needed: with the direction DOWN throughout, three changes within 753 metres. */
  lemma BelowTropopauseExample()
    ensures var c, alts := Config(1500, 9000, 8250, 2.0, -2.0), [8250, 8249, 9000, 8999];
      && InRange(c) && Placed(c, StratosphereFall, 8250)
      && Flips(c, StratosphereFall, Down, StratosphereFall, alts) == 3 && !Bounded(3, Variation(8250, alts))
  {
    var c := Config(1500, 9000, 8250, 2.0, -2.0);
    var three, two, one := [8249, 9000, 8999], [9000, 8999], [8999];
    assert [8250, 8249, 9000, 8999][1..] == three && three[1..] == two && two[1..] == one && one[1..] == [];
    assert Flips(c, StratosphereFall, Down, StratosphereFall, one) == 1 && Variation(9000, one) == 1;
    assert Flips(c, Landing, Down, StratosphereFall, two) == 2 && Variation(8249, two) == 752;
    assert Flips(c, Falling, Down, StratosphereFall, three) == 2 && Variation(8250, three) == 753;
    assert Variation(8250, [8250, 8249, 9000, 8999]) == 753;
  }
}
