/**
 * The flight status of bsm-2/status_mgr.c: the vertical direction with its hysteresis, the status chain and the
 * windows of altitude and pressure differences that give the rate. Rates and pressures are reals.
 */
module StatusMgr {
  import opened MovingAvg

  datatype Status = NoFix | GroundWait | Takeoff | StratosphereUp | StratosphereFall | Falling | Landing | Hovering

  datatype VertDir = Hover | Up | Down

  datatype Config = Config(groundAlt: int, tropopauseAlt: int, landingAlt: int, rateUp: real, rateDown: real)

  /** The ranges to which the configuration entries are clamped. */
  predicate InRange(c: Config) {
    && 10 <= c.groundAlt <= 9000 && 9000 <= c.tropopauseAlt <= 20000 && 10 <= c.landingAlt <= 100000
    && 0.0 <= c.rateUp <= 20.0 && -20.0 <= c.rateDown <= 0.0
  }

  const CHECK_INTERVAL := 10.0
  const WINDOW := 6
  const ALT_HIST := 750

  datatype Sample = Lost | Fix(alt: int, press: real)

  datatype State = State(status: Status, vdir: VertDir, prevAlt: int, prevPress: real,
                         altWindow: seq<real>, pressWindow: seq<real>)

  // --- What one check does ---

  /** The direction after one evaluation: the limit of the current direction is relaxed to zero. */
  function NextDir(c: Config, v: VertDir, rate: real): VertDir {
    if rate > (if v == Up then 0.0 else c.rateUp) then Up
    else if rate < (if v == Down then 0.0 else c.rateDown) then Down
    else Hover
  }

  function TropopauseAlt(c: Config, s: Status): int {
    match s
    case StratosphereUp => c.tropopauseAlt - ALT_HIST
    case Falling => c.tropopauseAlt + ALT_HIST
    case _ => c.tropopauseAlt
  }

  function LandingAlt(c: Config, s: Status): int {
    if s == Landing then c.landingAlt + ALT_HIST else c.landingAlt
  }

  /** The status that follows s when the balloon moves in direction d at the given altitude. */
  function StatusFor(c: Config, s: Status, d: VertDir, alt: int): Status {
    match d
    case Hover => if alt < c.groundAlt then GroundWait else Hovering
    case Up => if alt < TropopauseAlt(c, s) then Takeoff else StratosphereUp
    case Down =>
      if alt >= TropopauseAlt(c, s) then StratosphereFall
      else if alt < LandingAlt(c, s) then Landing
      else Falling
  }

  function Rate(c: Config, alt: int, alts: seq<real>, presses: seq<real>): real
    requires |alts| == |presses| == WINDOW
  {
    if alt >= c.groundAlt then Sum(alts) / WINDOW as real / CHECK_INTERVAL
    else -9.0 * (Sum(presses) / WINDOW as real / CHECK_INTERVAL)
  }

  predicate WellFormed(s: State) {
    |s.altWindow| == |s.pressWindow| <= WINDOW
  }

  function Reset(s: State): State {
    s.(status := NoFix, vdir := Hover, altWindow := [], pressWindow := [])
  }

  /** The state with one more sample in the windows; the first sample after a reset counts as no change. */
  function Pushed(s: State, alt: int, press: real): (r: State)
    requires WellFormed(s)
    ensures WellFormed(r)
  {
    var fromAlt := if s.altWindow == [] then alt else s.prevAlt;
    var fromPress := if s.altWindow == [] then press else s.prevPress;
    s.(prevAlt := alt, prevPress := press,
       altWindow := WindowPush(WINDOW, s.altWindow, (alt - fromAlt) as real),
       pressWindow := WindowPush(WINDOW, s.pressWindow, press - fromPress))
  }

  function Check(c: Config, s: State, x: Sample): (r: State)
    requires WellFormed(s)
    ensures WellFormed(r)
  {
    match x
    case Lost => Reset(s)
    case Fix(alt, press) =>
      var p := Pushed(s, alt, press);
      if |p.altWindow| < WINDOW then p else
      var d := NextDir(c, s.vdir, Rate(c, alt, p.altWindow, p.pressWindow));
      p.(vdir := d, status := StatusFor(c, s.status, d, alt))
  }

  function Run(c: Config, s: State, xs: seq<Sample>): (r: State)
    requires WellFormed(s)
    ensures WellFormed(r)
  {
    if xs == [] then s else Check(c, Run(c, s, xs[..|xs| - 1]), xs[|xs| - 1])
  }

  // --- The direction ---

  /** Asking again with the same rate gives the same answer. */
  predicate Settles(c: Config, v: VertDir, rate: real) {
    NextDir(c, NextDir(c, v, rate), rate) == NextDir(c, v, rate)
  }

  /** The status chain may ask for the direction several times exactly because of the signs of the two limits. */
  lemma DirectionSettles(c: Config)
    ensures (forall v, rate :: Settles(c, v, rate)) <==> c.rateUp >= 0.0 >= c.rateDown
  {
    if forall v, rate :: Settles(c, v, rate) {
      assert Settles(c, Hover, c.rateUp / 2.0);
      assert Settles(c, Hover, c.rateDown / 2.0);
      assert Settles(c, Hover, 0.0);
      assert Settles(c, Up, c.rateDown / 2.0);
      assert Settles(c, Down, c.rateUp / 2.0);
    }
  }

  // --- The process ---

  class StatusManager {
    var config: Config
    var currStatus: Status
    var currVdir: VertDir
    var prevAlt: int
    var prevPress: real
    const altDelta: MovingAvg
    const pressDelta: MovingAvg

    ghost predicate Valid()
      reads this, altDelta, altDelta.values, pressDelta, pressDelta.values
    {
      && altDelta.Valid() && pressDelta.Valid() && altDelta != pressDelta && altDelta.values != pressDelta.values
      && altDelta.size == pressDelta.size == WINDOW && altDelta.cnt == pressDelta.cnt
      && InRange(config)
    }

    ghost function View(): (s: State)
      requires Valid()
      reads this, altDelta, altDelta.values, pressDelta, pressDelta.values
      ensures WellFormed(s)
    {
      State(currStatus, currVdir, prevAlt, prevPress, altDelta.Contents(), pressDelta.Contents())
    }

    constructor (c: Config)
      requires InRange(c)
      ensures Valid() && config == c && View() == Reset(View())
      ensures fresh(altDelta) && fresh(altDelta.values) && fresh(pressDelta) && fresh(pressDelta.values)
    {
      config := c;
      currStatus, currVdir := NoFix, Hover;
      prevAlt, prevPress := 0, 0.0;
      var alts := new MovingAvg(WINDOW);
      var presses := new MovingAvg(WINDOW);
      altDelta, pressDelta := alts, presses;
    }

    method StatusReset()
      requires Valid()
      modifies this, altDelta, pressDelta
      ensures Valid() && config == old(config) && View() == Reset(old(View()))
    {
      currStatus := NoFix;
      altDelta.Reset();
      pressDelta.Reset();
      currVdir := Hover;
    }

    /** A new configuration starts the history anew. */
    method Reload(c: Config)
      requires Valid() && InRange(c)
      modifies this, altDelta, pressDelta
      ensures Valid() && config == c && View() == Reset(old(View()))
    {
      config := c;
      StatusReset();
    }

    method VerticalDir(rate: real) returns (d: VertDir)
      modifies `currVdir
      ensures d == currVdir == NextDir(config, old(currVdir), rate)
    {
      var upLimit, downLimit := config.rateUp, config.rateDown;
      match currVdir {
        case Hover =>
        case Up => upLimit := 0.0;
        case Down => downLimit := 0.0;
      }
      if rate > upLimit {
        currVdir := Up;
      } else if rate < downLimit {
        currVdir := Down;
      } else {
        currVdir := Hover;
      }
      d := currVdir;
    }

    /** The chain of conditions, each of which asks for the direction anew; none of them is left over. */
    method Classify(rate: real, alt: int)
      requires InRange(config)
      modifies `currVdir, `currStatus
      ensures currVdir == NextDir(config, old(currVdir), rate)
      ensures currStatus == StatusFor(config, old(currStatus), currVdir, alt)
    {
      DirectionSettles(config);
      ghost var d := NextDir(config, currVdir, rate);
      assert Settles(config, currVdir, rate);
      assert NextDir(config, d, rate) == d;
      var dir := VerticalDir(rate);
      if dir == Hover && alt < config.groundAlt {
        currStatus := GroundWait;
        return;
      }
      dir := VerticalDir(rate);
      if dir == Hover && alt >= config.groundAlt {
        currStatus := Hovering;
        return;
      }
      dir := VerticalDir(rate);
      if dir == Up && alt < TropopauseAlt(config, currStatus) {
        currStatus := Takeoff;
        return;
      }
      dir := VerticalDir(rate);
      if dir == Up && alt >= TropopauseAlt(config, currStatus) {
        currStatus := StratosphereUp;
        return;
      }
      dir := VerticalDir(rate);
      if dir == Down && alt >= TropopauseAlt(config, currStatus) {
        currStatus := StratosphereFall;
        return;
      }
      dir := VerticalDir(rate);
      if dir == Down && alt < LandingAlt(config, currStatus) {
        currStatus := Landing;
        return;
      }
      dir := VerticalDir(rate);
      if dir == Down && alt < TropopauseAlt(config, currStatus) {
        currStatus := Falling;
        return;
      }
      assert false;
    }

    method Record(currAlt: int, currPress: real)
      requires Valid()
      modifies this, altDelta, altDelta.values, pressDelta, pressDelta.values
      ensures Valid() && config == old(config) && View() == Pushed(old(View()), currAlt, currPress)
    {
      hide Unrolled, Sum, WindowPush;
      if altDelta.Empty() {
        prevAlt := currAlt;
        prevPress := currPress;
      }
      var deltaAlt := currAlt - prevAlt;
      prevAlt := currAlt;
      var deltaPress := currPress - prevPress;
      prevPress := currPress;
      altDelta.Push(deltaAlt as real);
      pressDelta.Push(deltaPress);
    }

    method CurrentRate(currAlt: int) returns (rate: real)
      requires Valid() && altDelta.cnt == WINDOW
      ensures rate == Rate(config, currAlt, altDelta.Contents(), pressDelta.Contents())
    {
      if currAlt >= config.groundAlt {
        var avg := altDelta.Get();
        rate := avg / CHECK_INTERVAL;
      } else {
        var avg := pressDelta.Get();
        rate := -9.0 * (avg / CHECK_INTERVAL);
      }
    }

    method StatusCheck(fix: bool, currAlt: int, currPress: real)
      requires Valid()
      modifies this, altDelta, altDelta.values, pressDelta, pressDelta.values
      ensures Valid() && config == old(config)
      ensures View() == Check(config, old(View()), if fix then Fix(currAlt, currPress) else Lost)
    {
      hide NextDir, StatusFor, Rate, Unrolled, Sum, WindowPush;
      if !fix {
        StatusReset();
        return;
      }
      ghost var before := View();
      Record(currAlt, currPress);
      ghost var pushed := View();
      if !altDelta.Full() {
        return;
      }
      var rate := CurrentRate(currAlt);
      Classify(rate, currAlt);
      assert View() == pushed.(vdir := currVdir, status := currStatus);
    }
  }
}
