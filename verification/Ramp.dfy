/** The fixed-point acceleration ramp of bertos/algo/ramp.c, with every 16- and 32-bit truncation written out. */
module Ramp {
  import opened Wrappers

  type u16 = x: int | 0 <= x < 0x1_0000
  type u32 = x: int | 0 <= x < 0x1_0000_0000

  function Trunc16(x: nat): u16 {
    x % 0x1_0000
  }

  function Trunc32(x: nat): u32 {
    x % 0x1_0000_0000
  }

  /** The configured clock shift drops two bits. */
  const CLOCK_STEP := 4

  /** The product of two words without its sixteen low bits. */
  function FixMult32(a: u32, b: u32): nat {
    a * b / 0x1_0000
  }

  function FixMult16(a: u16, b: u32): u16 {
    Trunc16(Trunc32(b * a) / 0x1_0000)
  }

  /** The arguments of ramp_compute: the length of the ramp and the two step times, in clocks. */
  datatype Setup = Setup(clocksRamp: u32, minWL: u16, maxWL: u16)

  datatype Curve = Curve(clocksRamp: u32, minWL: u16, maxWL: u16, maxDivMin: u16, invTotalTime: u32)

  /** What the assertions of ramp_compute ask of its arguments, and that it does not divide by zero. */
  predicate Accepted(s: Setup) {
    && s.minWL <= s.maxWL && s.maxWL > 0
    && s.clocksRamp < 0x400_0000 && s.clocksRamp / CLOCK_STEP > 0
    && 0xffff_ffff / (s.clocksRamp / CLOCK_STEP) < 0x100_0000
  }

  function Computed(s: Setup): Curve
    requires s.maxWL > 0 && s.clocksRamp / CLOCK_STEP > 0
  {
    Curve(s.clocksRamp, s.minWL, s.maxWL,
          Trunc16(Trunc32(s.minWL * 0x1_0000) / s.maxWL), Trunc32(0xffff_ffff / (s.clocksRamp / CLOCK_STEP)))
  }

  /** The time fraction t, in units of 2^-16. */
  function TimeOf(r: Curve, curClock: u32): u16 {
    Trunc16(FixMult32(curClock / CLOCK_STEP, r.invTotalTime))
  }

  function DenomOf(r: Curve, t: u16): u16 {
    Trunc16(FixMult16(Trunc16(0xffff - t + 1), r.maxDivMin) + t)
  }

  /** The step time at a clock; None where the program divides by zero. */
  function Evaluate(r: Curve, curClock: u32): Option<u16> {
    var denom := DenomOf(r, TimeOf(r, curClock));
    if denom == 0 then None else Some(Trunc16(Trunc32(r.minWL * 0x1_0000) / denom))
  }

  class Ramp {
    var clocksRamp: u32
    var clocksMinWL: u16
    var clocksMaxWL: u16
    var maxDivMin: u16
    var invTotalTime: u32

    function View(): Curve
      reads this
    {
      Curve(clocksRamp, clocksMinWL, clocksMaxWL, maxDivMin, invTotalTime)
    }

    method Compute(clocks: u32, minWL: u16, maxWL: u16)
      requires Accepted(Setup(clocks, minWL, maxWL))
      modifies this
      ensures View() == Computed(Setup(clocks, minWL, maxWL))
    {
      clocksRamp := clocks;
      clocksMinWL := minWL;
      clocksMaxWL := maxWL;
      maxDivMin := Trunc16(Trunc32(minWL * 0x1_0000) / maxWL);
      invTotalTime := Trunc32(0xffff_ffff / (clocks / CLOCK_STEP));
    }
  }

  // --- Without truncation ---

  function IdealTime(r: Curve, curClock: u32): int {
    (curClock / CLOCK_STEP) * r.invTotalTime / 0x1_0000
  }

  function IdealDenom(r: Curve, t: int): int {
    (0x1_0000 - t) * r.maxDivMin / 0x1_0000 + t
  }

  // --- Arithmetic ---

  lemma DivBounds(x: nat, d: nat)
    requires d > 0
    ensures d * (x / d) <= x < d * (x / d) + d
  {
  }

  lemma DivUnique(x: nat, d: nat, q: nat)
    requires d > 0 && d * q <= x < d * q + d
    ensures x / d == q
  {
    DivBounds(x, d);
    var p := x / d;
    if p < q {
      MulMono(d, p + 1, q);
    } else if q < p {
      MulMono(d, q + 1, p);
    }
  }

  lemma MulMono(a: nat, x: int, y: int)
    requires x <= y
    ensures a * x <= a * y
  {
  }

  lemma DivMono(x: nat, y: nat, d: nat)
    requires d > 0 && x <= y
    ensures x / d <= y / d
  {
    DivBounds(x, d);
    DivBounds(y, d);
    if x / d > y / d {
      MulMono(d, y / d + 1, x / d);
    }
  }

  lemma DivAntitone(x: nat, d: nat, e: nat)
    requires 0 < d <= e
    ensures x / e <= x / d
  {
    DivBounds(x, d);
    DivBounds(x, e);
    if x / e > x / d {
      MulMono(d, x / d + 1, x / e);
      MulMono(x / e, d, e);
    }
  }

  // --- No intermediate value is truncated ---

  /** The last assertion of ramp_compute bounds the ramp from below. */
  lemma AcceptedRange(s: Setup)
    ensures Accepted(s) <==> s.minWL <= s.maxWL && s.maxWL > 0 && 1024 <= s.clocksRamp < 0x400_0000
  {
    var d := s.clocksRamp / CLOCK_STEP;
    if d > 0 {
      DivBounds(0xffff_ffff, d);
      if d >= 256 {
        DivAntitone(0xffff_ffff, 256, d);
      } else {
        DivAntitone(0xffff_ffff, d, 255);
      }
    }
  }

  lemma RatioBelowOne(minWL: u16, maxWL: u16)
    requires minWL < maxWL
    ensures minWL <= minWL * 0x1_0000 / maxWL < 0x1_0000
  {
    var x := minWL * 0x1_0000;
    DivBounds(x, maxWL);
    if x / maxWL >= 0x1_0000 {
      MulMono(maxWL, 0x1_0000, x / maxWL);
    }
    if x / maxWL < minWL {
      MulMono(maxWL, x / maxWL + 1, minWL);
      MulMono(minWL, maxWL, 0x1_0000);
    }
  }

  lemma ShiftFits(w: u16)
    ensures Trunc32(w * 0x1_0000) == w * 0x1_0000
  {
  }

  lemma Stored16(x: nat)
    ensures x < 0x1_0000 ==> Trunc16(x) == x
    ensures x == 0x1_0000 ==> Trunc16(x) == 0
  {
  }

  /** The stored ratio is exact below one, and drops to zero when the two wavelengths are equal. */
  lemma RatioStored(s: Setup)
    requires s.minWL <= s.maxWL && s.maxWL > 0 && s.clocksRamp >= CLOCK_STEP
    ensures var r := Computed(s);
      && (s.minWL < s.maxWL ==> r.maxDivMin == s.minWL * 0x1_0000 / s.maxWL && s.minWL <= r.maxDivMin)
      && (s.minWL == s.maxWL ==> r.maxDivMin == 0)
  {
    ShiftFits(s.minWL);
    hide Trunc16, Trunc32;
    Stored16(s.minWL * 0x1_0000 / s.maxWL);
    if s.minWL == s.maxWL {
      DivUnique(s.minWL * 0x1_0000, s.maxWL, 0x1_0000);
    } else {
      RatioBelowOne(s.minWL, s.maxWL);
    }
  }

  /** An accepted setup, and a clock its curve is meant to be evaluated at. */
  predicate InDomain(s: Setup, curClock: u32) {
    && s.minWL <= s.maxWL && s.maxWL > 0
    && 1024 <= s.clocksRamp < 0x400_0000 && curClock <= s.clocksRamp
  }

  lemma DomainIsAccepted(s: Setup, curClock: u32)
    ensures InDomain(s, curClock) <==> Accepted(s) && curClock <= s.clocksRamp
  {
    AcceptedRange(s);
  }

  lemma TimeBound(a: nat, d: nat, inv: nat)
    requires a <= d && d > 0 && inv == 0xffff_ffff / d
    ensures a * inv / 0x1_0000 <= 0xffff
  {
    DivBounds(0xffff_ffff, d);
    MulMono(inv, a, d);
    DivMono(a * inv, 0xffff_ffff, 0x1_0000);
  }

  lemma InverseFits(d: nat)
    requires d > 0
    ensures Trunc32(0xffff_ffff / d) == 0xffff_ffff / d
  {
    DivAntitone(0xffff_ffff, 1, d);
  }

  lemma InverseStored(s: Setup)
    requires s.maxWL > 0 && s.clocksRamp >= CLOCK_STEP
    ensures Computed(s).invTotalTime == 0xffff_ffff / (s.clocksRamp / CLOCK_STEP)
  {
    hide Trunc32, Trunc16;
    InverseFits(s.clocksRamp / CLOCK_STEP);
  }

  lemma TimeStored(a: u32, inv: u32)
    requires a * inv / 0x1_0000 <= 0xffff
    ensures Trunc16(FixMult32(a, inv)) == a * inv / 0x1_0000
  {
  }

  lemma TimeIsIdeal(s: Setup, curClock: u32)
    requires InDomain(s, curClock)
    ensures TimeOf(Computed(s), curClock) == IdealTime(Computed(s), curClock) <= 0xffff
  {
    hide Computed, FixMult32, Trunc16;
    var r := Computed(s);
    InverseStored(s);
    DivMono(curClock, s.clocksRamp, CLOCK_STEP);
    TimeBound(curClock / CLOCK_STEP, s.clocksRamp / CLOCK_STEP, r.invTotalTime);
    TimeStored(curClock / CLOCK_STEP, r.invTotalTime);
  }

  lemma DenomParts(m: u16, t: u16)
    requires t >= 1
    ensures var p := (0x1_0000 - t) * m;
      && 0 <= p < 0x1_0000_0000
      && 0 <= p / 0x1_0000 <= 0xffff - t
      && p / 0x1_0000 >= m - t
  {
    var p := (0x1_0000 - t) * m;
    MulMono(0x1_0000 - t, 0, m);
    MulMono(0x1_0000 - t, m, 0xffff);
    DivBounds(p, 0x1_0000);
    assert p == 0x1_0000 * m - t * m;
    MulMono(t, m, 0x1_0000);
  }

  lemma DenomIsIdeal(r: Curve, t: u16)
    requires t >= 1
    ensures DenomOf(r, t) == IdealDenom(r, t)
    ensures r.maxDivMin <= IdealDenom(r, t) && t <= IdealDenom(r, t) <= 0xffff
  {
    DenomParts(r.maxDivMin, t);
    hide FixMult16, Trunc16;
    Stored16(0xffff - t + 1);
    ProductStored(0x1_0000 - t, r.maxDivMin);
    Stored16(IdealDenom(r, t));
  }

  lemma ProductStored(a: u16, b: u32)
    requires 0 <= a * b < 0x1_0000_0000 && a * b / 0x1_0000 <= 0xffff
    ensures FixMult16(a, b) == a * b / 0x1_0000
  {
    assert b * a == a * b;
  }

  lemma DenomAtZero(r: Curve)
    ensures DenomOf(r, 0) == 0
  {
    assert Trunc16(0xffff - 0 + 1) == 0;
    assert r.maxDivMin * 0 == 0;
  }

  /**
   The program divides by zero at every clock whose time fraction rounds to zero, not at clock zero alone; on
   every ramp that is over after 1023 clocks.
   */
  lemma DividesByZero(s: Setup, curClock: u32)
    requires InDomain(s, curClock)
    ensures var r := Computed(s);
      && (Evaluate(r, curClock) == None <==> (curClock / CLOCK_STEP) * r.invTotalTime < 0x1_0000)
      && (Evaluate(r, curClock) == None ==> curClock < 1024)
  {
    hide Computed;
    var r := Computed(s);
    TimeIsIdeal(s, curClock);
    DivBounds((curClock / CLOCK_STEP) * r.invTotalTime, 0x1_0000);
    var t := TimeOf(r, curClock);
    if t == 0 {
      DenomAtZero(r);
      InverseStored(s);
      DivAntitone(0xffff_ffff, s.clocksRamp / CLOCK_STEP, 0xff_ffff);
      ShortTime(curClock / CLOCK_STEP, r.invTotalTime);
    } else {
      DenomIsIdeal(r, t);
    }
  }

  lemma ShortTime(a: nat, inv: nat)
    requires a * inv < 0x1_0000 && inv >= 256
    ensures a < 256
  {
    MulMono(a, 256, inv);
  }

  lemma DividesByZeroPastZero()
    ensures var s := Setup(0x3ff_fffc, 600, 15000);
      InDomain(s, 1023) && Evaluate(Computed(s), 1023) == None
  {
    var s := Setup(0x3ff_fffc, 600, 15000);
    hide Computed, Evaluate;
    DivUnique(0xffff_ffff, 0xff_ffff, 256);
    InverseStored(s);
    DividesByZero(s, 1023);
  }

  /** The step time as the formula means it. */
  function Ideal(r: Curve, curClock: u32): int
    requires IdealDenom(r, IdealTime(r, curClock)) > 0
  {
    r.minWL * 0x1_0000 / IdealDenom(r, IdealTime(r, curClock))
  }

  /** The denominator leaves its minimum, the stored ratio, only after this much time. */
  lemma DenomAtMinimum(r: Curve, t: u16)
    requires t >= 1
    ensures IdealDenom(r, t) == r.maxDivMin <==> t * (0x1_0000 - r.maxDivMin) < 0x1_0000
  {
    var m := r.maxDivMin;
    var p := (0x1_0000 - t) * m;
    DenomParts(m, t);
    DivBounds(p, 0x1_0000);
    assert p == 0x1_0000 * m - t * m;
    assert t * (0x1_0000 - m) == 0x1_0000 * t - t * m;
  }

  lemma QuotientFits(minWL: u16, d: u16)
    requires minWL <= d && d > 0
    ensures minWL < d ==> minWL * 0x1_0000 / d < 0x1_0000
    ensures minWL == d ==> minWL * 0x1_0000 / d == 0x1_0000
  {
    var x := minWL * 0x1_0000;
    DivBounds(x, d);
    if minWL == d {
      DivUnique(x, d, 0x1_0000);
    } else if x / d >= 0x1_0000 {
      MulMono(d, 0x1_0000, x / d);
    }
  }

  lemma KeepsWavelengths(s: Setup)
    requires s.maxWL > 0 && s.clocksRamp >= CLOCK_STEP
    ensures Computed(s).minWL == s.minWL && Computed(s).maxWL == s.maxWL
  {
  }

  /** The time is short and the stored ratio has been rounded down to the minimum wavelength. */
  predicate Wraps(s: Setup, curClock: u32)
    requires s.maxWL > 0 && s.clocksRamp >= CLOCK_STEP
  {
    Computed(s).maxDivMin == s.minWL && TimeOf(Computed(s), curClock) * (0x1_0000 - s.minWL) < 0x1_0000
  }

  lemma DividendFits(r: Curve, curClock: u32)
    requires DenomOf(r, TimeOf(r, curClock)) > 0
    ensures Evaluate(r, curClock)
         == Some(r.minWL * 0x1_0000 / DenomOf(r, TimeOf(r, curClock)) % 0x1_0000)
  {
    hide DenomOf, TimeOf;
    ShiftFits(r.minWL);
  }

  lemma EvaluationIsIdeal(s: Setup, curClock: u32)
    requires InDomain(s, curClock) && TimeOf(Computed(s), curClock) >= 1
    ensures var r := Computed(s);
      && IdealDenom(r, IdealTime(r, curClock)) > 0
      && Evaluate(r, curClock) == Some(Ideal(r, curClock) % 0x1_0000)
  {
    hide TimeOf, DenomOf, IdealDenom, IdealTime, Computed, Evaluate;
    var r := Computed(s);
    TimeIsIdeal(s, curClock);
    DenomIsIdeal(r, TimeOf(r, curClock));
    DividendFits(r, curClock);
  }

  lemma WrapsAtMinimum(s: Setup, curClock: u32)
    requires InDomain(s, curClock) && s.minWL < s.maxWL && TimeOf(Computed(s), curClock) >= 1
    ensures var d := IdealDenom(Computed(s), TimeOf(Computed(s), curClock));
      s.minWL <= d <= 0xffff && (Wraps(s, curClock) <==> d == s.minWL)
  {
    hide TimeOf, IdealDenom, Computed, DenomOf;
    var r := Computed(s);
    var t := TimeOf(r, curClock);
    RatioStored(s);
    DenomIsIdeal(r, t);
    DenomAtMinimum(r, t);
  }

  lemma IdealFits(s: Setup, curClock: u32)
    requires InDomain(s, curClock) && s.minWL < s.maxWL && TimeOf(Computed(s), curClock) >= 1
    ensures var r := Computed(s);
      && IdealDenom(r, IdealTime(r, curClock)) > 0
      && if Wraps(s, curClock) then Ideal(r, curClock) == 0x1_0000 else 0 <= Ideal(r, curClock) < 0x1_0000
  {
    hide TimeOf, DenomOf, IdealDenom, IdealTime, Computed, Wraps;
    var r := Computed(s);
    var t := TimeOf(r, curClock);
    KeepsWavelengths(s);
    TimeIsIdeal(s, curClock);
    DenomIsIdeal(r, t);
    WrapsAtMinimum(s, curClock);
    QuotientFits(s.minWL, IdealDenom(r, t));
  }

  /**
   Evaluation returns the low sixteen bits of the ideal step time. With different wavelengths nothing is lost,
   but for one case in which the ideal step time is 65536 and the program returns 0.
   */
  lemma EvaluationExact(s: Setup, curClock: u32)
    requires InDomain(s, curClock)
    ensures var r := Computed(s);
      TimeOf(r, curClock) >= 1 ==>
        && IdealDenom(r, IdealTime(r, curClock)) > 0
        && Evaluate(r, curClock) == Some(Ideal(r, curClock) % 0x1_0000)
        && (s.minWL < s.maxWL ==>
              if Wraps(s, curClock) then Ideal(r, curClock) == 0x1_0000 else 0 <= Ideal(r, curClock) < 0x1_0000)
  {
    hide TimeOf, DenomOf, IdealDenom, IdealTime, Computed, Evaluate, Ideal, Wraps;
    if TimeOf(Computed(s), curClock) >= 1 {
      EvaluationIsIdeal(s, curClock);
      if s.minWL < s.maxWL {
        IdealFits(s, curClock);
      }
    }
  }

  lemma WrapExample()
    ensures var s := Setup(0x3ff_fffc, 60000, 65535);
      InDomain(s, 1024) && Evaluate(Computed(s), 1024) == Some(0)
  {
    var s := Setup(0x3ff_fffc, 60000, 65535);
    hide Evaluate, Ideal, Computed;
    TimeOnLongestRamp(s, 1);
    DivUnique(60000 * 0x1_0000, 65535, 60000);
    RatioStored(s);
    hide TimeOf;
    EvaluationExact(s, 1024);
  }

  lemma TimeOnLongestRamp(s: Setup, t: u16)
    requires s.maxWL > 0 && s.clocksRamp == 0x3ff_fffc
    ensures TimeOf(Computed(s), 1024 * t) == t == IdealTime(Computed(s), 1024 * t)
  {
    hide Computed, FixMult32, Trunc16;
    DivUnique(0xffff_ffff, 0xff_ffff, 256);
    InverseStored(s);
    assert 1024 * t / CLOCK_STEP == 256 * t;
    DivUnique(256 * t * 256, 0x1_0000, t);
    TimeStored(256 * t, 256);
  }

  /** No wrap-around for a curve whose stored ratio exceeds its minimum wavelength, a test on the wavelengths alone. */
  lemma RatioExceedsMinimum(s: Setup)
    requires s.minWL < s.maxWL && s.clocksRamp >= CLOCK_STEP
    ensures Computed(s).maxDivMin > s.minWL <==> s.minWL * (0x1_0000 - s.maxWL) >= s.maxWL
  {
    hide Computed;
    RatioStored(s);
    RatioAbove(s.minWL, s.maxWL);
  }

  lemma RatioAbove(minWL: u16, maxWL: u16)
    requires minWL < maxWL && minWL <= minWL * 0x1_0000 / maxWL
    ensures minWL * 0x1_0000 / maxWL > minWL <==> minWL * (0x1_0000 - maxWL) >= maxWL
  {
    var x := minWL * 0x1_0000;
    DivBounds(x, maxWL);
    assert minWL * (0x1_0000 - maxWL) == x - maxWL * minWL;
    assert maxWL * (minWL + 1) == maxWL * minWL + maxWL;
    if x / maxWL > minWL {
      MulMono(maxWL, minWL + 1, x / maxWL);
    }
  }

  // --- The shape of the curve ---

  /** The returned step time is at least the minimum wavelength unless it wraps, and at most its starting value. */
  lemma EvaluationBounded(s: Setup, curClock: u32)
    requires InDomain(s, curClock) && s.minWL < s.maxWL
    ensures var r := Computed(s);
      TimeOf(r, curClock) >= 1 ==>
        && Evaluate(r, curClock).Some?
        && (s.minWL <= Evaluate(r, curClock).value <==> !Wraps(s, curClock))
        && (r.maxDivMin > 0 ==> Evaluate(r, curClock).value <= s.minWL * 0x1_0000 / r.maxDivMin)
  {
    hide TimeOf, IdealDenom, IdealTime, DenomOf, Computed, Evaluate;
    var r := Computed(s);
    var t := TimeOf(r, curClock);
    KeepsWavelengths(s);
    EvaluationExact(s, curClock);
    if t >= 1 {
      TimeIsIdeal(s, curClock);
      DenomIsIdeal(r, t);
      var d := IdealDenom(r, t);
      QuotientAtLeast(s.minWL, d);
      if r.maxDivMin > 0 {
        DivAntitone(s.minWL * 0x1_0000, r.maxDivMin, d);
      }
    }
  }

  lemma QuotientAtLeast(minWL: nat, d: nat)
    requires 0 < d <= 0x1_0000
    ensures minWL * 0x1_0000 / d >= minWL
  {
    var x := minWL * 0x1_0000;
    DivBounds(x, d);
    MulMono(minWL, d, 0x1_0000);
    if x / d < minWL {
      MulMono(d, x / d + 1, minWL);
    }
  }

  lemma BelowRoundedRatio(x: nat, maxWL: nat, m: nat, d: nat)
    requires maxWL > 0 && m == x / maxWL && m < d
    ensures x / d <= maxWL
  {
    DivBounds(x, maxWL);
    DivBounds(x, d);
    if x / d > maxWL {
      MulMono(d, maxWL, x / d);
      MulMono(maxWL, m + 1, d);
    }
  }

  lemma IdealAgainstMaximum(s: Setup, curClock: u32)
    requires InDomain(s, curClock) && 0 < s.minWL < s.maxWL
    ensures var r := Computed(s); var t := TimeOf(r, curClock);
      t >= 1 ==>
        && r.maxDivMin > 0 && IdealDenom(r, IdealTime(r, curClock)) > 0
        && if t * (0x1_0000 - r.maxDivMin) >= 0x1_0000 then Ideal(r, curClock) <= s.maxWL
           else Ideal(r, curClock) == s.minWL * 0x1_0000 / r.maxDivMin
  {
    hide TimeOf, IdealDenom, IdealTime, Computed, DenomOf;
    var r := Computed(s);
    var t := TimeOf(r, curClock);
    KeepsWavelengths(s);
    RatioStored(s);
    if t >= 1 {
      TimeIsIdeal(s, curClock);
      DenomIsIdeal(r, t);
      DenomAtMinimum(r, t);
      var m, d := r.maxDivMin, IdealDenom(r, t);
      if d > m {
        BelowRoundedRatio(s.minWL * 0x1_0000, s.maxWL, m, d);
      }
    }
  }

  /**
   The returned step time lies between the two wavelengths exactly if the time is not short or the quotient by the
   stored ratio, which is then the step time, is not above the maximum.
   */
  lemma StepTimeInRange(s: Setup, curClock: u32)
    requires InDomain(s, curClock) && 0 < s.minWL < s.maxWL
    ensures var r := Computed(s); var t := TimeOf(r, curClock);
      t >= 1 ==>
        && Evaluate(r, curClock).Some? && r.maxDivMin > 0
        && (s.minWL <= Evaluate(r, curClock).value <= s.maxWL
            <==> t * (0x1_0000 - r.maxDivMin) >= 0x1_0000 || s.minWL * 0x1_0000 / r.maxDivMin <= s.maxWL)
  {
    hide TimeOf, IdealDenom, IdealTime, Computed, Evaluate, Ideal;
    IdealAgainstMaximum(s, curClock);
    EvaluationExact(s, curClock);
    EvaluationBounded(s, curClock);
  }

  /** Without a minimum wavelength the step time is zero throughout. */
  lemma NoMinimumNoStepTime(s: Setup, curClock: u32)
    requires InDomain(s, curClock) && s.minWL == 0
    ensures TimeOf(Computed(s), curClock) >= 1 ==> Evaluate(Computed(s), curClock) == Some(0)
  {
    hide TimeOf, IdealDenom, IdealTime, Computed, Evaluate;
    KeepsWavelengths(s);
    EvaluationExact(s, curClock);
  }

  /** With equal wavelengths the curve is not constant: it is the quotient by the time fraction, cut to sixteen bits. */
  lemma EqualWavelengths(s: Setup, curClock: u32)
    requires InDomain(s, curClock) && s.minWL == s.maxWL
    ensures var r := Computed(s); var t := TimeOf(r, curClock);
      t >= 1 ==> DenomOf(r, t) == t && Evaluate(r, curClock) == Some(s.minWL * 0x1_0000 / t % 0x1_0000)
  {
    hide TimeOf, Computed, Evaluate, DenomOf;
    var r := Computed(s);
    var t := TimeOf(r, curClock);
    KeepsWavelengths(s);
    RatioStored(s);
    if t >= 1 {
      DenomIsIdeal(r, t);
      assert (0x1_0000 - t) * 0 == 0;
      DividendFits(r, curClock);
    }
  }

  lemma EqualWavelengthsExample()
    ensures var s := Setup(0x3ff_fffc, 1000, 1000);
      && InDomain(s, 3072)
      && Evaluate(Computed(s), 1024) == Some(0) && Evaluate(Computed(s), 3072) == Some(21845)
  {
    var s := Setup(0x3ff_fffc, 1000, 1000);
    hide Evaluate, Computed;
    TimeOnLongestRamp(s, 1);
    TimeOnLongestRamp(s, 3);
    hide TimeOf, DenomOf;
    assert 1000 * 0x1_0000 / 1 % 0x1_0000 == 0 && 1000 * 0x1_0000 / 3 % 0x1_0000 == 21845;
    EqualWavelengths(s, 1024);
    EqualWavelengths(s, 3072);
  }

  lemma DenomOfExample(r: Curve)
    requires r.maxDivMin == 2621
    ensures IdealDenom(r, 1) == 2621
  {
  }

  lemma OvershootExample()
    ensures var s := Setup(0x3ff_fffc, 600, 15000);
      InDomain(s, 1024) && Evaluate(Computed(s), 1024) == Some(15002)
  {
    var s := Setup(0x3ff_fffc, 600, 15000);
    hide Evaluate, Computed;
    TimeOnLongestRamp(s, 1);
    KeepsWavelengths(s);
    DivUnique(600 * 0x1_0000, 15000, 2621);
    RatioStored(s);
    hide TimeOf, IdealTime, IdealDenom;
    DenomOfExample(Computed(s));
    DivUnique(600 * 0x1_0000, 2621, 15002);
    EvaluationExact(s, 1024);
  }

  lemma TimeMonotone(r: Curve, c1: u32, c2: u32)
    requires c1 <= c2
    ensures IdealTime(r, c1) <= IdealTime(r, c2)
  {
    DivMono(c1, c2, CLOCK_STEP);
    MulMono(r.invTotalTime, c1 / CLOCK_STEP, c2 / CLOCK_STEP);
    DivMono((c1 / CLOCK_STEP) * r.invTotalTime, (c2 / CLOCK_STEP) * r.invTotalTime, 0x1_0000);
  }

  lemma DenomMonotone(r: Curve, t1: u16, t2: u16)
    requires t1 <= t2
    ensures IdealDenom(r, t1) <= IdealDenom(r, t2)
  {
    var m := r.maxDivMin;
    var p1, p2 := (0x1_0000 - t1) * m, (0x1_0000 - t2) * m;
    MulMono(m, 0, 0x1_0000 - t2);
    MulMono(m, 0, 0x1_0000 - t1);
    assert p1 == p2 + (t2 - t1) * m;
    MulMono(t2 - t1, m, 0x1_0000);
    DivBounds(p1, 0x1_0000);
    DivBounds(p2, 0x1_0000);
  }

  lemma IdealMonotone(s: Setup, c1: u32, c2: u32)
    requires InDomain(s, c2) && c1 <= c2
    ensures var r := Computed(s);
      TimeOf(r, c1) >= 1 ==>
        && TimeOf(r, c1) <= TimeOf(r, c2)
        && IdealDenom(r, IdealTime(r, c1)) > 0 && IdealDenom(r, IdealTime(r, c2)) > 0
        && Ideal(r, c2) <= Ideal(r, c1)
  {
    hide TimeOf, IdealDenom, IdealTime, Computed, DenomOf;
    var r := Computed(s);
    var t1, t2 := TimeOf(r, c1), TimeOf(r, c2);
    if t1 >= 1 {
      KeepsWavelengths(s);
      TimeIsIdeal(s, c1);
      TimeIsIdeal(s, c2);
      TimeMonotone(r, c1, c2);
      DenomIsIdeal(r, t1);
      DenomIsIdeal(r, t2);
      DenomMonotone(r, t1, t2);
      DivAntitone(s.minWL * 0x1_0000, IdealDenom(r, t1), IdealDenom(r, t2));
    }
  }

  lemma WrapsFirst(s: Setup, c1: u32, c2: u32)
    requires s.maxWL > 0 && s.clocksRamp >= CLOCK_STEP && Wraps(s, c2)
    requires TimeOf(Computed(s), c1) <= TimeOf(Computed(s), c2)
    ensures Wraps(s, c1)
  {
    hide TimeOf, Computed;
    MulMono(0x1_0000 - s.minWL, TimeOf(Computed(s), c1), TimeOf(Computed(s), c2));
  }

  /** The motor never slows down while it accelerates, but for the moment at which the step time stops wrapping. */
  lemma EvaluationMonotone(s: Setup, c1: u32, c2: u32)
    requires InDomain(s, c2) && s.minWL < s.maxWL && c1 <= c2
    ensures var r := Computed(s);
      TimeOf(r, c1) >= 1 ==>
        && Evaluate(r, c1).Some? && Evaluate(r, c2).Some?
        && (Evaluate(r, c2).value <= Evaluate(r, c1).value <==> !(Wraps(s, c1) && !Wraps(s, c2)))
  {
    hide TimeOf, IdealDenom, IdealTime, Computed, Evaluate, Ideal;
    IdealMonotone(s, c1, c2);
    EvaluationExact(s, c1);
    EvaluationExact(s, c2);
    EvaluationBounded(s, c2);
    if TimeOf(Computed(s), c1) >= 1 && Wraps(s, c1) {
      assert s.minWL > 0;
    }
    if TimeOf(Computed(s), c1) >= 1 && Wraps(s, c2) {
      WrapsFirst(s, c1, c2);
    }
  }

  // --- The byte-wise multiplication ---

  /** Multiplies eight bits at a time, dropping the low bits on the way: the same product, for 24-bit factors. */
  method FixMult32Bytewise(m1: u32, m2: u32) returns (accum: u32)
    ensures m1 < 0x100_0000 && m2 < 0x100_0000 ==> accum == FixMult32(m1, m2)
  {
    hide Trunc32, FixMult32;
    var b0, b1, b2 := m2 % 0x100, m2 / 0x100 % 0x100, m2 / 0x1_0000 % 0x100;
    accum := 0;
    accum := Trunc32(accum + Trunc32(m1 * b0));
    accum := accum / 0x100;
    accum := Trunc32(accum + Trunc32(m1 * b1));
    accum := accum / 0x100;
    accum := Trunc32(accum + Trunc32(m1 * b2));
    if m1 < 0x100_0000 && m2 < 0x100_0000 {
      BytewiseStages(m1, m2, m1 * b0, m1 * b1, m1 * b2);
    }
  }

  lemma BytewiseStages(m1: u32, m2: u32, p0: nat, p1: nat, p2: nat)
    requires m1 < 0x100_0000 && m2 < 0x100_0000
    requires p0 == m1 * (m2 % 0x100) && p1 == m1 * (m2 / 0x100 % 0x100) && p2 == m1 * (m2 / 0x1_0000 % 0x100)
    ensures var first: u32 := Trunc32(0 + Trunc32(p0));
      var second: u32 := Trunc32(first / 0x100 + Trunc32(p1));
      Trunc32(second / 0x100 + Trunc32(p2)) == FixMult32(m1, m2)
  {
    hide Trunc32;
    BytesOfProduct(m2);
    BytewiseProduct(m1, m2 % 0x100, m2 / 0x100 % 0x100, m2 / 0x1_0000 % 0x100);
    Trunc32Small(p0);
    Trunc32Small(p1);
    Trunc32Small(p2);
    Trunc32Small(p0 / 0x100 + p1);
    Trunc32Small((p0 / 0x100 + p1) / 0x100 + p2);
  }

  lemma Trunc32Small(x: nat)
    requires x < 0x1_0000_0000
    ensures Trunc32(x) == x
  {
  }

  lemma BytesOfProduct(m: u32)
    requires m < 0x100_0000
    ensures m == m % 0x100 + 0x100 * (m / 0x100 % 0x100) + 0x1_0000 * (m / 0x1_0000 % 0x100)
  {
  }

  lemma BytewiseProduct(m: u32, b0: nat, b1: nat, b2: nat)
    requires m < 0x100_0000 && b0 < 0x100 && b1 < 0x100 && b2 < 0x100
    ensures m * b0 < 0x1_0000_0000
    ensures m * b0 / 0x100 + m * b1 < 0x1_0000_0000
    ensures (m * b0 / 0x100 + m * b1) / 0x100 + m * b2 < 0x1_0000_0000
    ensures (m * b0 / 0x100 + m * b1) / 0x100 + m * b2 == m * (b0 + 0x100 * b1 + 0x1_0000 * b2) / 0x1_0000
  {
    MulMono(m, b0, 0xff);
    MulMono(m, b1, 0xff);
    MulMono(m, b2, 0xff);
    var p0, p1, p2 := m * b0, m * b1, m * b2;
    assert m * (b0 + 0x100 * b1 + 0x1_0000 * b2) == p0 + 0x100 * p1 + 0x1_0000 * p2;
  }
}
