/**
 * The power-up flag of bsm-2/logging.c and bsm-2/measures.c: a file says that the auxiliary power is about to be
 * switched on, so that a reset caused by doing so is not repeated for ever. A write of the file is one step.
 */
module PowerFlag {
  import opened Wrappers

  const ABOUT_TO_TURN_ON := "POWER FAIL"
  const TURNED_ON := "POWER OK"

  /** The file starts with the text written after a power-up that went well. */
  predicate Clean(file: Option<string>) {
    file.Some? && |file.value| >= |TURNED_ON| && file.value[..|TURNED_ON|] == TURNED_ON
  }

  /** Where the program is; in FlagWritten and PoweredUp the power-up is under way. */
  datatype Place = Down | Booting | Ready | FlagWritten | PoweredUp

  predicate Window(p: Place) {
    p == FlagWritten || p == PoweredUp
  }

  /** The process that watches the current is started when the first power-up after a boot is over. */
  datatype State = State(file: Option<string>, aux: bool, override: bool, logged: bool, watched: bool, place: Place)

  /** OverCurrent is the watch process finding too much current; Reset is a reset of the board, at any moment. */
  datatype Event = Boot | Reload | Override(cmd: int) | CurrReset | Advance | OverCurrent | Reset

  /** The file is there but does not say that all went well. */
  predicate Unclean(s: State) {
    s.file.Some? && !Clean(s.file)
  }

  function BeginEnable(s: State): State {
    s.(file := Some(ABOUT_TO_TURN_ON), place := FlagWritten)
  }

  /** One step; an event that cannot happen where the program is changes nothing. */
  function Step(s: State, e: Event): State {
    match e
    case Reset => s.(aux := false, override := false, logged := false, watched := false, place := Down)
    case Boot =>
      if s.place != Down then s
      else s.(file := if s.file.None? then Some(TURNED_ON) else s.file, place := Booting)
    case Reload =>
      if s.place != Booting && s.place != Ready then s
      else if Clean(s.file) then BeginEnable(s.(override := false, logged := false))
      else s.(override := true, logged := false, aux := false, watched := true, place := Ready)
    case Override(cmd) =>
      if s.place != Ready then s
      else if cmd != 0 then BeginEnable(s.(override := true))
      else s.(override := true, aux := false)
    case CurrReset =>
      if s.place != Ready then s else BeginEnable(s.(override := false, logged := false))
    case Advance =>
      if s.place == FlagWritten then s.(aux := true, place := PoweredUp)
      else if s.place == PoweredUp then s.(file := Some(TURNED_ON), watched := true, place := Ready)
      else s
    case OverCurrent =>
      if s.watched && !s.override then s.(aux := false, logged := true) else s
  }

  function Run(s: State, es: seq<Event>): State {
    if es == [] then s else Step(Run(s, es[..|es| - 1]), es[|es| - 1])
  }

  // --- The program, where no reset comes in between ---

  class Power {
    var file: Option<string>
    var aux: bool
    var currOverride: bool
    var currLogged: bool

    function View(place: Place): State
      reads this
    {
      State(file, aux, currOverride, currLogged, place == Ready, place)
    }

    constructor (content: Option<string>)
      ensures View(Down) == State(content, false, false, false, false, Down)
    {
      file, aux, currOverride, currLogged := content, false, false, false;
    }

    /** The text overwrites the beginning of the file, which is then cut off behind it. */
    method SetPendingPowerFlag(pending: bool)
      modifies `file
      ensures file == Some(if pending then "POWER FAIL" else "POWER OK")
    {
      var status := if pending then ABOUT_TO_TURN_ON else TURNED_ON;
      var content := if file.None? then "" else file.value;
      content := status + (if |content| > |status| then content[|status|..] else "");
      file := Some(content[..|status|]);
    }

    method CheckPreviousPowerStatus() returns (ok: bool)
      ensures ok <==> file.Some? && "POWER OK" <= file.value
    {
      if file.None? {
        return false;
      }
      var len := if |file.value| < |TURNED_ON| then |file.value| else |TURNED_ON|;
      var buf := file.value[..len];
      ok := len == |TURNED_ON| && buf == TURNED_ON;
    }

    method InitPower()
      modifies `file
      ensures View(Booting) == Step(old(View(Down)), Boot)
    {
      if file.None? {
        file := Some("");
        SetPendingPowerFlag(false);
      }
    }

    method PowerEnable(enable: bool)
      modifies `file, `aux
      ensures enable ==> View(Ready) == Step(Step(BeginEnable(old(View(Ready))), Advance), Advance)
      ensures !enable ==> View(Ready) == old(View(Ready)).(aux := false)
    {
      if enable {
        SetPendingPowerFlag(true);
      }
      aux := enable;
      if enable {
        SetPendingPowerFlag(false);
      }
    }

    method WatchCurrent(current: real, limit: real)
      modifies `file, `aux, `currLogged
      ensures View(Ready) == if current > limit then Step(old(View(Ready)), OverCurrent) else old(View(Ready))
    {
      if !currOverride && current > limit {
        PowerEnable(false);
        if !currLogged {
          currLogged := true;
        }
      }
    }

    method CmdCurrOverride(cmd: int)
      modifies this
      ensures View(Ready) == Step(Step(Step(old(View(Ready)), Override(cmd)), Advance), Advance)
    {
      currOverride := true;
      PowerEnable(cmd != 0);
    }

    method ResetProtection()
      modifies `currOverride, `currLogged
      ensures !currOverride && !currLogged
    {
      currOverride := false;
      currLogged := false;
    }

    method CmdCurrReset()
      modifies this
      ensures View(Ready) == Step(Step(Step(old(View(Ready)), CurrReset), Advance), Advance)
    {
      ResetProtection();
      PowerEnable(true);
    }

    method MeasuresReload()
      modifies this
      ensures View(Ready) == Step(Step(Step(old(View(Ready)), Reload), Advance), Advance)
      ensures View(Ready) == Step(Step(Step(old(View(Booting)), Reload), Advance), Advance)
    {
      ResetProtection();
      var clean := CheckPreviousPowerStatus();
      if clean {
        PowerEnable(true);
      } else {
        CmdCurrOverride(0);
      }
    }
  }

  // --- What holds in every reachable state ---

  /** The flag is pending for as long as the power-up lasts, and cleared while the power stays on. */
  predicate Consistent(s: State) {
    && (Window(s.place) ==> s.file == Some(ABOUT_TO_TURN_ON))
    && (s.aux ==> Window(s.place) || (s.place == Ready && s.file == Some(TURNED_ON)))
    && (s.place != Down ==> s.file.Some?)
    && (s.watched ==> s.place == Ready || Window(s.place)) && (s.place == Ready ==> s.watched)
  }

  lemma FlagTexts()
    ensures Clean(Some(TURNED_ON)) && !Clean(Some(ABOUT_TO_TURN_ON))
  {
    assert ABOUT_TO_TURN_ON[6] != TURNED_ON[6];
  }

  lemma {:induction false} EveryStateIsConsistent(s: State, es: seq<Event>)
    requires Consistent(s)
    ensures Consistent(Run(s, es))
    decreases |es|
  {
    if es != [] {
      EveryStateIsConsistent(s, es[..|es| - 1]);
    }
  }

  lemma {:induction false} RunConcat(s: State, es: seq<Event>, fs: seq<Event>)
    ensures Run(s, es + fs) == Run(Run(s, es), fs)
    decreases |fs|
  {
    if fs == [] {
      assert es + fs == es;
    } else {
      assert (es + fs)[..|es + fs| - 1] == es + fs[..|fs| - 1];
      RunConcat(s, es, fs[..|fs| - 1]);
    }
  }

  lemma RunAppend(s: State, es: seq<Event>, e: Event)
    ensures Run(s, es + [e]) == Step(Run(s, es), e)
  {
    assert (es + [e])[..|es|] == es;
  }

  /** The two commands with which the ground asks for power. */
  predicate AsksForPower(e: Event) {
    e == CurrReset || (e.Override? && e.cmd != 0)
  }

  predicate Locked(s: State) {
    Unclean(s) && !s.aux && !Window(s.place)
  }

  lemma ResetLocks(s: State)
    requires Consistent(s) && Window(s.place)
    ensures Locked(Step(s, Reset))
  {
    FlagTexts();
  }

  lemma {:induction false} LockedStays(s: State, es: seq<Event>)
    requires Locked(s) && forall i :: 0 <= i < |es| ==> !AsksForPower(es[i])
    ensures Locked(Run(s, es))
    decreases |es|
  {
    if es != [] {
      LockedStays(s, es[..|es| - 1]);
    }
  }

  /**
   * After a reset during a power-up the power is off at every later moment, over any number of reboots and
   * reloads, for as long as nobody asks for it.
   */
  lemma InterruptedPowerUpIsNotRepeated(s: State, before: seq<Event>, es: seq<Event>)
    requires Consistent(s) && Window(Run(s, before).place)
    requires forall i :: 0 <= i < |es| ==> !AsksForPower(es[i])
    ensures !Run(s, before + [Reset] + es).aux
  {
    hide Run, Step, Consistent;
    EveryStateIsConsistent(s, before);
    RunAppend(s, before, Reset);
    ResetLocks(Run(s, before));
    LockedStays(Run(s, before + [Reset]), es);
    RunConcat(s, before + [Reset], es);
  }

  // --- Override and over-current ---

  /** Any step of the program, and being told once more to switch the power on. */
  predicate KeepsOverride(e: Event) {
    e in {Advance, OverCurrent, Boot} || (e.Override? && e.cmd != 0)
  }

  /** In override mode and with the power on, or about to be switched on. */
  predicate ForcedOn(s: State) {
    s.override && (s.place == FlagWritten || (s.place in {PoweredUp, Ready} && s.aux))
  }

  lemma RunFront(s: State, e: Event, es: seq<Event>)
    requires es != []
    ensures ([e] + es)[..|es|] == [e] + es[..|es| - 1]
  {
  }

  /** The power that is commanded on stays on whatever the current, until it is commanded otherwise. */
  lemma {:induction false} OverrideKeepsPower(s: State, cmd: int, es: seq<Event>)
    requires s.place == Ready && cmd != 0 && forall i :: 0 <= i < |es| ==> KeepsOverride(es[i])
    ensures ForcedOn(Run(s, [Override(cmd)] + es))
    decreases |es|
  {
    if es == [] {
      assert [Override(cmd)] + es == [Override(cmd)] && [Override(cmd)][..0] == [];
      assert Run(s, []) == s;
    } else {
      OverrideKeepsPower(s, cmd, es[..|es| - 1]);
      RunFront(s, Override(cmd), es);
    }
  }

  /** What the program does of itself; nobody asks for power, and the configuration is not loaded. */
  predicate AsksNothing(e: Event) {
    e in {Advance, OverCurrent, Boot, Override(0), Reset}
  }

  /** The power is off and no power-up under way. */
  predicate Off(s: State) {
    !s.aux && s.place !in {FlagWritten, PoweredUp}
  }

  lemma {:induction false} OffStays(s: State, es: seq<Event>)
    requires Off(s) && forall i :: 0 <= i < |es| ==> AsksNothing(es[i])
    ensures Off(Run(s, es))
    decreases |es|
  {
    if es != [] {
      OffStays(s, es[..|es| - 1]);
    }
  }

  lemma OneStep(s: State, e: Event)
    ensures Run(s, [e]) == Step(s, e)
  {
    assert [e][..0] == [];
  }

  /** Outside override mode too much current switches the power off, and so does the command with argument zero. */
  lemma OverCurrentCutsPower(s: State, e: Event, es: seq<Event>)
    requires s.place == Ready && ((e == OverCurrent && s.watched && !s.override) || e == Override(0))
    requires forall i :: 0 <= i < |es| ==> AsksNothing(es[i])
    ensures !Run(s, [e] + es).aux
  {
    OneStep(s, e);
    OffStays(Step(s, e), es);
    RunConcat(s, [e], es);
  }

  /** The override command ends automatic protection with either argument, and the power is as it says. */
  lemma OverrideObeys(s: State, cmd: int)
    requires s.place == Ready
    ensures Run(s, [Override(cmd), Advance, Advance])
         == if cmd == 0 then s.(override := true, aux := false)
            else s.(override := true, aux := true, watched := true, file := Some("POWER OK"))
  {
    var one, two := [Override(cmd)], [Override(cmd), Advance];
    assert one + [Advance] == two && two + [Advance] == [Override(cmd), Advance, Advance];
    OneStep(s, Override(cmd));
    RunAppend(s, one, Advance);
    RunAppend(s, two, Advance);
  }

  /** The command that resets the protection switches the power on and lets too much current switch it off again. */
  lemma ResetProtects(s: State)
    requires s.place == Ready
    ensures var t := Run(s, [CurrReset, Advance, Advance]);
      t.aux && t.place == Ready && t.watched && !t.override && !t.logged
    ensures var t := Run(s, [CurrReset, Advance, Advance, OverCurrent]); !t.aux && t.logged
  {
    var one, two, three := [CurrReset], [CurrReset, Advance], [CurrReset, Advance, Advance];
    assert one + [Advance] == two && two + [Advance] == three;
    assert three + [OverCurrent] == [CurrReset, Advance, Advance, OverCurrent];
    OneStep(s, CurrReset);
    RunAppend(s, one, Advance);
    RunAppend(s, two, Advance);
    RunAppend(s, three, OverCurrent);
  }

  // --- Unfinished power-ups ---

  /** The next step ends a power-up that has gone well. */
  predicate Completes(s: State, e: Event) {
    s.place == PoweredUp && e == Advance
  }

  /** The last power-up of the run, begun after its first n events, has not been completed. */
  predicate UnfinishedSince(s: State, es: seq<Event>, n: int) {
    && 0 <= n <= |es| && Window(Run(s, es[..n]).place)
    && (forall i :: n <= i < |es| ==> !Completes(Run(s, es[..i]), es[i]))
  }

  ghost predicate Unfinished(s: State, es: seq<Event>) {
    exists n :: UnfinishedSince(s, es, n)
  }

  lemma UnfinishedAppend(s: State, es: seq<Event>, e: Event, n: int)
    requires n <= |es|
    ensures UnfinishedSince(s, es + [e], n) <==> UnfinishedSince(s, es, n) && !Completes(Run(s, es), e)
  {
    hide Run, Completes, Window;
    var next := es + [e];
    assert forall i :: 0 <= i <= |es| ==> next[..i] == es[..i];
    assert es[..|es|] == es;
    if UnfinishedSince(s, es, n) && !Completes(Run(s, es), e) {
      assert forall i :: n <= i < |next| ==> !Completes(Run(s, next[..i]), next[i]);
    }
    if UnfinishedSince(s, next, n) {
      assert forall i :: n <= i < |es| ==> !Completes(Run(s, next[..i]), next[i]);
      assert !Completes(Run(s, next[..|es|]), next[|es|]);
    }
  }

  lemma UnfinishedStep(s: State, es: seq<Event>, e: Event)
    ensures Unfinished(s, es + [e])
       <==> Window(Run(s, es + [e]).place) || (Unfinished(s, es) && !Completes(Run(s, es), e))
  {
    var next := es + [e];
    assert next[..|next|] == next;
    assert UnfinishedSince(s, next, |next|) <==> Window(Run(s, next).place);
    hide Run, Completes, Window, UnfinishedSince;
    if Unfinished(s, next) {
      var n :| UnfinishedSince(s, next, n);
      UnfinishedInRange(s, next, n);
      if n < |next| {
        UnfinishedAppend(s, es, e, n);
      }
    }
    if Unfinished(s, es) && !Completes(Run(s, es), e) {
      var n :| UnfinishedSince(s, es, n);
      UnfinishedInRange(s, es, n);
      UnfinishedAppend(s, es, e, n);
    }
  }

  lemma UnfinishedInRange(s: State, es: seq<Event>, n: int)
    requires UnfinishedSince(s, es, n)
    ensures 0 <= n <= |es|
  {
  }

  lemma FlagStep(s: State, e: Event)
    requires Consistent(s)
    ensures Unclean(Step(s, e)) <==> Window(Step(s, e).place) || (Unclean(s) && !Completes(s, e))
  {
    hide Clean;
    FlagTexts();
  }

  /** With a clean file at the start, the file is unclean exactly while the last power-up has not been completed. */
  lemma {:induction false} FlagTellsUnfinished(s: State, es: seq<Event>)
    requires Consistent(s) && !Window(s.place) && !Unclean(s)
    ensures Unclean(Run(s, es)) <==> Unfinished(s, es)
    decreases |es|
  {
    if es == [] {
      assert es[..0] == es;
    } else {
      var front, e := es[..|es| - 1], es[|es| - 1];
      assert es == front + [e];
      hide Unfinished, Step, Consistent, Unclean, Completes;
      FlagTellsUnfinished(s, front);
      UnfinishedStep(s, front, e);
      EveryStateIsConsistent(s, front);
      FlagStep(Run(s, front), e);
    }
  }

  /**
   * After a reset, the board powers up again by itself exactly if no power-up is unfinished; otherwise it waits
   * in override mode, and a command brings the power back and clears the flag.
   */
  lemma RebootRepeatsOnlyGoodPowerUp(s: State, es: seq<Event>)
    requires Consistent(s) && !Window(s.place) && !Unclean(s)
    ensures var r := Run(s, es + [Reset, Boot, Reload, Advance, Advance]);
      && r.place == Ready && r.aux == !Unfinished(s, es) && r.override == Unfinished(s, es)
      && Clean(r.file) == !Unfinished(s, es)
    ensures Run(s, es + [Reset, Boot, Reload, Advance, Advance, CurrReset, Advance, Advance])
         == State(Some(TURNED_ON), true, false, false, true, Ready)
  {
    var before := Run(s, es);
    FlagTellsUnfinished(s, es);
    RunConcat(s, es, [Reset, Boot, Reload, Advance, Advance]);
    RunConcat(s, es, [Reset, Boot, Reload, Advance, Advance, CurrReset, Advance, Advance]);
    FiveSteps(before);
    EightSteps(before);
  }

  lemma FiveSteps(s: State)
    ensures Run(s, [Reset, Boot, Reload, Advance, Advance])
         == Step(Step(Step(Step(Step(s, Reset), Boot), Reload), Advance), Advance)
  {
    hide Step;
    var one, two := [Reset], [Reset, Boot];
    var three, four := [Reset, Boot, Reload], [Reset, Boot, Reload, Advance];
    assert [] + [Reset] == one && one + [Boot] == two && two + [Reload] == three && three + [Advance] == four;
    assert four + [Advance] == [Reset, Boot, Reload, Advance, Advance];
    RunAppend(s, [], Reset);
    RunAppend(s, one, Boot);
    RunAppend(s, two, Reload);
    RunAppend(s, three, Advance);
    RunAppend(s, four, Advance);
  }

  lemma EightSteps(s: State)
    ensures Run(s, [Reset, Boot, Reload, Advance, Advance, CurrReset, Advance, Advance])
         == Step(Step(Step(Run(s, [Reset, Boot, Reload, Advance, Advance]), CurrReset), Advance), Advance)
  {
    hide Step, Run;
    var five := [Reset, Boot, Reload, Advance, Advance];
    var six := five + [CurrReset];
    var seven := six + [Advance];
    assert seven + [Advance] == [Reset, Boot, Reload, Advance, Advance, CurrReset, Advance, Advance];
    RunAppend(s, five, CurrReset);
    RunAppend(s, six, Advance);
    RunAppend(s, seven, Advance);
  }

  /** Too much current during a commanded power-up switches the power off, but the flag is cleared all the same. */
  lemma OverCurrentIsForgotten(s: State)
    requires s == State(None, false, false, false, false, Down)
    ensures var es := [Boot, Reload, Advance, Advance, CurrReset, Advance, OverCurrent, Advance];
      && Run(s, es) == State(Some(TURNED_ON), false, false, true, true, Ready)
      && Run(s, es + [Reset, Boot, Reload, Advance, Advance]).aux
  {
    var one, two, three, four := [Boot], [Boot, Reload], [Boot, Reload, Advance], [Boot, Reload, Advance, Advance];
    var five := four + [CurrReset];
    var six := five + [Advance];
    var seven := six + [OverCurrent];
    var eight := seven + [Advance];
    assert [] + [Boot] == one && one + [Reload] == two && two + [Advance] == three && three + [Advance] == four;
    assert eight == [Boot, Reload, Advance, Advance, CurrReset, Advance, OverCurrent, Advance];
    FlagTexts();
    RunAppend(s, [], Boot);
    RunAppend(s, one, Reload);
    RunAppend(s, two, Advance);
    RunAppend(s, three, Advance);
    RunAppend(s, four, CurrReset);
    RunAppend(s, five, Advance);
    RunAppend(s, six, OverCurrent);
    RunAppend(s, seven, Advance);
    RunConcat(s, eight, [Reset, Boot, Reload, Advance, Advance]);
    FiveSteps(Run(s, eight));
  }
}
