/** Whole runs of a device: boots, events of the application and resets in any order.
    The retained register is what connects one boot with the next. */
module DeviceRuns {
  import opened RetainedRegister
  import opened Bootloader
  import opened CrownstoneApp

  datatype Running = Off | Updating | InApp(app: App)

  /** The register, what runs, and the state the application has stored. */
  datatype Device = Device(reg: bv8, running: Running, mode: OperationMode, switch: SwitchState)

  /** A pass of the bootloader, an event of the application, or a reset from outside: a
      crash, the watchdog, the end of an update. */
  datatype Step = BootStep(activation: Activation, appValid: bool) | AppStep(event: Event) | ResetStep

  predicate Enabled(d: Device, s: Step) {
    match s
    case BootStep(_, _) => d.running == Off
    case AppStep(e) => d.running.InApp? && Possible(d.running.app, e)
    case ResetStep => d.running != Off
  }

  function Next(d: Device, s: Step): Device
    requires Enabled(d, s)
  {
    match s
    case BootStep(activation, appValid) =>
      var (reg, outcome) := Pass(d.reg, activation, appValid);
      d.(reg := reg, running :=
        match outcome
        case UpdateLoop => Updating
        case StartApp => InApp(Fresh(d.mode, d.switch))
        case Reset => Off
        case InternalError => Off)
    case AppStep(e) =>
      var (app, reg) := Handled(d.running.app, d.reg, e);
      Device(reg, if app.waiting == ResetDone then Off else InApp(app), app.mode, app.switch)
    case ResetStep => d.(running := Off)
  }

  /** The steps can be taken one after another. */
  predicate Runs(d: Device, steps: seq<Step>)
    decreases |steps|
  {
    steps == [] || (Enabled(d, steps[0]) && Runs(Next(d, steps[0]), steps[1..]))
  }

  function Run(d: Device, steps: seq<Step>): Device
    requires Runs(d, steps)
    decreases |steps|
  {
    if steps == [] then d else Run(Next(d, steps[0]), steps[1..])
  }

  // ---------- Storage recovery ----------

  /** The recovery flag is used up once start-up is over, and not before. */
  predicate FlagUsed(app: App, r: bv8) {
    && (app.waiting == Nothing ==> !Has(r, FLAG_STORAGE_RECOVERED))
    && (app.waiting != Nothing ==> !app.setStateValuesAfterRecover)
  }

  /** What a running application and the stored state satisfy. */
  predicate Consistent(d: Device) {
    d.running.InApp? ==>
      d.mode == d.running.app.mode && d.switch == d.running.app.switch && FlagUsed(d.running.app, d.reg)
  }

  /** A pass that takes a DFU request out of the register. */
  predicate TakesRequest(d: Device, s: Step) {
    s.BootStep? && Pass(d.reg, s.activation, s.appValid).1 == UpdateLoop && DfuMarked(Checked(d.reg))
  }

  function WantedAfter(wanted: bool, d: Device, s: Step): bool {
    if s == AppStep(EvtPagesErased) then true
    else if s == AppStep(EvtStorageInitialized) || TakesRequest(d, s) then false
    else wanted
  }

  /** Whether erased pages still wait to be followed by a restored state: erasing asks
      for it, an initialized storage fulfils it, and a DFU request drops it. */
  function Wanted(wanted: bool, d: Device, steps: seq<Step>): bool
    requires Runs(d, steps)
    decreases |steps|
  {
    if steps == [] then wanted
    else Wanted(WantedAfter(wanted, d, steps[0]), Next(d, steps[0]), steps[1..])
  }

  /** A pass that makes up the recovery flag: it finishes an activation while the register
      asks for the update loop, and the flag was not set. */
  predicate Forges(d: Device, s: Step) {
    && s.BootStep? && s.activation in {Activated, ActivationError}
    && Requested(d.reg) && !Has(d.reg, FLAG_STORAGE_RECOVERED)
  }

  predicate NoneForges(d: Device, steps: seq<Step>)
    requires Runs(d, steps)
    decreases |steps|
  {
    steps == [] || (!Forges(d, steps[0]) && NoneForges(Next(d, steps[0]), steps[1..]))
  }

  /** At every moment of the run the recovery flag says whether it is wanted. */
  predicate FlagTells(wanted: bool, d: Device, steps: seq<Step>)
    requires Runs(d, steps)
    decreases |steps|
  {
    && (Has(d.reg, FLAG_STORAGE_RECOVERED) <==> wanted)
    && (steps == [] || FlagTells(WantedAfter(wanted, d, steps[0]), Next(d, steps[0]), steps[1..]))
  }

  /** What an event does to the recovery flag. */
  lemma EventFlag(app: App, r: bv8, e: Event)
    requires FlagUsed(app, r) && Possible(app, e)
    ensures var (app', r') := Handled(app, r, e);
      && (Has(r', FLAG_STORAGE_RECOVERED)
          <==> e == EvtPagesErased || (e != EvtStorageInitialized && Has(r, FLAG_STORAGE_RECOVERED)))
      && (app'.waiting != ResetDone ==> FlagUsed(app', r'))
  {
    hide Has, WithFlag, WithoutFlag, WithCounter, Counter;
    RecoveryFlagBits(r);
  }

  lemma RecoveryFlagBits(r: bv8)
    ensures forall f :: f in {FLAG_BROWNOUT, FLAG_DFU_RESET} ==>
      (Has(WithFlag(r, f), FLAG_STORAGE_RECOVERED) <==> Has(r, FLAG_STORAGE_RECOVERED))
    ensures Has(WithFlag(r, FLAG_STORAGE_RECOVERED), FLAG_STORAGE_RECOVERED)
    ensures !Has(WithoutFlag(r, FLAG_STORAGE_RECOVERED), FLAG_STORAGE_RECOVERED)
    ensures Has(WithCounter(r, COUNTER_SOFT_RESET), FLAG_STORAGE_RECOVERED) <==> Has(r, FLAG_STORAGE_RECOVERED)
    ensures !Has(0, FLAG_STORAGE_RECOVERED)
  {
  }

  /** What a pass does to the recovery flag. */
  lemma PassFlag(r: bv8, activation: Activation, appValid: bool)
    ensures var (after, outcome) := Pass(r, activation, appValid);
      var follows := Has(after, FLAG_STORAGE_RECOVERED)
        <==> Has(r, FLAG_STORAGE_RECOVERED) && !(outcome == UpdateLoop && DfuMarked(Checked(r)));
      follows <==> !(activation in {Activated, ActivationError} && Requested(r) && !Has(r, FLAG_STORAGE_RECOVERED))
  {
  }

  lemma NextIsConsistent(d: Device, s: Step)
    requires Consistent(d) && Enabled(d, s)
    ensures Consistent(Next(d, s))
  {
    hide Pass, Handled, Has;
    match s
    case BootStep(_, _) =>
    case AppStep(e) => EventFlag(d.running.app, d.reg, e);
    case ResetStep =>
  }

  /** One step keeps the flag and the wish the same exactly when it does not forge. In
      particular the clear in the tick cannot drop the flag, because it is not set any
      more when the ticks have started. */
  lemma FlagFollowsStep(d: Device, s: Step)
    requires Consistent(d) && Enabled(d, s)
    ensures (Has(Next(d, s).reg, FLAG_STORAGE_RECOVERED)
        <==> WantedAfter(Has(d.reg, FLAG_STORAGE_RECOVERED), d, s))
      <==> !Forges(d, s)
  {
    hide Pass, Handled, Has, FlagUsed, Requested, DfuMarked, Checked;
    match s
    case BootStep(activation, appValid) => PassFlag(d.reg, activation, appValid);
    case AppStep(e) => EventFlag(d.running.app, d.reg, e);
    case ResetStep =>
  }

  /** Over a whole run the recovery flag says at every moment whether erased pages still
      wait for their state to be restored, exactly when no pass of the run forges it. */
  lemma {:induction false} FlagTellsIff(d: Device, steps: seq<Step>)
    requires Consistent(d) && Runs(d, steps)
    ensures FlagTells(Has(d.reg, FLAG_STORAGE_RECOVERED), d, steps) <==> NoneForges(d, steps)
    decreases |steps|
  {
    hide Next, Enabled, Consistent, Has, WantedAfter, Forges;
    if steps != [] {
      NextIsConsistent(d, steps[0]);
      FlagFollowsStep(d, steps[0]);
      FlagTellsIff(Next(d, steps[0]), steps[1..]);
    }
  }

  lemma {:induction false} TellsAtTheEnd(wanted: bool, d: Device, steps: seq<Step>)
    requires Consistent(d) && Runs(d, steps) && FlagTells(wanted, d, steps)
    ensures Consistent(Run(d, steps))
    ensures Has(Run(d, steps).reg, FLAG_STORAGE_RECOVERED) <==> Wanted(wanted, d, steps)
    decreases |steps|
  {
    hide Next, Enabled, Consistent, Has, WantedAfter;
    if steps != [] {
      NextIsConsistent(d, steps[0]);
      TellsAtTheEnd(WantedAfter(wanted, d, steps[0]), Next(d, steps[0]), steps[1..]);
    }
  }

  /** After every run in which no pass forges the flag, it is set exactly when erased
      pages still wait for their state to be restored. */
  lemma FlagMeansWanted(d: Device, steps: seq<Step>)
    requires Consistent(d) && Runs(d, steps) && NoneForges(d, steps)
    ensures Consistent(Run(d, steps))
    ensures Has(Run(d, steps).reg, FLAG_STORAGE_RECOVERED)
      <==> Wanted(Has(d.reg, FLAG_STORAGE_RECOVERED), d, steps)
  {
    hide Next, Enabled, Consistent, Has, Wanted, Run, FlagTells, NoneForges;
    FlagTellsIff(d, steps);
    TellsAtTheEnd(Has(d.reg, FLAG_STORAGE_RECOVERED), d, steps);
  }

  const INITIALIZED := AppStep(EvtStorageInitialized)

  lemma {:induction false} RunOneMore(d: Device, steps: seq<Step>, s: Step)
    ensures Runs(d, steps + [s]) <==> Runs(d, steps) && Enabled(Run(d, steps), s)
    ensures Runs(d, steps + [s]) ==> Run(d, steps + [s]) == Next(Run(d, steps), s)
    decreases |steps|
  {
    hide Next, Enabled;
    if steps == [] {
      assert steps + [s] == [s] && [s][1..] == [];
    } else {
      assert (steps + [s])[1..] == steps[1..] + [s];
      if Enabled(d, steps[0]) {
        RunOneMore(Next(d, steps[0]), steps[1..], s);
      }
    }
  }

  /** An initialized storage restores the switch state exactly when the flag asks. */
  lemma InitializedRestores(d: Device)
    requires Consistent(d) && Enabled(d, INITIALIZED)
    ensures Next(d, INITIALIZED).switch == if Has(d.reg, FLAG_STORAGE_RECOVERED) then SWITCHED_ON else d.switch
    ensures !Has(Next(d, INITIALIZED).reg, FLAG_STORAGE_RECOVERED)
  {
  }

  /** In every run in which no pass forges the flag, an initialized storage switches the
      device on exactly when pages were erased since the last time it did. */
  lemma RestoredWhenWanted(d: Device, steps: seq<Step>)
    requires Consistent(d) && Runs(d, steps) && Runs(d, steps + [INITIALIZED]) && NoneForges(d, steps)
    ensures Run(d, steps + [INITIALIZED]).switch ==
      if Wanted(Has(d.reg, FLAG_STORAGE_RECOVERED), d, steps) then SWITCHED_ON else Run(d, steps).switch
    ensures !Has(Run(d, steps + [INITIALIZED]).reg, FLAG_STORAGE_RECOVERED)
  {
    hide Next, Enabled, Consistent, Has, Run, Runs, Wanted;
    RunOneMore(d, steps, INITIALIZED);
    FlagMeansWanted(d, steps);
    InitializedRestores(Run(d, steps));
  }

  /** No step of the run takes a DFU request out of the register. */
  predicate NoRequestTaken(d: Device, steps: seq<Step>)
    requires Runs(d, steps)
    decreases |steps|
  {
    steps == [] || (!TakesRequest(d, steps[0]) && NoRequestTaken(Next(d, steps[0]), steps[1..]))
  }

  lemma {:induction false} StaysWanted(d: Device, steps: seq<Step>)
    requires Runs(d, steps) && INITIALIZED !in steps && NoRequestTaken(d, steps)
    ensures Wanted(true, d, steps)
    decreases |steps|
  {
    hide Next, Enabled, TakesRequest;
    if steps != [] {
      assert steps[0] in steps && (forall s :: s in steps[1..] ==> s in steps);
      StaysWanted(Next(d, steps[0]), steps[1..]);
    }
  }

  /** While the flag is set there is nothing to forge. */
  lemma {:induction false} SetFlagIsNotForged(d: Device, steps: seq<Step>)
    requires Consistent(d) && Runs(d, steps) && Has(d.reg, FLAG_STORAGE_RECOVERED)
    requires INITIALIZED !in steps && NoRequestTaken(d, steps)
    ensures NoneForges(d, steps)
    decreases |steps|
  {
    hide Next, Enabled, Consistent, Has, TakesRequest;
    if steps != [] {
      assert steps[0] in steps && (forall s :: s in steps[1..] ==> s in steps);
      NextIsConsistent(d, steps[0]);
      FlagFollowsStep(d, steps[0]);
      SetFlagIsNotForged(Next(d, steps[0]), steps[1..]);
    }
  }

  /** The flag set when pages are erased survives any number of boots, activations,
      crashes, ticks and commands, until the first boot whose storage is initialized, as
      long as no DFU request is taken; there the switch is set on and the flag is gone. */
  lemma RecoverySurvives(d: Device, steps: seq<Step>)
    requires Consistent(d) && Enabled(d, AppStep(EvtPagesErased))
    requires Runs(Next(d, AppStep(EvtPagesErased)), steps + [INITIALIZED]) && INITIALIZED !in steps
    requires Runs(Next(d, AppStep(EvtPagesErased)), steps) && NoRequestTaken(Next(d, AppStep(EvtPagesErased)), steps)
    ensures var end := Run(Next(d, AppStep(EvtPagesErased)), steps + [INITIALIZED]);
      end.switch == SWITCHED_ON && !Has(end.reg, FLAG_STORAGE_RECOVERED)
  {
    hide Next, Enabled, Consistent, Has, Run, Runs, Wanted, NoRequestTaken, NoneForges;
    var after := Next(d, AppStep(EvtPagesErased));
    NextIsConsistent(d, AppStep(EvtPagesErased));
    FlagFollowsStep(d, AppStep(EvtPagesErased));
    StaysWanted(after, steps);
    SetFlagIsNotForged(after, steps);
    RestoredWhenWanted(after, steps);
  }

  /** With an activation the flag can appear without any page having been erased: a DFU
      request left in the register is taken for it two boots later. */
  lemma ActivationForgesRecovery(mode: OperationMode, switch: SwitchState)
    ensures var d := Device(FLAG_DFU_RESET, Off, mode, switch);
      var steps := [BootStep(Activated, true), BootStep(NoActivation, true),
                    AppStep(InitDrivers0(true, true, true)), INITIALIZED];
      Runs(d, steps) && Run(d, steps).switch == SWITCHED_ON
  {
    var d0 := Device(FLAG_DFU_RESET, Off, mode, switch);
    var d1 := Next(d0, BootStep(Activated, true));
    assert d1 == Device(DFU_START, Off, mode, switch);
    var d2 := Next(d1, BootStep(NoActivation, true));
    assert d2 == Device(0xB2, InApp(Fresh(mode, switch)), mode, switch);
    var init := AppStep(InitDrivers0(true, true, true));
    var d3 := Next(d2, init);
    var steps := [BootStep(Activated, true), BootStep(NoActivation, true), init, INITIALIZED];
    assert steps[1..][1..] == [init, INITIALIZED] && steps[1..][0] == BootStep(NoActivation, true);
    assert [init, INITIALIZED][1..] == [INITIALIZED] && [INITIALIZED][1..] == [];
    InitializedRestores(d3);
    var d4 := Next(d3, INITIALIZED);
    assert Runs(d3, [INITIALIZED]) && Run(d3, [INITIALIZED]) == d4;
    assert Runs(d2, [init, INITIALIZED]) && Run(d2, [init, INITIALIZED]) == d4;
    assert Runs(d1, steps[1..]) && Run(d1, steps[1..]) == d4;
  }

  // ---------- How the application is started ----------

  /** A step starts the application exactly when it is a pass without an activation, of a
      valid application, that nothing leads to the update loop. */
  lemma StartsIff(d: Device, s: Step)
    requires Enabled(d, s) && !d.running.InApp?
    ensures Next(d, s).running.InApp?
      <==> s == BootStep(NoActivation, true) && !Requested(d.reg) && !Collides(d.reg)
    ensures Next(d, s).running.InApp?
      ==> d.running == Off && Next(d, s).running.app == App(Boot, 0, false, false, d.mode, d.switch)
  {
    hide Requested, Collides, Checked, FlagsCleared, DfuMarked;
    if s.BootStep? {
      OutcomeIff(d.reg, s.activation, s.appValid);
    }
  }

  /** After k of the steps the device is off, and the next one is such a pass; from there
      on only the application takes steps. */
  predicate StartedAt(d: Device, steps: seq<Step>, k: nat) {
    && k < |steps| && Runs(d, steps[..k]) && Run(d, steps[..k]).running == Off
    && steps[k] == BootStep(NoActivation, true)
    && !Requested(Run(d, steps[..k]).reg) && !Collides(Run(d, steps[..k]).reg)
    && forall i :: k < i < |steps| ==> steps[i].AppStep?
  }

  /** Whenever the application runs at the end of a run in which it did not run at the
      start, such a pass of the bootloader started it. */
  lemma {:induction false} StartedByPass(d: Device, steps: seq<Step>)
    requires Runs(d, steps) && !d.running.InApp? && Run(d, steps).running.InApp?
    ensures exists k: nat :: StartedAt(d, steps, k)
    decreases |steps|
  {
    hide Requested, Collides, Next, Enabled;
    var n := |steps| - 1;
    var front, last := steps[..n], steps[n];
    assert front + [last] == steps;
    RunOneMore(d, front, last);
    if Run(d, front).running.InApp? {
      StartedByPass(d, front);
      var k: nat :| StartedAt(d, front, k);
      OnlyAppKeepsRunning(Run(d, front), last);
      assert steps[..k] == front[..k];
      assert StartedAt(d, steps, k);
    } else {
      StartsIff(Run(d, front), last);
      assert StartedAt(d, steps, n);
    }
  }

  lemma OnlyAppKeepsRunning(d: Device, s: Step)
    requires Enabled(d, s) && d.running.InApp? && Next(d, s).running.InApp?
    ensures s.AppStep?
  {
  }

  /** What start-up waits for follows the state of the flash: exactly one of four things
      can come next, besides a power warning and a reset from outside. */
  lemma StartUpWaits(d: Device, meshValid: bool, storageOk: bool, eraseOk: bool)
    requires Enabled(d, AppStep(InitDrivers0(meshValid, storageOk, eraseOk)))
    ensures var next := Next(d, AppStep(InitDrivers0(meshValid, storageOk, eraseOk)));
      && next.reg == d.reg
      && (Enabled(next, AppStep(EvtMeshPagesErased)) <==> !meshValid)
      && (Enabled(next, INITIALIZED) <==> meshValid && storageOk)
      && (Enabled(next, AppStep(EvtPagesErased)) <==> meshValid && !storageOk && eraseOk)
      && (next.running == Off <==> meshValid && !storageOk && !eraseOk)
      && forall e: Event :: Enabled(next, AppStep(e)) ==>
        e in {EvtMeshPagesErased, EvtStorageInitialized, EvtPagesErased, PowerFailureWarning}
  {
  }

  /** The events that end in a reset, and no others do. */
  lemma ResetsIff(d: Device, e: Event)
    requires Enabled(d, AppStep(e))
    ensures Next(d, AppStep(e)).running == Off
      <==> e in {EvtMeshPagesErased, EvtPagesErased, SoftReset, GoToDfu} || e == InitDrivers0(true, false, false)
    ensures Next(d, AppStep(e)).running != Off ==> Next(d, AppStep(e)).running.InApp?
  {
    hide Initialized, Ticked;
    StaysInApp(d.running.app, d.reg);
  }

  lemma StaysInApp(app: App, r: bv8)
    ensures Initialized(app, r).0.waiting == Nothing
    ensures Ticked(app, r).0.waiting == app.waiting
  {
  }

  /** Start-up waits for that event however many power warnings come before it. */
  lemma {:induction false} StartUpKeepsWaiting(d: Device, e: Event, steps: seq<Step>)
    requires e in {EvtMeshPagesErased, EvtPagesErased, EvtStorageInitialized} && Enabled(d, AppStep(e))
    requires Runs(d, steps) && AppStep(e) !in steps && forall k :: 0 <= k < |steps| ==> steps[k].AppStep?
    ensures Enabled(Run(d, steps), AppStep(e))
    ensures forall k :: 0 <= k < |steps| ==> steps[k] == AppStep(PowerFailureWarning)
    decreases |steps|
  {
    if steps != [] {
      assert steps[0] in steps && forall s :: s in steps[1..] ==> s in steps;
      assert steps[0] == AppStep(PowerFailureWarning);
      StartUpKeepsWaiting(Next(d, steps[0]), e, steps[1..]);
      assert forall k :: 0 < k < |steps| ==> steps[k] == steps[1..][k - 1];
    }
  }

  /** The command to update leads to the update loop at the next boot, whatever the
      register and the application, unless that boot finishes an activation. */
  lemma DfuCommandUpdates(d: Device, steps: seq<Step>)
    requires Enabled(d, AppStep(GoToDfu)) && Runs(Next(d, AppStep(GoToDfu)), steps) && steps != []
    ensures steps[0].BootStep?
    ensures var booted := Next(Next(d, AppStep(GoToDfu)), steps[0]);
      if steps[0].activation in {NoActivation, ExpectAnother} then booted.running == Updating && booted.reg == 0
      else booted.running == Off
  {
    hide Pass;
    var r := WithFlag(d.reg, FLAG_DFU_RESET);
    DfuFlagRequests(d.reg);
    RequestServedIff(r, steps[0].activation, steps[0].appValid);
    OutcomeIff(r, steps[0].activation, steps[0].appValid);
  }

  lemma DfuFlagRequests(r: bv8)
    ensures Requested(WithFlag(r, FLAG_DFU_RESET))
  {
  }

  // ---------- The brownout flag ----------

  /** The tick at the timeout, which clears the register. */
  predicate Clears(d: Device, s: Step) {
    && s == AppStep(Tick) && d.running.InApp?
    && !d.running.app.clearedGpRegRetCount && d.running.app.tickCount == CLEAR_TICK
  }

  /** Whether a power warning was given that neither the tick nor a DFU request has taken
      away since. A request that meets a finished activation looks like a warning. */
  function WarnedAfter(warned: bool, d: Device, s: Step): bool {
    if s == AppStep(PowerFailureWarning) then true
    else if TakesRequest(d, s) || Clears(d, s) then false
    else if s.BootStep? && s.activation in {Activated, ActivationError} && Requested(d.reg) then true
    else warned
  }

  function Warned(warned: bool, d: Device, steps: seq<Step>): bool
    requires Runs(d, steps)
    decreases |steps|
  {
    if steps == [] then warned else Warned(WarnedAfter(warned, d, steps[0]), Next(d, steps[0]), steps[1..])
  }

  lemma BrownoutBits(r: bv8)
    ensures forall f :: f in {FLAG_STORAGE_RECOVERED, FLAG_DFU_RESET} ==>
      (Has(WithFlag(r, f), FLAG_BROWNOUT) <==> Has(r, FLAG_BROWNOUT))
    ensures Has(WithFlag(r, FLAG_BROWNOUT), FLAG_BROWNOUT)
    ensures Has(WithoutFlag(r, FLAG_STORAGE_RECOVERED), FLAG_BROWNOUT) <==> Has(r, FLAG_BROWNOUT)
    ensures Has(WithCounter(r, COUNTER_SOFT_RESET), FLAG_BROWNOUT) <==> Has(r, FLAG_BROWNOUT)
    ensures !Has(0, FLAG_BROWNOUT)
  {
  }

  lemma PassBrownout(r: bv8, activation: Activation, appValid: bool)
    ensures var (after, outcome) := Pass(r, activation, appValid);
      Has(after, FLAG_BROWNOUT) ==
        if outcome == UpdateLoop && DfuMarked(Checked(r)) then false
        else if activation in {Activated, ActivationError} && Requested(r) then true
        else Has(r, FLAG_BROWNOUT)
  {
  }

  lemma EventBrownout(app: App, r: bv8, e: Event)
    ensures Has(Handled(app, r, e).1, FLAG_BROWNOUT) ==
      if e == PowerFailureWarning then true
      else if e == Tick && !app.clearedGpRegRetCount && app.tickCount == CLEAR_TICK then false
      else Has(r, FLAG_BROWNOUT)
  {
    hide Has, WithFlag, WithoutFlag, WithCounter, Counter;
    BrownoutBits(r);
  }

  lemma BrownoutStep(d: Device, s: Step)
    requires Enabled(d, s)
    ensures Has(Next(d, s).reg, FLAG_BROWNOUT) == WarnedAfter(Has(d.reg, FLAG_BROWNOUT), d, s)
  {
    hide Pass, Handled, Has, Requested, DfuMarked, Checked;
    match s
    case BootStep(activation, appValid) => PassBrownout(d.reg, activation, appValid);
    case AppStep(e) => EventBrownout(d.running.app, d.reg, e);
    case ResetStep =>
  }

  /** Over every run the brownout flag says exactly whether such a warning is left. */
  lemma {:induction false} BrownoutMeansWarned(d: Device, steps: seq<Step>)
    requires Runs(d, steps)
    ensures Has(Run(d, steps).reg, FLAG_BROWNOUT) == Warned(Has(d.reg, FLAG_BROWNOUT), d, steps)
    decreases |steps|
  {
    hide Next, Enabled, Has, WarnedAfter;
    if steps != [] {
      BrownoutStep(d, steps[0]);
      BrownoutMeansWarned(Next(d, steps[0]), steps[1..]);
    }
  }

  // ---------- The stored state ----------

  /** Only an initialized storage changes the stored state: the mode is set to factory
      reset exactly from a count of 29 on, the switch exactly when the flag asks. */
  lemma StoredStateStep(d: Device, s: Step)
    requires Consistent(d) && Enabled(d, s)
    ensures Next(d, s).mode == if s == INITIALIZED && Count(d.reg) >= 29 then FactoryReset else d.mode
    ensures Next(d, s).switch
      == if s == INITIALIZED && Has(d.reg, FLAG_STORAGE_RECOVERED) then SWITCHED_ON else d.switch
  {
    hide Pass, WithFlag, WithoutFlag, WithCounter, Count, Counter;
    AlmostFull(d.reg);
  }

  /** Some storage of the run was initialized at a count of 29 or more. */
  predicate SawFull(d: Device, steps: seq<Step>)
    requires Runs(d, steps)
    decreases |steps|
  {
    steps != [] &&
    ((steps[0] == INITIALIZED && Count(d.reg) >= 29) || SawFull(Next(d, steps[0]), steps[1..]))
  }

  /** Over every run, a factory reset is forced exactly when that happened; else the mode
      is the one of the start. */
  lemma {:induction false} ModeOfRun(d: Device, steps: seq<Step>)
    requires Consistent(d) && Runs(d, steps)
    ensures Run(d, steps).mode == if SawFull(d, steps) then FactoryReset else d.mode
    decreases |steps|
  {
    hide Next, Enabled, Consistent, Count;
    if steps != [] {
      NextIsConsistent(d, steps[0]);
      StoredStateStep(d, steps[0]);
      ModeOfRun(Next(d, steps[0]), steps[1..]);
    }
  }

  // ---------- Crash loops ----------

  /** A step of a device that keeps crashing: ordinary boots of a valid application, which
      is reset before the tick that clears the register, and not by the reset command
      that sets the counter back. Whatever else happens may happen. */
  predicate CrashLoopStep(d: Device, s: Step) {
    match s
    case BootStep(activation, appValid) => activation == NoActivation && appValid
    case AppStep(e) => e != SoftReset && (e == Tick ==> d.running.InApp? && d.running.app.tickCount < CLEAR_TICK)
    case ResetStep => true
  }

  /** A run of such steps that never enters the update loop. */
  predicate CrashLoop(d: Device, steps: seq<Step>)
    requires Runs(d, steps)
    decreases |steps|
  {
    steps == [] ||
    (CrashLoopStep(d, steps[0]) && Next(d, steps[0]).running != Updating && CrashLoop(Next(d, steps[0]), steps[1..]))
  }

  function Boots(steps: seq<Step>): nat {
    if steps == [] then 0 else (if steps[0].BootStep? then 1 else 0) + Boots(steps[1..])
  }

  lemma CrashLoopStepCounts(d: Device, s: Step)
    requires Enabled(d, s) && CrashLoopStep(d, s) && Next(d, s).running != Updating
    ensures Count(Next(d, s).reg) == Count(d.reg) + (if s.BootStep? then 1 else 0)
  {
    hide Count, Checked, FlagsCleared, DfuMarked, Handled;
    match s
    case BootStep(activation, appValid) => AppBootCounts(d.reg, appValid);
    case AppStep(e) => EventKeepsCount(d.running.app, d.reg, e);
    case ResetStep =>
  }

  /** Of all events only the reset command and the clearing tick set the counter. */
  lemma EventKeepsCount(app: App, r: bv8, e: Event)
    requires e != SoftReset && (e == Tick ==> app.tickCount < CLEAR_TICK)
    ensures Count(Handled(app, r, e).1) == Count(r)
  {
    hide Count, WithFlag, WithoutFlag;
    FlagsKeepCount(r);
  }

  lemma FlagsKeepCount(r: bv8)
    ensures Count(WithoutFlag(r, FLAG_STORAGE_RECOVERED)) == Count(r)
    ensures forall f :: f in {FLAG_BROWNOUT, FLAG_DFU_RESET, FLAG_STORAGE_RECOVERED} ==>
      Count(WithFlag(r, f)) == Count(r)
  {
  }

  /** Over the whole run the counter counts the boots, and nothing else. */
  lemma {:induction false} CrashLoopCounts(d: Device, steps: seq<Step>)
    requires Runs(d, steps) && CrashLoop(d, steps)
    ensures Count(Run(d, steps).reg) == Count(d.reg) + Boots(steps)
    decreases |steps|
  {
    hide Next, Enabled, CrashLoopStep, Count;
    if steps != [] {
      CrashLoopStepCounts(d, steps[0]);
      CrashLoopCounts(Next(d, steps[0]), steps[1..]);
    }
  }

  /** Every step of the run is one of a device that keeps crashing. */
  predicate KeepsCrashing(d: Device, steps: seq<Step>)
    requires Runs(d, steps)
    decreases |steps|
  {
    steps == [] || (CrashLoopStep(d, steps[0]) && KeepsCrashing(Next(d, steps[0]), steps[1..]))
  }

  /** After some of the steps, of which at most n are boots, the update loop is entered. */
  predicate UpdatesWithin(d: Device, steps: seq<Step>, n: int)
    requires Runs(d, steps)
  {
    exists k :: 0 <= k <= |steps| && UpdatingAfter(d, steps[..k]) && Boots(steps[..k]) <= n
  }

  predicate UpdatingAfter(d: Device, steps: seq<Step>) {
    Runs(d, steps) && Run(d, steps).running == Updating
  }

  lemma RunSingle(d: Device, s: Step)
    requires Enabled(d, s)
    ensures Runs(d, [s]) && Run(d, [s]) == Next(d, s)
  {
    hide Next;
    assert [s][1..] == [];
    assert Run(Next(d, s), []) == Next(d, s);
  }

  /** A device that keeps crashing enters the update loop no later than at boot 32 - c,
      where c is what the counter showed at first. */
  lemma {:induction false} CrashLoopEnds(d: Device, steps: seq<Step>)
    requires d.running != Updating
    requires Runs(d, steps) && KeepsCrashing(d, steps) && Boots(steps) >= 32 - Count(d.reg)
    ensures UpdatesWithin(d, steps, 32 - Count(d.reg))
    decreases |steps|
  {
    hide Next, Enabled, CrashLoopStep, Count;
    var s, rest := steps[0], steps[1..];
    var d' := Next(d, s);
    var boot := if s.BootStep? then 1 else 0;
    if d'.running == Updating {
      assert steps[..1] == [s];
      RunSingle(d, s);
      assert Boots([s]) == boot <= 1;
      assert UpdatingAfter(d, steps[..1]);
    } else {
      CrashLoopStepCounts(d, s);
      CrashLoopEnds(d', rest);
      var k :| 0 <= k <= |rest| && UpdatingAfter(d', rest[..k]) && Boots(rest[..k]) <= 32 - Count(d'.reg);
      assert steps[..k + 1][0] == s && steps[..k + 1][1..] == rest[..k];
      assert UpdatingAfter(d, steps[..k + 1]);
      assert Boots(steps[..k + 1]) == boot + Boots(rest[..k]);
    }
  }

  // ---------- The factory reset before it comes to that ----------

  /** Every application that is reset had got through `initDrivers1`. */
  predicate GetsInitialized(d: Device, steps: seq<Step>)
    requires Runs(d, steps)
    decreases |steps|
  {
    steps == [] ||
    ((d.running.InApp? && Next(d, steps[0]).running == Off ==> d.running.app.waiting == Nothing)
     && GetsInitialized(Next(d, steps[0]), steps[1..]))
  }

  /** The starts that try a factory reset: those that see a count of 29 or more. */
  function Forced(d: Device, steps: seq<Step>): nat
    requires Runs(d, steps)
    decreases |steps|
  {
    if steps == [] then 0
    else
      (if steps[0] == INITIALIZED && Next(d, steps[0]).mode == FactoryReset && Count(d.reg) >= 29 then 1 else 0)
      + Forced(Next(d, steps[0]), steps[1..])
  }

  /** How often a factory reset was tried when the counter shows n, and this start, if it
      is not initialized yet, does not count. */
  function Above(n: nat): nat {
    if n > 28 then n - 28 else 0
  }

  function Tried(d: Device): int {
    Above(Count(d.reg)) - (if d.running.InApp? && d.running.app.waiting != Nothing && Count(d.reg) >= 29 then 1 else 0)
  }

  lemma StepTries(d: Device, s: Step)
    requires Consistent(d) && Enabled(d, s) && CrashLoopStep(d, s)
    requires d.running != Updating && Next(d, s).running != Updating
    requires d.running.InApp? && Next(d, s).running == Off ==> d.running.app.waiting == Nothing
    ensures Tried(Next(d, s)) == Tried(d)
      + (if s == INITIALIZED && Next(d, s).mode == FactoryReset && Count(d.reg) >= 29 then 1 else 0)
  {
    hide Count;
    CrashLoopStepCounts(d, s);
    AlmostFull(d.reg);
  }

  lemma {:induction false} TriesAdd(d: Device, steps: seq<Step>)
    requires Consistent(d) && d.running != Updating
    requires Runs(d, steps) && CrashLoop(d, steps) && GetsInitialized(d, steps)
    ensures Tried(Run(d, steps)) == Tried(d) + Forced(d, steps)
    decreases |steps|
  {
    hide Next, Enabled, CrashLoopStep, Count, Consistent, Tried;
    if steps != [] {
      NextIsConsistent(d, steps[0]);
      StepTries(d, steps[0]);
      TriesAdd(Next(d, steps[0]), steps[1..]);
    }
  }

  /** When a crash loop that started at a count of at most 28 fills the counter, a factory
      reset has been tried three times, at 29, 30 and 31. */
  lemma FactoryResetTriedThrice(d: Device, steps: seq<Step>)
    requires Consistent(d) && d.running == Off && Count(d.reg) <= 28
    requires Runs(d, steps) && CrashLoop(d, steps) && GetsInitialized(d, steps)
    requires Run(d, steps).running == Off && Count(Run(d, steps).reg) == 31
    ensures Forced(d, steps) == 3
    ensures Enabled(Run(d, steps), BootStep(NoActivation, true))
    ensures Next(Run(d, steps), BootStep(NoActivation, true)).running == Updating
  {
    hide Next, Enabled, CrashLoop, GetsInitialized, Count, Consistent, Run, Forced;
    TriesAdd(d, steps);
    FullCounterUpdates(Run(d, steps));
  }

  lemma FullCounterUpdates(d: Device)
    requires d.running == Off && Count(d.reg) == 31
    ensures Enabled(d, BootStep(NoActivation, true))
    ensures Next(d, BootStep(NoActivation, true)).running == Updating
  {
    CountIsFull(d.reg);
  }

  // ---------- Devices that are well ----------

  /** Resets of a valid application come on request, or after it has cleared the register;
      nobody asks for an update. */
  predicate HealthyStep(d: Device, s: Step)
    requires Enabled(d, s)
  {
    match s
    case BootStep(activation, appValid) => activation == NoActivation && appValid
    case AppStep(e) =>
      e != GoToDfu && (Next(d, s).running == Off ==> e == SoftReset || Cleared(d))
    case ResetStep => Cleared(d)
  }

  predicate Cleared(d: Device) {
    d.running.InApp? && d.running.app.clearedGpRegRetCount
  }

  predicate Healthy(d: Device, steps: seq<Step>)
    requires Runs(d, steps)
    decreases |steps|
  {
    steps == [] || (HealthyStep(d, steps[0]) && Healthy(Next(d, steps[0]), steps[1..]))
  }

  /** The counter of such a device stays at the bottom. */
  predicate CountsLow(d: Device) {
    && d.running != Updating
    && !Has(d.reg, FLAG_DFU_RESET)
    && Count(d.reg) <= (if d.running == Off then 1 else 2)
    && (Cleared(d) ==> Count(d.reg) == 0)
  }

  lemma HealthyStepCountsLow(d: Device, s: Step)
    requires CountsLow(d) && Enabled(d, s) && HealthyStep(d, s)
    ensures CountsLow(Next(d, s))
  {
    hide Initialized, Pass;
    match s
    case BootStep(activation, appValid) =>
      LowCountStartsApp(d.reg);
      AppBootCounts(d.reg, true);
    case AppStep(e) =>
      RegisterKeepsLow(d.reg);
      InitializedRegister(d.running.app, d.reg);
    case ResetStep =>
  }

  lemma LowCountStartsApp(r: bv8)
    requires Count(r) <= 2 && !Has(r, FLAG_DFU_RESET)
    ensures Pass(r, NoActivation, true).1 == StartApp
    ensures !Has(Pass(r, NoActivation, true).0, FLAG_DFU_RESET)
  {
  }

  lemma RegisterKeepsLow(r: bv8)
    requires !Has(r, FLAG_DFU_RESET)
    ensures forall f :: f in {FLAG_BROWNOUT, FLAG_STORAGE_RECOVERED} ==>
      !Has(WithFlag(r, f), FLAG_DFU_RESET) && Count(WithFlag(r, f)) == Count(r)
    ensures !Has(WithoutFlag(r, FLAG_STORAGE_RECOVERED), FLAG_DFU_RESET)
    ensures Count(WithoutFlag(r, FLAG_STORAGE_RECOVERED)) == Count(r)
    ensures !Has(WithCounter(r, COUNTER_SOFT_RESET), FLAG_DFU_RESET) && Count(WithCounter(r, COUNTER_SOFT_RESET)) == 1
    ensures Count(0) == 0 && !Has(0, FLAG_DFU_RESET)
  {
  }

  lemma InitializedRegister(app: App, r: bv8)
    ensures Initialized(app, r).1 == WithoutFlag(r, FLAG_STORAGE_RECOVERED)
    ensures Initialized(app, r).0.waiting == Nothing
    ensures Initialized(app, r).0.clearedGpRegRetCount == app.clearedGpRegRetCount
  {
  }

  /** A device that is only reset on request, or after a minute of running, never ends
      in the update loop and is never reset to its factory state, however often it boots. */
  lemma {:induction false} HealthyNeverUpdates(d: Device, steps: seq<Step>)
    requires CountsLow(d) && Runs(d, steps) && Healthy(d, steps)
    ensures CountsLow(Run(d, steps))
    ensures Consistent(d) ==> Run(d, steps).mode == d.mode
    decreases |steps|
  {
    if Consistent(d) && steps != [] {
      NextIsConsistent(d, steps[0]);
      StoredStateStep(d, steps[0]);
      assert Count(d.reg) <= 2;
    }
    hide CountsLow, Next, Enabled, HealthyStep, Consistent, Count;
    if steps != [] {
      HealthyStepCountsLow(d, steps[0]);
      HealthyNeverUpdates(Next(d, steps[0]), steps[1..]);
    }
  }

  function Ticks(n: nat): seq<Step> {
    seq(n, _ => AppStep(Tick))
  }

  /** An application that keeps ticking clears the register at the timeout, once: what
      is written to it afterwards stays. */
  lemma {:induction false} TicksClear(d: Device, n: nat)
    requires d.running.InApp? && d.running.app.waiting == Nothing
    requires d.running.app.clearedGpRegRetCount || d.running.app.tickCount <= CLEAR_TICK
    ensures Runs(d, Ticks(n))
    ensures Run(d, Ticks(n)).reg
      == if !d.running.app.clearedGpRegRetCount && d.running.app.tickCount + n > CLEAR_TICK then 0 else d.reg
    decreases n
  {
    if n > 0 {
      assert Ticks(n)[1..] == Ticks(n - 1);
      TicksClear(Next(d, AppStep(Tick)), n - 1);
    }
  }
}
