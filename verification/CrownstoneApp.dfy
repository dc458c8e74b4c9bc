/** The part of the application that reads and writes the retained register: start-up,
    the delayed clear in the tick, and the events that end in a reset. */
module CrownstoneApp {
  import opened RetainedRegister
  import opened MachineIntegers

  const CLEAR_TIMEOUT_S := 60
  const TICK_INTERVAL_MS := 100

  /** The tick at which the register is cleared. */
  const CLEAR_TICK := CLEAR_TIMEOUT_S * 1000 / TICK_INTERVAL_MS

  datatype OperationMode = Normal | FactoryReset

  datatype SwitchState = SwitchState(relay: bool, dimmer: nat)

  /** The most likely and preferred state after the stored one was lost. */
  const SWITCHED_ON := SwitchState(true, 0)

  /** What start-up waits for. */
  datatype Waiting = Boot | MeshPagesErased | PagesErased | StorageInitialized | Nothing | ResetDone

  /** The variables of the application, and the stored state it sets. */
  datatype App = App(
    waiting: Waiting,
    tickCount: Uint32,
    clearedGpRegRetCount: bool,
    setStateValuesAfterRecover: bool,
    mode: OperationMode,
    switch: SwitchState)

  datatype Event =
    | InitDrivers0(meshValid: bool, storageOk: bool, eraseOk: bool)
    | EvtMeshPagesErased
    | EvtPagesErased
    | EvtStorageInitialized
    | Tick
    | SoftReset
    | GoToDfu
    | PowerFailureWarning

  /** The application as it starts, with the state stored by earlier runs. */
  function Fresh(mode: OperationMode, switch: SwitchState): App {
    App(Boot, 0, false, false, mode, switch)
  }

  function WaitingAfter(meshValid: bool, storageOk: bool, eraseOk: bool): Waiting {
    if !meshValid then MeshPagesErased
    else if storageOk then StorageInitialized
    else if eraseOk then PagesErased
    else ResetDone
  }

  /** `initDrivers1`, run when the storage is initialized. */
  function Initialized(app: App, r: bv8): (App, bv8) {
    var mode := if Counter(r) >= COUNTER_MAX - 2 then FactoryReset else app.mode;
    var recover := app.setStateValuesAfterRecover || Has(r, FLAG_STORAGE_RECOVERED);
    (app.(waiting := Nothing, mode := mode, setStateValuesAfterRecover := recover,
          switch := if recover then SWITCHED_ON else app.switch),
     WithoutFlag(r, FLAG_STORAGE_RECOVERED))
  }

  function Ticked(app: App, r: bv8): (App, bv8) {
    var clear := !app.clearedGpRegRetCount && app.tickCount == CLEAR_TICK;
    (app.(tickCount := ToUint32(app.tickCount + 1), clearedGpRegRetCount := app.clearedGpRegRetCount || clear),
     if clear then 0 else r)
  }

  /** An event can only come when the application got that far. */
  predicate Possible(app: App, e: Event) {
    match e
    case InitDrivers0(_, _, _) => app.waiting == Boot
    case EvtMeshPagesErased => app.waiting == MeshPagesErased
    case EvtPagesErased => app.waiting == PagesErased
    case EvtStorageInitialized => app.waiting == StorageInitialized
    case Tick => app.waiting == Nothing
    case SoftReset => app.waiting == Nothing
    case GoToDfu => app.waiting == Nothing
    case PowerFailureWarning => app.waiting != ResetDone
  }

  /** The variables and the register after an event. */
  function Handled(app: App, r: bv8, e: Event): (App, bv8) {
    match e
    case InitDrivers0(meshValid, storageOk, eraseOk) =>
      (app.(waiting := WaitingAfter(meshValid, storageOk, eraseOk)), r)
    case EvtMeshPagesErased => (app.(waiting := ResetDone), r)
    case EvtPagesErased => (app.(waiting := ResetDone), WithFlag(r, FLAG_STORAGE_RECOVERED))
    case EvtStorageInitialized => Initialized(app, r)
    case Tick => Ticked(app, r)
    case SoftReset => (app.(waiting := ResetDone), WithCounter(r, COUNTER_SOFT_RESET))
    case GoToDfu => (app.(waiting := ResetDone), WithFlag(r, FLAG_DFU_RESET))
    case PowerFailureWarning => (app, WithFlag(r, FLAG_BROWNOUT))
  }

  class Crownstone {
    const power: Power
    var waiting: Waiting
    var tickCount: Uint32
    var clearedGpRegRetCount: bool
    var setStateValuesAfterStorageRecover: bool
    var operationMode: OperationMode
    var switchState: SwitchState

    /** A start of the application; mode and switch come from the stored state. */
    constructor (power: Power, mode: OperationMode, switch: SwitchState)
      ensures this.power == power && Now() == Fresh(mode, switch)
    {
      this.power := power;
      waiting, tickCount, clearedGpRegRetCount, setStateValuesAfterStorageRecover := Boot, 0, false, false;
      operationMode, switchState := mode, switch;
    }

    ghost function Now(): App
      reads this
    {
      App(waiting, tickCount, clearedGpRegRetCount, setStateValuesAfterStorageRecover, operationMode, switchState)
    }

    /** `initDrivers0`: the storage is initialized, or pages are erased first. */
    method InitDrivers0(meshValid: bool, storageOk: bool, eraseOk: bool)
      modifies this
      ensures (Now(), power.gpregret)
        == Handled(old(Now()), old(power.gpregret), Event.InitDrivers0(meshValid, storageOk, eraseOk))
    {
      if !meshValid {
        waiting := MeshPagesErased;
        return;
      }
      if !storageOk {
        waiting := if eraseOk then PagesErased else ResetDone;
        return;
      }
      waiting := StorageInitialized;
    }

    /** The start of `initDrivers1`. */
    method InitDrivers1()
      modifies this, power
      ensures (Now(), power.gpregret) == Initialized(old(Now()), old(power.gpregret))
    {
      NothingToClear(power.gpregret);
      hide WithoutFlag;
      if power.gpregret & COUNTER_MASK >= COUNTER_MAX - 2 {
        operationMode := FactoryReset;
      }
      if power.gpregret & FLAG_STORAGE_RECOVERED != 0 {
        setStateValuesAfterStorageRecover := true;
        power.ClearFlag(FLAG_STORAGE_RECOVERED);
      }
      if setStateValuesAfterStorageRecover {
        switchState := SWITCHED_ON;
      }
      waiting := Nothing;
    }

    /** `tick`. */
    method OnTick()
      modifies this, power
      ensures (Now(), power.gpregret) == Ticked(old(Now()), old(power.gpregret))
    {
      if !clearedGpRegRetCount && tickCount == CLEAR_TICK {
        power.ClearAll();
        clearedGpRegRetCount := true;
      }
      tickCount := ToUint32(tickCount + 1);
    }

    /** A flag is set for the next boot, and the device resets. */
    method SetAndReset(flag: bv8)
      modifies this, power
      ensures (Now(), power.gpregret) == (old(Now()).(waiting := ResetDone), WithFlag(old(power.gpregret), flag))
    {
      power.SetFlag(flag);
      waiting := ResetDone;
    }

    /** The counter is set back before a reset that was asked for. */
    method CountAndReset()
      modifies this, power
      ensures (Now(), power.gpregret)
        == (old(Now()).(waiting := ResetDone), WithCounter(old(power.gpregret), COUNTER_SOFT_RESET))
    {
      hide WithCounter;
      power.SetCounter(COUNTER_SOFT_RESET);
      waiting := ResetDone;
    }

    /** `handleEvent`, and the reset command and power warning handled elsewhere. */
    method HandleEvent(e: Event)
      requires Possible(Now(), e)
      modifies this, power
      ensures (Now(), power.gpregret) == Handled(old(Now()), old(power.gpregret), e)
    {
      hide Initialized, Ticked, WaitingAfter, WithFlag, WithCounter;
      match e {
        case InitDrivers0(meshValid, storageOk, eraseOk) =>
          InitDrivers0(meshValid, storageOk, eraseOk);
        case EvtStorageInitialized =>
          InitDrivers1();
        case EvtPagesErased =>
          SetAndReset(FLAG_STORAGE_RECOVERED);
        case EvtMeshPagesErased =>
          waiting := ResetDone;
        case Tick =>
          OnTick();
        case SoftReset =>
          CountAndReset();
        case GoToDfu =>
          SetAndReset(FLAG_DFU_RESET);
        case PowerFailureWarning =>
          power.SetFlag(FLAG_BROWNOUT);
      }
    }
  }

  lemma NothingToClear(r: bv8)
    ensures !Has(r, FLAG_STORAGE_RECOVERED) ==> WithoutFlag(r, FLAG_STORAGE_RECOVERED) == r
  {
  }
}
