/** The objects of bootloader and application on one device: they share the register,
    and whatever happens to them follows the runs of `DeviceRuns`. */
module Board {
  import opened RetainedRegister
  import opened Bootloader
  import opened CrownstoneApp
  import opened DeviceRuns

  class Board {
    const power: Power
    const loader: Loader
    var app: Crownstone?
    var updating: bool

    // What the application has stored.
    var operationMode: OperationMode
    var switchState: SwitchState

    ghost predicate Valid()
      reads this, app
    {
      loader.power == power && (app != null ==> app.power == power && !updating)
    }

    ghost function Now(): Device
      reads this, app, power
    {
      var running := if app != null then InApp(app.Now()) else if updating then Updating else Off;
      Device(power.gpregret, running, operationMode, switchState)
    }

    /** A device that is off. */
    constructor (gpregret: bv8, mode: OperationMode, switch: SwitchState)
      ensures Valid() && fresh(power) && Now() == Device(gpregret, Off, mode, switch)
    {
      var register := new Power(gpregret);
      var bootloader := new Loader(register);
      power, loader := register, bootloader;
      app, updating := null, false;
      operationMode, switchState := mode, switch;
    }

    /** A pass of the bootloader; a valid application is started as a new object. */
    method Boot(activation: Activation, appValid: bool)
      requires Valid() && Now().running == Off
      modifies this, power
      ensures Valid() && Now() == Next(old(Now()), BootStep(activation, appValid))
      ensures app == null || fresh(app)
    {
      hide Pass;
      var outcome := loader.Run(activation, appValid);
      match outcome {
        case UpdateLoop =>
          updating := true;
        case StartApp =>
          app := new Crownstone(power, operationMode, switchState);
        case Reset =>
        case InternalError =>
      }
    }

    /** An event of the application, which may end in a reset. */
    method Handle(e: Event)
      requires Valid() && app != null && Possible(app.Now(), e)
      modifies this, power, app
      ensures Valid() && Now() == Next(old(Now()), AppStep(e))
      ensures app == null || app == old(app)
    {
      hide Handled;
      app.HandleEvent(e);
      operationMode, switchState := app.operationMode, app.switchState;
      if app.waiting == ResetDone {
        app := null;
      }
    }

    method Take(s: Step)
      requires Valid() && Enabled(Now(), s)
      modifies this, power, app
      ensures Valid() && Now() == Next(old(Now()), s)
      ensures app == null || app == old(app) || fresh(app)
    {
      hide Possible;
      match s {
        case BootStep(activation, appValid) =>
          Boot(activation, appValid);
        case AppStep(e) =>
          Handle(e);
        case ResetStep =>
          app, updating := null, false;
      }
    }

    /** Any run of the device, step by step. */
    method TakeAll(steps: seq<Step>)
      requires Valid() && Runs(Now(), steps)
      modifies this, power, app
      ensures Valid() && Now() == Run(old(Now()), steps)
    {
      hide Next, Enabled;
      for i := 0 to |steps|
        invariant Valid() && (app == null || app == old(app) || fresh(app))
        invariant Runs(Now(), steps[i..]) && Run(Now(), steps[i..]) == Run(old(Now()), steps)
      {
        assert steps[i..][1..] == steps[i + 1..];
        Take(steps[i]);
      }
    }
  }
}
