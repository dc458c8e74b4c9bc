/** One pass of the bootloader: the boot counter in main.c, and the decision of
    nrf_bootloader.c whether to stay for a firmware update. */
module Bootloader {
  import opened RetainedRegister

  /** What activating a received firmware image came to. */
  datatype Activation = NoActivation | ExpectAnother | Activated | ActivationError

  /** How a pass ends: the update loop, the application, a reset, or an error. */
  datatype Outcome = UpdateLoop | StartApp | Reset | InternalError

  /** The register after `cs_check_gpregret`. */
  function Checked(r: bv8): bv8 {
    var g := if r == LEGACY_DFU_RESET then r | FLAG_DFU_RESET else r;
    if Has(g, FLAG_DFU_RESET) || Counter(r) == COUNTER_MAX then DFU_START else g + 1
  }

  function FlagsCleared(r: bv8): bv8 {
    if DfuMarked(r) then r & !DFU_START else r
  }

  function OutcomeOf(r: bv8, activation: Activation, appValid: bool): Outcome {
    match activation
    case NoActivation => if !appValid || DfuMarked(r) then UpdateLoop else StartApp
    case ExpectAnother => UpdateLoop
    case Activated => Reset
    case ActivationError => InternalError
  }

  /** The register and the outcome of a pass. */
  function Pass(r: bv8, activation: Activation, appValid: bool): (bv8, Outcome) {
    var c := Checked(r);
    var outcome := OutcomeOf(c, activation, appValid);
    (if outcome == UpdateLoop then FlagsCleared(c) else c, outcome)
  }

  class Loader {
    const power: Power

    constructor (power: Power)
      ensures this.power == power
    {
      this.power := power;
    }

    /** `cs_check_gpregret`. */
    method CheckGpregret()
      modifies power
      ensures power.gpregret == Checked(old(power.gpregret))
    {
      var gpregret := power.gpregret;
      var startDfu := false;
      var counter := gpregret & COUNTER_MASK;
      if gpregret == LEGACY_DFU_RESET {
        gpregret := gpregret | FLAG_DFU_RESET;
      }
      if gpregret & FLAG_DFU_RESET != 0 {
        startDfu := true;
      }
      if counter == COUNTER_MAX {
        startDfu := true;
      } else {
        power.gpregret := gpregret + 1;
      }
      if startDfu {
        power.gpregret := DFU_START;
      }
    }

    /** `dfu_enter_check`; of the enter methods only the register is configured. */
    method DfuEnterCheck(appValid: bool) returns (enter: bool)
      ensures enter <==> !appValid || DfuMarked(power.gpregret)
    {
      if !appValid {
        return true;
      }
      if power.gpregret & DFU_MASK == DFU_PATTERN && power.gpregret & DFU_START_BIT != 0 {
        return true;
      }
      return false;
    }

    /** `dfu_enter_flags_clear`. */
    method DfuEnterFlagsClear()
      modifies power
      ensures power.gpregret == FlagsCleared(old(power.gpregret))
    {
      if power.gpregret & DFU_MASK == DFU_PATTERN && power.gpregret & DFU_START_BIT != 0 {
        power.gpregret := power.gpregret & !DFU_START;
      }
    }

    /** `main`, up to the point where it hands over. */
    method Run(activation: Activation, appValid: bool) returns (outcome: Outcome)
      modifies power
      ensures (power.gpregret, outcome) == Pass(old(power.gpregret), activation, appValid)
    {
      CheckGpregret();
      var dfuEnter := false;
      match activation {
        case NoActivation =>
          dfuEnter := DfuEnterCheck(appValid);
        case ExpectAnother =>
          dfuEnter := true;
        case Activated =>
          return Reset;
        case ActivationError =>
          return InternalError;
      }
      if dfuEnter {
        DfuEnterFlagsClear();
        return UpdateLoop;
      }
      return StartApp;
    }
  }

  // ---------- When the update loop is entered ----------

  /** Registers that come to look like a DFU request by counting: brownout and storage
      recovered are set, and the counter is about to become 17, 19, 21 or 23. */
  predicate Collides(r: bv8) {
    r & 0xE0 == FLAG_STORAGE_RECOVERED | FLAG_BROWNOUT && Count(r) in {16, 18, 20, 22}
  }

  /** The register asks for the update loop: by its flag, or by a full counter. */
  predicate Requested(r: bv8) {
    Has(r, FLAG_DFU_RESET) || Counter(r) == COUNTER_MAX
  }

  /** When the update loop is entered, for every register, activation result and
      application: without an activation it takes an invalid application, a request or a
      collision; an activation that awaits another image always leads there. */
  lemma UpdateLoopIffRequested(r: bv8, activation: Activation, appValid: bool)
    ensures Pass(r, activation, appValid).1 == UpdateLoop
      <==> (activation == ExpectAnother
        || (activation == NoActivation && (!appValid || Requested(r) || Collides(r))))
  {
  }

  /** A request is served exactly when no activation was finished in the same pass,
      whether that went well or not. */
  lemma RequestServedIff(r: bv8, activation: Activation, appValid: bool)
    requires Requested(r)
    ensures Pass(r, activation, appValid).1 == UpdateLoop <==> activation in {NoActivation, ExpectAnother}
    ensures Pass(r, activation, appValid).0 == if activation in {NoActivation, ExpectAnother} then 0 else DFU_START
  {
  }

  /** The other three ways a pass ends, for every register, activation result and
      application: a finished activation decides alone; the application is started
      only without one, and only if nothing leads to the update loop. */
  lemma OutcomeIff(r: bv8, activation: Activation, appValid: bool)
    ensures Pass(r, activation, appValid).1 == Reset <==> activation == Activated
    ensures Pass(r, activation, appValid).1 == InternalError <==> activation == ActivationError
    ensures Pass(r, activation, appValid).1 == StartApp
      <==> activation == NoActivation && appValid && !Requested(r) && !Collides(r)
  {
  }

  /** Unless the update loop is asked for, a pass that finishes an activation counts as
      any other: one more in the counter, the flags as they were. */
  lemma ActivationCounts(r: bv8, activation: Activation, appValid: bool)
    requires activation in {Activated, ActivationError} && !Requested(r)
    ensures var after := Pass(r, activation, appValid).0;
      Count(after) == Count(r) + 1 && after & 0xE0 == r & 0xE0
  {
    CountUp(r);
  }

  /** The configuration header names one colliding value, 0xB1; there are four. */
  lemma FourCollisions()
    ensures forall r: bv8 | Collides(r) :: Checked(r) in {0xB1, 0xB3, 0xB5, 0xB7}
    ensures Pass(0xB2, NoActivation, true).1 == UpdateLoop && Pass(0xB6, NoActivation, true).1 == UpdateLoop
  {
    forall r: bv8 | Collides(r)
      ensures Checked(r) in {0xB1, 0xB3, 0xB5, 0xB7}
    {
    }
  }

  /** An ordinary boot adds one to the counter and leaves the flags alone. */
  lemma AppBootCounts(r: bv8, appValid: bool)
    requires Pass(r, NoActivation, appValid).1 == StartApp
    ensures var after := Pass(r, NoActivation, appValid).0;
      Count(after) == Count(r) + 1 && after & 0xE0 == r & 0xE0 && !Has(r, FLAG_DFU_RESET)
  {
    CountUp(r);
  }

  /** The update loop is entered with the request and the counter taken back, unless the
      application is invalid and nothing was requested. */
  lemma UpdateLoopClears(r: bv8, activation: Activation, appValid: bool)
    requires Pass(r, activation, appValid).1 == UpdateLoop
    ensures var after := Pass(r, activation, appValid).0;
      && !DfuMarked(after)
      && (Requested(r) ==> after == 0)
      && (Has(after, FLAG_STORAGE_RECOVERED) <==> Has(r, FLAG_STORAGE_RECOVERED) && !DfuMarked(Checked(r)))
  {
  }

  /** A request that meets a finished activation is lost: the pass ends with the mark
      still in the register, and the next pass counts the mark away. What is left are
      flags nobody set. */
  lemma ActivationLosesRequest(r: bv8, activation: Activation, appValid: bool)
    requires Requested(r) && activation in {Activated, ActivationError}
    ensures var (marked, outcome) := Pass(r, activation, appValid);
      && outcome == (if activation == Activated then Reset else InternalError)
      && Pass(marked, NoActivation, true) == (0xB2, StartApp)
      && Has(0xB2, FLAG_STORAGE_RECOVERED) && Has(0xB2, FLAG_BROWNOUT)
  {
  }
}
