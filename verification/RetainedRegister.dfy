/** GPREGRET, the register whose eight bits survive a reset: a counter of five bits
    and three flags, read and written by bootloader and application. */
module RetainedRegister {

  const COUNTER_MASK: bv8 := 31
  const COUNTER_MAX: bv8 := 31
  const COUNTER_SOFT_RESET: bv8 := 1
  const LEGACY_DFU_RESET: bv8 := 66
  const FLAG_BROWNOUT: bv8 := 32
  const FLAG_DFU_RESET: bv8 := 64
  const FLAG_STORAGE_RECOVERED: bv8 := 128

  /** The mark by which the bootloader of the SDK recognises a DFU request: a pattern
      in the upper five bits and a start bit. */
  const DFU_MASK: bv8 := 0xF8
  const DFU_PATTERN: bv8 := 0xB0
  const DFU_START_BIT: bv8 := 0x01
  const DFU_START: bv8 := 0xB1

  function Counter(r: bv8): bv8 {
    r & COUNTER_MASK
  }

  predicate Has(r: bv8, flag: bv8) {
    r & flag != 0
  }

  function WithFlag(r: bv8, flag: bv8): bv8 {
    r | flag
  }

  function WithoutFlag(r: bv8, flag: bv8): bv8 {
    r & !flag
  }

  function WithCounter(r: bv8, value: bv8): bv8 {
    (r & !COUNTER_MASK) | value
  }

  predicate DfuMarked(r: bv8) {
    r & DFU_MASK == DFU_PATTERN && r & DFU_START_BIT != 0
  }

  /** The value of the counter as a number, bit by bit. */
  function Count(r: bv8): (n: nat)
    ensures n <= 31
  {
    (if r & 1 != 0 then 1 else 0) + (if r & 2 != 0 then 2 else 0) + (if r & 4 != 0 then 4 else 0)
    + (if r & 8 != 0 then 8 else 0) + (if r & 16 != 0 then 16 else 0)
  }

  lemma CountIsFull(r: bv8)
    ensures Count(r) == 31 <==> Counter(r) == COUNTER_MAX
  {
  }

  /** Counting up never carries into the flags. */
  lemma CountUp(r: bv8)
    requires Counter(r) != COUNTER_MAX
    ensures Count(r + 1) == Count(r) + 1
    ensures (r + 1) & 0xE0 == r & 0xE0
  {
  }

  /** Setting the counter or a flag leaves the rest of the register alone. */
  lemma FieldsAreSeparate(r: bv8, value: bv8, flag: bv8)
    requires value <= COUNTER_MAX && flag in {FLAG_BROWNOUT, FLAG_DFU_RESET, FLAG_STORAGE_RECOVERED}
    ensures Counter(WithCounter(r, value)) == value && WithCounter(r, value) & 0xE0 == r & 0xE0
    ensures Counter(WithFlag(r, flag)) == Counter(r) && Counter(WithoutFlag(r, flag)) == Counter(r)
    ensures Has(WithFlag(r, flag), flag) && !Has(WithoutFlag(r, flag), flag)
    ensures forall other :: other in {FLAG_BROWNOUT, FLAG_DFU_RESET, FLAG_STORAGE_RECOVERED} && other != flag ==>
      (Has(WithFlag(r, flag), other) <==> Has(r, other)) && (Has(WithoutFlag(r, flag), other) <==> Has(r, other))
  {
  }

  lemma AlmostFull(r: bv8)
    ensures Counter(r) >= COUNTER_MAX - 2 <==> Count(r) >= 29
  {
  }

  /** The register as a peripheral that both programs access. */
  class Power {
    var gpregret: bv8

    constructor (value: bv8)
      ensures gpregret == value
    {
      gpregret := value;
    }

    // The static methods of `GpRegRet`.

    method ClearAll()
      modifies this
      ensures gpregret == 0
    {
      gpregret := gpregret & !0xFF;
    }

    method SetCounter(value: bv8)
      modifies this
      ensures gpregret == WithCounter(old(gpregret), if value > COUNTER_MAX then COUNTER_MAX else value)
    {
      var v := if value > COUNTER_MAX then COUNTER_MAX else value;
      gpregret := gpregret & !COUNTER_MASK;
      gpregret := gpregret | v;
    }

    method SetFlag(flag: bv8)
      modifies this
      ensures gpregret == WithFlag(old(gpregret), flag)
    {
      gpregret := gpregret | flag;
    }

    method ClearFlag(flag: bv8)
      modifies this
      ensures gpregret == WithoutFlag(old(gpregret), flag)
    {
      gpregret := gpregret & !flag;
    }
  }
}
