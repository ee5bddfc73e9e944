/**
  The NEC timing constants and the carrier arithmetic of ac_manager/ac_ir_controller_p.h.
  All durations are microseconds; the arithmetic is C integer arithmetic on non-negative
  values, so it agrees with Dafny's division.
 */
module IrTiming {

  const NecBits: nat := 32
  const NecHdrMark: nat := 9000
  const NecHdrSpace: nat := 4500
  const NecBitMark: nat := 560
  const NecOneSpace: nat := 1690
  const NecZeroSpace: nat := 560

  /** Duty cycle of the carrier, in percent. */
  const DutyCycle: nat := 50

  /** Carrier frequency in hertz. */
  const CarrierFrequency: nat := 38000

  /** PERIOD: the carrier period in microseconds, 1 000 000 / f rounded to the nearest integer. */
  function Period(f: nat): (r: nat)
    requires f > 0
    ensures f * r <= 1000000 + f / 2 < f * (r + 1)
  {
    var x := 1000000 + f / 2;
    assert x == f * (x / f) + x % f;
    x / f
  }

  /** HIGHTIME: the part of a period the emitter is on. */
  function HighTime(f: nat, duty: nat): (r: int)
    requires f > 0
    ensures duty <= 100 ==> 0 <= r <= Period(f)
  {
    var p := Period(f);
    assert duty <= 100 ==> p * duty <= p * 100;
    p * duty / 100
  }

  /** LOWTIME: the rest of the period. */
  function LowTime(f: nat, duty: nat): (r: int)
    requires f > 0
    ensures duty <= 100 ==> 0 <= r <= Period(f)
  {
    Period(f) - HighTime(f, duty)
  }

  /** 1 000 000 / f is within half a period of the period: the rounding is to nearest. */
  lemma PeriodRoundsToNearest(f: nat)
    requires f > 0
    ensures -(f / 2) <= 1000000 - f * Period(f) < f - f / 2
  {
  }

  /** For a duty cycle of at most 100 %, the on and off parts are non-negative and fill the period. */
  lemma DutySplitsPeriod(f: nat, duty: nat)
    requires f > 0 && duty <= 100
    ensures 0 <= HighTime(f, duty) <= Period(f)
    ensures 0 <= LowTime(f, duty) <= Period(f)
    ensures HighTime(f, duty) + LowTime(f, duty) == Period(f)
  {
  }

  /** `HIGHTIME - 3` as the preprocessor writes it at its use site, without the parentheses
      the macros lack. */
  function HighDelayAsWritten(f: nat, duty: nat): int
    requires f > 0
  {
    (1000000 + f / 2) / f * duty / 100 - 3
  }

  /** `LOWTIME - 4` as the preprocessor writes it at its use site. */
  function LowDelayAsWritten(f: nat, duty: nat): int
    requires f > 0
  {
    (1000000 + f / 2) / f - (1000000 + f / 2) / f * duty / 100 - 4
  }

  /** The missing parentheses do not change the delays, and at 38 kHz with a 50 % duty cycle
      the period is 26, the on and off parts 13 each, and the two loop delays 10 and 9. */
  lemma CarrierAt38kHz()
    ensures forall f: nat, duty: nat :: f > 0 ==>
      HighDelayAsWritten(f, duty) == HighTime(f, duty) - 3 && LowDelayAsWritten(f, duty) == LowTime(f, duty) - 4
    ensures Period(CarrierFrequency) == 26
    ensures HighTime(CarrierFrequency, DutyCycle) == 13 && LowTime(CarrierFrequency, DutyCycle) == 13
    ensures HighDelayAsWritten(CarrierFrequency, DutyCycle) == 10
    ensures LowDelayAsWritten(CarrierFrequency, DutyCycle) == 9
  {
  }

}
