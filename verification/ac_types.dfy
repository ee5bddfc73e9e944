/**
  The displayed state of the air-conditioner and the ways a display frame can be rejected.
  Fan speeds and modes follow ac_manager/ac_display_reader.h; the state record follows
  ac_manager/ac_parser.h.
 */
module AcTypes {

  datatype FanSpeed = FanOff | FanLow | FanMedium | FanHigh | FanAuto | FanInvalid

  datatype AcMode = ModeOff | ModeFan | ModeEco | ModeCool | ModeInvalid

  /** One reading of the display. The timer is kept in whole tenths: the display
      shows it as one digit, a decimal point and one more digit (0.0 .. 9.9). */
  datatype AcState = AcState(
    timestamp: int,
    temp: int,
    timerTenths: int,
    speed: FanSpeed,
    mode: AcMode,
    sleep: bool)

  /** Why a frame was not turned into a reading. The byte payloads are the raw bytes
      the diagnostic message carries. */
  datatype ParseError =
    | BadLength
    | HeaderMismatch
    | TrailerMismatch
    | InvalidMaskedBits
    | InvalidTimerBits(timerBits: bv8)
    | InvalidSleepBits(sleepBits: bv8)
    | InvalidDisplay(tensBits: bv8, onesBits: bv8)
    | InvalidMode(modeBits: bv8)
    | InvalidFan(fanBits: bv8)

  /** A rejection raises a PARSE_ERROR diagnostic unless it is an ordinary scan miss
      (a header or trailer that does not match). */
  predicate Published(e: ParseError)
  {
    !(e.HeaderMismatch? || e.TrailerMismatch?)
  }

  /** The record a successful decode writes; `now` stands for the wall clock. */
  function UpdateStates(now: int, temp: int, timerTenths: int, speed: FanSpeed, mode: AcMode, isSleep: bool): AcState
  {
    AcState(now, temp, timerTenths, speed, mode, isSleep)
  }

  /** Every field of the record is written, each from its own argument: two updates give the
      same record exactly when they are given the same values, and every record is the
      update with its own fields. */
  lemma UpdateStatesWritesAll(now: int, temp: int, timerTenths: int, speed: FanSpeed, mode: AcMode, isSleep: bool, s: AcState)
    ensures UpdateStates(now, temp, timerTenths, speed, mode, isSleep) == s <==>
      && s.timestamp == now && s.temp == temp && s.timerTenths == timerTenths
      && s.speed == speed && s.mode == mode && s.sleep == isSleep
    ensures UpdateStates(s.timestamp, s.temp, s.timerTenths, s.speed, s.mode, s.sleep) == s
  {
  }

  /** The reading of a unit that is switched off. */
  function OffState(now: int): AcState
  {
    UpdateStates(now, 0, 0, FanOff, ModeOff, false)
  }

  /** Bytes `from ..` of the frame are all 0xFF: the display is dark. */
  predicate AllOnesFrom(frame: seq<bv8>, from: nat)
  {
    forall i :: from <= i < |frame| ==> frame[i] == 0xFF
  }

  /** The mode and fan of a reading are ones a real display can show. */
  predicate UsableMode(m: AcMode)
  {
    m == ModeCool || m == ModeEco || m == ModeFan
  }

  predicate UsableSpeed(f: FanSpeed)
  {
    f == FanLow || f == FanMedium || f == FanHigh || f == FanAuto
  }

  /** A reading shows either a timer or a temperature: the value sits in the matching
      field and the other field is zero. */
  predicate Shows(s: AcState, timer: bool, value: int)
  {
    if timer then s.temp == 0 && s.timerTenths == value
    else s.temp == value && s.timerTenths == 0
  }
}
