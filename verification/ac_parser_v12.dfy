/**
  The hand-written decoder of hardware revision V1.2 (ac_manager/ac_parser_v12.cpp).

  A V1.2 frame is five bytes: the header 0xFF, the tens and ones digits, a byte whose
  high nibble says timer or temperature and whose low nibble carries the sleep flag, and
  a byte holding both the mode and the fan speed. The digit and mode tables are those of
  the shared decoder and are not given for this revision, so they are parameters.
 */
module AcParserV12 {
  import opened Results
  import opened AcTypes
  import opened AcParser

  /** AcParserV12::getDataLength. */
  const DataLength: nat := 5

  /** The low nibble of the mode/fan byte for each fan speed. */
  function FanNibble(f: FanSpeed): bv8
  {
    match f
    case FanLow => 0x07
    case FanMedium => 0x0B
    case FanHigh => 0x0D
    case FanAuto => 0x0E
    case _ => 0x00
  }

  /** AcParserV12::decodeFanSpeed: only the low nibble counts. */
  function DecodeFanSpeed(modeFanBits: bv8): (f: FanSpeed)
    ensures f == FanInvalid || (UsableSpeed(f) && FanNibble(f) == modeFanBits & 0x0F)
    ensures f == FanInvalid <==> modeFanBits & 0x0F !in {0x07, 0x0B, 0x0D, 0x0E}
  {
    var fanBitsMasked := modeFanBits & 0x0F;
    if fanBitsMasked == 0x07 then FanLow
    else if fanBitsMasked == 0x0B then FanMedium
    else if fanBitsMasked == 0x0D then FanHigh
    else if fanBitsMasked == 0x0E then FanAuto
    else FanInvalid
  }

  /** Every fan speed survives being written into the low nibble, whatever the high nibble holds. */
  lemma FanRoundTrip(f: FanSpeed, high: bv8)
    requires UsableSpeed(f)
    ensures DecodeFanSpeed((high & 0xF0) | FanNibble(f)) == f
  {
  }

  /** The timer/temperature flag of byte 3: high nibble 0xD0 shows a timer, 0x70 a temperature. */
  function TimerFlag(b: bv8): (r: Option<bool>)
    ensures r.Some? <==> b & 0xF0 == 0xD0 || b & 0xF0 == 0x70
    ensures r.Some? ==> (r.value <==> b & 0xF0 == 0xD0)
  {
    var timerMasked := b & 0xF0;
    if timerMasked == 0xD0 then Some(true)
    else if timerMasked == 0x70 then Some(false)
    else None
  }

  /** The sleep flag of byte 3: low nibble 0x0E is sleep, 0x0F is not. */
  function SleepFlag(b: bv8): (r: Option<bool>)
    ensures r.Some? <==> b & 0x0F == 0x0E || b & 0x0F == 0x0F
    ensures r.Some? ==> (r.value <==> b & 0x0F == 0x0E)
  {
    var sleepMasked := b & 0x0F;
    if sleepMasked == 0x0E then Some(true)
    else if sleepMasked == 0x0F then Some(false)
    else None
  }

  /** Byte 3 as the display writes it: the timer nibble over the sleep nibble. */
  function FlagsByte(timer: bool, sleep: bool): bv8
  {
    (if timer then 0xD0 else 0x70) | (if sleep then 0x0E else 0x0F)
  }

  /** Both flags are read back from the byte that encodes them. */
  lemma FlagsRoundTrip(timer: bool, sleep: bool)
    ensures TimerFlag(FlagsByte(timer, sleep)) == Some(timer)
    ensures SleepFlag(FlagsByte(timer, sleep)) == Some(sleep)
  {
  }

  /** Every byte the flags accept is the encoding of the flags read from it. */
  lemma FlagsComplete(b: bv8)
    requires TimerFlag(b).Some? && SleepFlag(b).Some?
    ensures b == FlagsByte(TimerFlag(b).value, SleepFlag(b).value)
  {
  }

  predicate Tables(digits: DigitTable, modes: LookupTable)
  {
    ValidDigitTable(digits) && |modes.bytes| == |ModeOrder|
  }

  /** The reference description of a successful V1.2 decode of a lit display. The sleep
      nibble must be well formed, but the reading never reports sleep. */
  predicate ValidReading(digits: DigitTable, modes: LookupTable, frame: seq<bv8>, s: AcState)
  {
    && |frame| == DataLength
    && frame[0] == 0xFF
    && !AllOnesFrom(frame, 1)
    && (frame[3] & 0xF0 == 0xD0 || frame[3] & 0xF0 == 0x70)
    && (frame[3] & 0x0F == 0x0E || frame[3] & 0x0F == 0x0F)
    && !s.sleep
    && ModeMatches(modes, frame[4], s.mode)
    && UsableSpeed(s.speed) && FanNibble(s.speed) == frame[4] & 0x0F
    && var timer := frame[3] & 0xF0 == 0xD0;
       var value := if timer then s.timerTenths else s.temp;
       && Shows(s, timer, value)
       && DigitsShow(digits, frame[1], frame[2], timer, value)
  }

  /** AcParserV12::parseState. Checks, in order: length, header, all-dark display, timer
      nibble, sleep nibble, digits, mode, fan. */
  function ParseState(digits: DigitTable, modes: LookupTable, frame: seq<bv8>, now: int): (r: Result<AcState, ParseError>)
    requires Tables(digits, modes)
    ensures r == Err(BadLength) <==> |frame| != DataLength
    ensures r == Err(HeaderMismatch) <==> |frame| == DataLength && frame[0] != 0xFF
    ensures |frame| == DataLength && frame[0] == 0xFF && AllOnesFrom(frame, 1) ==> r == Ok(OffState(now))
    ensures r.Err? && r.error.InvalidTimerBits? <==>
      && |frame| == DataLength && frame[0] == 0xFF && !AllOnesFrom(frame, 1)
      && frame[3] & 0xF0 != 0xD0 && frame[3] & 0xF0 != 0x70
    ensures r.Err? && r.error.InvalidSleepBits? <==>
      && |frame| == DataLength && frame[0] == 0xFF && !AllOnesFrom(frame, 1)
      && (frame[3] & 0xF0 == 0xD0 || frame[3] & 0xF0 == 0x70)
      && frame[3] & 0x0F != 0x0E && frame[3] & 0x0F != 0x0F
    ensures r.Err? && r.error.InvalidTimerBits? ==> r.error == InvalidTimerBits(frame[3])
    ensures r.Err? && r.error.InvalidSleepBits? ==> r.error == InvalidSleepBits(frame[3])
    ensures r.Err? && r.error.InvalidDisplay? ==> r.error == InvalidDisplay(frame[1], frame[2])
    ensures r.Err? && r.error.InvalidMode? ==> r.error == InvalidMode(frame[4])
    ensures r.Err? && r.error.InvalidFan? ==> r.error == InvalidFan(frame[4])
    ensures r.Err? ==> !r.error.InvalidMaskedBits? && !r.error.TrailerMismatch?
    ensures r.Ok? ==> r.value.timestamp == now && !r.value.sleep
    ensures r.Ok? && r.value.mode == ModeOff ==>
      |frame| == DataLength && frame[0] == 0xFF && AllOnesFrom(frame, 1) && r.value == OffState(now)
    ensures r.Ok? && r.value.mode != ModeOff ==> ValidReading(digits, modes, frame, r.value)
  {
    if |frame| != DataLength then Err(BadLength)
    else if frame[0] != 0xFF then Err(HeaderMismatch)
    else if AllOnesFrom(frame, 1) then Ok(OffState(now))
    else
      match TimerFlag(frame[3])
      case None => Err(InvalidTimerBits(frame[3]))
      case Some(isTimer) =>
        match SleepFlag(frame[3])
        case None => Err(InvalidSleepBits(frame[3]))
        case Some(_) =>
          var display := DecodeDisplayNumber(digits, frame[1], frame[2], isTimer);
          if display == -1 then Err(InvalidDisplay(frame[1], frame[2]))
          else
            var acMode := DecodeAcMode(modes, frame[4]);
            if acMode == ModeInvalid then Err(InvalidMode(frame[4]))
            else
              var fanSpeed := DecodeFanSpeed(frame[4]);
              if fanSpeed == FanInvalid then Err(InvalidFan(frame[4]))
              else if isTimer then Ok(UpdateStates(now, 0, display, fanSpeed, acMode, false))
              else Ok(UpdateStates(now, display, 0, fanSpeed, acMode, false))
  }

  /** The checks before the digits pass: length, header, a lit display, and both nibbles
      of byte 3 well formed. */
  predicate FlagsPass(frame: seq<bv8>)
  {
    && |frame| == DataLength
    && frame[0] == 0xFF
    && !AllOnesFrom(frame, 1)
    && (frame[3] & 0xF0 == 0xD0 || frame[3] & 0xF0 == 0x70)
    && (frame[3] & 0x0F == 0x0E || frame[3] & 0x0F == 0x0F)
  }

  /** The digit bytes are readable, as a timer exactly when byte 3's high nibble is 0xD. */
  predicate DisplayPasses(digits: DigitTable, frame: seq<bv8>)
    requires |frame| == DataLength
  {
    DisplayReadable(digits, frame[1], frame[2], frame[3] & 0xF0 == 0xD0)
  }

  predicate ModePasses(modes: LookupTable, frame: seq<bv8>)
    requires |frame| == DataLength
  {
    InTable(modes, frame[4])
  }

  predicate FanPasses(frame: seq<bv8>)
    requires |frame| == DataLength
  {
    frame[4] & 0x0F in {0x07, 0x0B, 0x0D, 0x0E}
  }

  /** The order of the remaining V1.2 rejections: once the flags pass, the digits are checked
      first, then the mode, then the fan. A header mismatch is the only rejection that is not
      published. */
  lemma ParseStateRejects(digits: DigitTable, modes: LookupTable, frame: seq<bv8>, now: int)
    requires Tables(digits, modes)
    ensures var r := ParseState(digits, modes, frame, now);
      && (r.Err? && r.error.InvalidDisplay? <==> FlagsPass(frame) && !DisplayPasses(digits, frame))
      && (r.Err? && r.error.InvalidMode? <==>
            FlagsPass(frame) && DisplayPasses(digits, frame) && !ModePasses(modes, frame))
      && (r.Err? && r.error.InvalidFan? <==>
            FlagsPass(frame) && DisplayPasses(digits, frame) && ModePasses(modes, frame) && !FanPasses(frame))
      && (r.Err? && !Published(r.error) <==> |frame| == DataLength && frame[0] != 0xFF)
  {
    if FlagsPass(frame) {
      DisplayNumberFails(digits, frame[1], frame[2], frame[3] & 0xF0 == 0xD0);
      assert DecodeDisplayNumber(digits, frame[1], frame[2], frame[3] & 0xF0 == 0xD0) == -1 <==> !DisplayPasses(digits, frame);
      assert DecodeAcMode(modes, frame[4]) == ModeInvalid <==> !ModePasses(modes, frame);
      assert DecodeFanSpeed(frame[4]) == FanInvalid <==> !FanPasses(frame);
    }
  }

  /** Every frame the reference description admits is decoded to the reading it describes. */
  lemma ParseStateComplete(digits: DigitTable, modes: LookupTable, frame: seq<bv8>, now: int, s: AcState)
    requires Tables(digits, modes) && ValidReading(digits, modes, frame, s) && s.timestamp == now
    ensures ParseState(digits, modes, frame, now) == Ok(s)
  {
    var timer := frame[3] & 0xF0 == 0xD0;
    DisplayComplete(digits, frame[1], frame[2], timer, if timer then s.timerTenths else s.temp);
    ModeComplete(modes, frame[4], s.mode);
    assert DecodeFanSpeed(frame[4]) == s.speed;
  }

  /** The V1.2 decoder accepts exactly the dark frames (as the off reading) and the frames
      the reference description admits. */
  lemma ParseStateCharacterization(digits: DigitTable, modes: LookupTable, frame: seq<bv8>, now: int, s: AcState)
    requires Tables(digits, modes)
    ensures ParseState(digits, modes, frame, now) == Ok(s) <==>
      s.timestamp == now &&
      ((|frame| == DataLength && frame[0] == 0xFF && AllOnesFrom(frame, 1) && s == OffState(now))
       || ValidReading(digits, modes, frame, s))
  {
    if s.timestamp == now && ValidReading(digits, modes, frame, s) {
      ParseStateComplete(digits, modes, frame, now, s);
    }
  }

  /** The frame FF C0 F9 70 67 is rejected whatever the tables hold: the low nibble of
      byte 3 is 0x0, which is neither sleep (0xE) nor awake (0xF). */
  lemma ZeroSleepNibbleRejected(digits: DigitTable, modes: LookupTable, now: int)
    requires Tables(digits, modes)
    ensures ParseState(digits, modes, [0xFF, 0xC0, 0xF9, 0x70, 0x67], now) == Err(InvalidSleepBits(0x70))
  {
    var frame: seq<bv8> := [0xFF, 0xC0, 0xF9, 0x70, 0x67];
    assert frame[1] != 0xFF;
  }

  /** With a common-anode digit table (0 = 0xC0, 1 = 0xF9, decimal point 0x80) and a mode
      table whose COOL pattern matches 0x67, the frame FF C0 F9 7F 67 reads 1 degree, COOL, LOW. */
  lemma CoolLowReading(digits: DigitTable, modes: LookupTable, now: int)
    requires Tables(digits, modes)
    requires digits.numberBytes[0] == 0xC0 && digits.numberBytes[1] == 0xF9 && digits.decimalBitMask == 0x80
    requires modes.bytes[0] == 0x67 | modes.orMask
    ensures ParseState(digits, modes, [0xFF, 0xC0, 0xF9, 0x7F, 0x67], now)
            == Ok(AcState(now, 1, 0, FanLow, ModeCool, false))
  {
    var frame: seq<bv8> := [0xFF, 0xC0, 0xF9, 0x7F, 0x67];
    var s := AcState(now, 1, 0, FanLow, ModeCool, false);
    assert frame[1] != 0xFF;
    assert IsFirstIndex(digits.numberBytes, 0xC0, 0);
    assert IsFirstIndex(digits.numberBytes, 0xF9, 1);
    assert DigitsShow(digits, 0xC0, 0xF9, false, 1);
    assert ModeMatches(modes, 0x67, ModeCool);
    ParseStateComplete(digits, modes, frame, now, s);
  }

  /** The same frame with fan nibble 0xF (byte 4 = 0x6F) is rejected for its fan speed. */
  lemma BadFanNibbleRejected(digits: DigitTable, modes: LookupTable, now: int)
    requires Tables(digits, modes)
    requires digits.numberBytes[0] == 0xC0 && digits.numberBytes[1] == 0xF9 && digits.decimalBitMask == 0x80
    requires modes.bytes[0] == 0x6F | modes.orMask
    ensures ParseState(digits, modes, [0xFF, 0xC0, 0xF9, 0x7F, 0x6F], now) == Err(InvalidFan(0x6F))
  {
    var frame: seq<bv8> := [0xFF, 0xC0, 0xF9, 0x7F, 0x6F];
    assert frame[1] != 0xFF;
    assert IsFirstIndex(digits.numberBytes, 0xC0, 0);
    assert IsFirstIndex(digits.numberBytes, 0xF9, 1);
    DisplayComplete(digits, 0xC0, 0xF9, false, 1);
    assert IsFirstIndex(modes.bytes, 0x6F | modes.orMask, 0);
    ModeComplete(modes, 0x6F, ModeCool);
  }
}
