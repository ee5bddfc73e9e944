/**
  The hand-written decoder of hardware revision V1.4 (ac_manager/ac_parser_v14.cpp).

  A V1.4 frame is six bytes: the header 0x7F 0x7F, the tens and ones digits, a byte holding
  the timer flag, the mode and the fan speed, and the trailer 0xFD. The digit and mode
  tables are those of the shared decoder and are not given for this revision, so they
  are parameters.
 */
module AcParserV14 {
  import opened Results
  import opened AcTypes
  import opened AcParser

  /** AcParserV14::getDataLength. */
  const DataLength: nat := 6

  /** The low nibble of the mode/fan byte for each fan speed this revision shows. */
  function FanNibble(f: FanSpeed): bv8
  {
    match f
    case FanLow => 0x07
    case FanHigh => 0x0B
    case FanAuto => 0x0D
    case _ => 0x00
  }

  /** AcParserV14::decodeFanSpeed: only the low nibble counts, and there is no medium speed. */
  function DecodeFanSpeed(modeFanBits: bv8): (f: FanSpeed)
    ensures f != FanMedium
    ensures f == FanInvalid || (UsableSpeed(f) && FanNibble(f) == modeFanBits & 0x0F)
    ensures f == FanInvalid <==> modeFanBits & 0x0F !in {0x07, 0x0B, 0x0D}
  {
    var fanBitsMasked := modeFanBits & 0x0F;
    if fanBitsMasked == 0x07 then FanLow
    else if fanBitsMasked == 0x0B then FanHigh
    else if fanBitsMasked == 0x0D then FanAuto
    else FanInvalid
  }

  /** Every speed of this revision survives being written into the low nibble. */
  lemma FanRoundTrip(f: FanSpeed, high: bv8)
    requires f == FanLow || f == FanHigh || f == FanAuto
    ensures DecodeFanSpeed((high & 0xF0) | FanNibble(f)) == f
  {
  }

  /** The display shows a timer when bit 6 of byte 4 is clear. */
  predicate TimerShown(frame: seq<bv8>)
    requires |frame| == DataLength
  {
    frame[4] & 0x40 != 0x40
  }

  lemma TimerIsBitSix(frame: seq<bv8>)
    requires |frame| == DataLength
    ensures TimerShown(frame) <==> !BitSet(frame[4], 6)
  {
  }

  predicate Tables(digits: DigitTable, modes: LookupTable)
  {
    ValidDigitTable(digits) && |modes.bytes| == |ModeOrder|
  }

  predicate HeaderMatches(frame: seq<bv8>)
    requires |frame| == DataLength
  {
    frame[0] == 0x7F && frame[1] == 0x7F
  }

  /** The reference description of a successful V1.4 decode of a lit display. */
  predicate ValidReading(digits: DigitTable, modes: LookupTable, frame: seq<bv8>, s: AcState)
  {
    && |frame| == DataLength
    && HeaderMatches(frame)
    && !AllOnesFrom(frame, 2)
    && frame[5] == 0xFD
    && !s.sleep
    && ModeMatches(modes, frame[4], s.mode)
    && s.speed in {FanLow, FanHigh, FanAuto} && FanNibble(s.speed) == frame[4] & 0x0F
    && var timer := TimerShown(frame);
       var value := if timer then s.timerTenths else s.temp;
       && Shows(s, timer, value)
       && DigitsShow(digits, frame[2], frame[3], timer, value)
  }

  /** AcParserV14::parseState. Checks, in order: length, header, all-dark display, trailer,
      digits, mode, fan. */
  function ParseState(digits: DigitTable, modes: LookupTable, frame: seq<bv8>, now: int): (r: Result<AcState, ParseError>)
    requires Tables(digits, modes)
    ensures r == Err(BadLength) <==> |frame| != DataLength
    ensures r == Err(HeaderMismatch) <==> |frame| == DataLength && !HeaderMatches(frame)
    ensures |frame| == DataLength && HeaderMatches(frame) && AllOnesFrom(frame, 2) ==> r == Ok(OffState(now))
    ensures r == Err(TrailerMismatch) <==>
      |frame| == DataLength && HeaderMatches(frame) && !AllOnesFrom(frame, 2) && frame[5] != 0xFD
    ensures r.Err? && r.error.InvalidDisplay? ==> r.error == InvalidDisplay(frame[2], frame[3])
    ensures r.Err? && r.error.InvalidMode? ==> r.error == InvalidMode(frame[4])
    ensures r.Err? && r.error.InvalidFan? ==> r.error == InvalidFan(frame[4])
    ensures r.Err? ==> !r.error.InvalidMaskedBits? && !r.error.InvalidTimerBits? && !r.error.InvalidSleepBits?
    ensures r.Ok? ==> r.value.timestamp == now && !r.value.sleep
    ensures r.Ok? && r.value.mode == ModeOff ==>
      |frame| == DataLength && HeaderMatches(frame) && AllOnesFrom(frame, 2) && r.value == OffState(now)
    ensures r.Ok? && r.value.mode != ModeOff ==> ValidReading(digits, modes, frame, r.value)
  {
    if |frame| != DataLength then Err(BadLength)
    else if !HeaderMatches(frame) then Err(HeaderMismatch)
    else if AllOnesFrom(frame, 2) then Ok(OffState(now))
    else if frame[5] != 0xFD then Err(TrailerMismatch)
    else
      var isTimer := TimerShown(frame);
      var display := DecodeDisplayNumber(digits, frame[2], frame[3], isTimer);
      if display == -1 then Err(InvalidDisplay(frame[2], frame[3]))
      else
        var acMode := DecodeAcMode(modes, frame[4]);
        if acMode == ModeInvalid then Err(InvalidMode(frame[4]))
        else
          var fanSpeed := DecodeFanSpeed(frame[4]);
          if fanSpeed == FanInvalid then Err(InvalidFan(frame[4]))
          else if isTimer then Ok(UpdateStates(now, 0, display, fanSpeed, acMode, false))
          else Ok(UpdateStates(now, display, 0, fanSpeed, acMode, false))
  }

  /** The checks before the digits pass: length, header, a lit display, the trailer. */
  predicate Framed(frame: seq<bv8>)
  {
    |frame| == DataLength && HeaderMatches(frame) && !AllOnesFrom(frame, 2) && frame[5] == 0xFD
  }

  /** The digit bytes are readable, as a timer exactly when bit 6 of byte 4 is clear. */
  predicate DisplayPasses(digits: DigitTable, frame: seq<bv8>)
    requires |frame| == DataLength
  {
    DisplayReadable(digits, frame[2], frame[3], TimerShown(frame))
  }

  predicate ModePasses(modes: LookupTable, frame: seq<bv8>)
    requires |frame| == DataLength
  {
    InTable(modes, frame[4])
  }

  predicate FanPasses(frame: seq<bv8>)
    requires |frame| == DataLength
  {
    frame[4] & 0x0F in {0x07, 0x0B, 0x0D}
  }

  /** The order of the remaining V1.4 rejections: on a framed, lit display the digits are
      checked first, then the mode, then the fan. A header or trailer mismatch are the only
      rejections that are not published. */
  lemma ParseStateRejects(digits: DigitTable, modes: LookupTable, frame: seq<bv8>, now: int)
    requires Tables(digits, modes)
    ensures var r := ParseState(digits, modes, frame, now);
      && (r.Err? && r.error.InvalidDisplay? <==> Framed(frame) && !DisplayPasses(digits, frame))
      && (r.Err? && r.error.InvalidMode? <==>
            Framed(frame) && DisplayPasses(digits, frame) && !ModePasses(modes, frame))
      && (r.Err? && r.error.InvalidFan? <==>
            Framed(frame) && DisplayPasses(digits, frame) && ModePasses(modes, frame) && !FanPasses(frame))
      && (r.Err? && !Published(r.error) <==>
            |frame| == DataLength && (!HeaderMatches(frame) || (!AllOnesFrom(frame, 2) && frame[5] != 0xFD)))
  {
    if Framed(frame) {
      DisplayNumberFails(digits, frame[2], frame[3], TimerShown(frame));
      assert DecodeDisplayNumber(digits, frame[2], frame[3], TimerShown(frame)) == -1 <==> !DisplayPasses(digits, frame);
      assert DecodeAcMode(modes, frame[4]) == ModeInvalid <==> !ModePasses(modes, frame);
      assert DecodeFanSpeed(frame[4]) == FanInvalid <==> !FanPasses(frame);
    }
  }

  /** Every frame the reference description admits is decoded to the reading it describes. */
  lemma ParseStateComplete(digits: DigitTable, modes: LookupTable, frame: seq<bv8>, now: int, s: AcState)
    requires Tables(digits, modes) && ValidReading(digits, modes, frame, s) && s.timestamp == now
    ensures ParseState(digits, modes, frame, now) == Ok(s)
  {
    var timer := TimerShown(frame);
    DisplayComplete(digits, frame[2], frame[3], timer, if timer then s.timerTenths else s.temp);
    ModeComplete(modes, frame[4], s.mode);
    assert DecodeFanSpeed(frame[4]) == s.speed;
  }

  /** The V1.4 decoder accepts exactly the dark frames (as the off reading) and the frames
      the reference description admits. */
  lemma ParseStateCharacterization(digits: DigitTable, modes: LookupTable, frame: seq<bv8>, now: int, s: AcState)
    requires Tables(digits, modes)
    ensures ParseState(digits, modes, frame, now) == Ok(s) <==>
      s.timestamp == now &&
      ((|frame| == DataLength && HeaderMatches(frame) && AllOnesFrom(frame, 2) && s == OffState(now))
       || ValidReading(digits, modes, frame, s))
  {
    if s.timestamp == now && ValidReading(digits, modes, frame, s) {
      ParseStateComplete(digits, modes, frame, now, s);
    }
  }

  /** The dark-display test runs before the trailer test: the dark frame is accepted although
      its last byte is 0xFF and not the trailer 0xFD. */
  lemma DarkFrameSkipsTrailer(digits: DigitTable, modes: LookupTable, now: int)
    requires Tables(digits, modes)
    ensures ParseState(digits, modes, [0x7F, 0x7F, 0xFF, 0xFF, 0xFF, 0xFF], now) == Ok(OffState(now))
  {
  }
}
