/**
  Hardware revision V1.8 (ac_manager/ac_parser_v18.cpp): a profile for the shared decoder.

  The revision supplies the header-and-mask table, the digit, mode and fan tables and the
  timer predicate. Its header length, decimal-bit mask, byte indices and OR-masks are not
  given, so they are the `Settings` parameter.
 */
module AcParserV18 {
  import opened Results
  import opened AcTypes
  import opened AcParser

  /** AcParserV18::getDataLength. */
  const DataLength: nat := 6

  const HeaderAndMask: seq<bv8> := [0xFF, 0xFF, 0x00, 0x20, 0x98, 0xA0]
  const NumberBytes: seq<bv8> := [0x30, 0xFC, 0xA2, 0xA4, 0x6C, 0x25, 0x21, 0xBC, 0x20, 0x24]
  const AcModeBytes: seq<bv8> := [0xFB, 0xFD, 0xFE]
  const FanSpeedBytes: seq<bv8> := [0xBF, 0xFD, 0xFB, 0xF7]

  /** AcParserV18::isTimer as data: bit 5 of byte 2 clear, bits 5 and 6 of byte 4 clear,
      bit 0 of byte 5 set. */
  const TimerRule: seq<BitTest> := [BitTest(2, 0x20, false), BitTest(4, 0x60, false), BitTest(5, 0x01, true)]

  /** The profile values this revision does not spell out. */
  datatype Settings = Settings(
    headerLength: nat,
    decimalBitMask: bv8,
    acModeByteIndex: nat,
    acModeBitMask: bv8,
    fanSpeedByteIndex: nat,
    fanSpeedBitMask: bv8)

  predicate SettingsInBounds(q: Settings)
  {
    q.headerLength + 1 < DataLength && q.acModeByteIndex < DataLength && q.fanSpeedByteIndex < DataLength
  }

  /** The V1.8 profile. Its header-and-mask table has one entry per frame byte, and of the
      table invariants (the documented decimal-bit rule plus distinct patterns) only the
      decimal-bit mask is open: it must be 0x00 or 0x20. */
  function MakeProfile(q: Settings): (p: Profile)
    ensures p.dataLength == DataLength && |p.headerAndMask| == p.dataLength
    ensures InBounds(p) <==> SettingsInBounds(q)
    ensures TablesConsistent(p) <==> q.decimalBitMask == 0x00 || q.decimalBitMask == 0x20
  {
    TablesDistinct();
    DecimalMaskChoices(q.decimalBitMask);
    Profile(
      DataLength,
      q.headerLength,
      HeaderAndMask,
      DigitTable(NumberBytes, q.decimalBitMask),
      q.acModeByteIndex,
      LookupTable(AcModeBytes, q.acModeBitMask),
      q.fanSpeedByteIndex,
      LookupTable(FanSpeedBytes, q.fanSpeedBitMask),
      TimerRule)
  }

  /** The ten digit patterns, the three mode patterns and the four fan patterns are each
      pairwise distinct. */
  lemma TablesDistinct()
    ensures Distinct(NumberBytes) && Distinct(AcModeBytes) && Distinct(FanSpeedBytes)
  {
  }

  /** The only decimal-bit masks every digit pattern carries are 0x00 and 0x20. */
  lemma DecimalMaskChoices(m: bv8)
    ensures MaskForced(NumberBytes, m) <==> m == 0x00 || m == 0x20
  {
    if MaskForced(NumberBytes, m) {
      assert NumberBytes[0] | m == 0x30;
      assert NumberBytes[2] | m == 0xA2;
      assert (0x30 as bv8) & 0xA2 == 0x20;
    }
  }

  /** AcParserV18::isTimer, read through the rule table. */
  predicate IsTimer(frame: seq<bv8>)
    requires |frame| > 5
  {
    AcParser.IsTimer(TimerRule, frame)
  }

  /** The rule table says exactly what the revision's comments say, bit by bit. */
  lemma IsTimerBits(frame: seq<bv8>)
    requires |frame| > 5
    ensures IsTimer(frame) <==>
      !BitSet(frame[2], 5) && !BitSet(frame[4], 5) && !BitSet(frame[4], 6) && BitSet(frame[5], 0)
  {
    assert BitTestHolds(frame, TimerRule[0]) <==> !BitSet(frame[2], 5);
    assert BitTestHolds(frame, TimerRule[1]) <==> !BitSet(frame[4], 5) && !BitSet(frame[4], 6);
    assert BitTestHolds(frame, TimerRule[2]) <==> BitSet(frame[5], 0);
  }

  /** The timer predicate reads bytes 2, 4 and 5 only. */
  lemma IsTimerReadsOnly(f: seq<bv8>, g: seq<bv8>)
    requires |f| > 5 && |g| > 5
    requires f[2] == g[2] && f[4] == g[4] && f[5] == g[5]
    ensures IsTimer(f) == IsTimer(g)
  {
    IsTimerBits(f);
    IsTimerBits(g);
  }

  /** The V1.8 decoder: the shared algorithm over the V1.8 profile. */
  function ParseState(q: Settings, frame: seq<bv8>, now: int): (r: Result<AcState, ParseError>)
    requires SettingsInBounds(q)
    ensures r == Err(BadLength) <==> |frame| != DataLength
    ensures r.Ok? ==> r.value.timestamp == now && !r.value.sleep
    ensures r.Ok? && r.value.mode != ModeOff ==>
      |frame| == DataLength && UsableMode(r.value.mode) && UsableSpeed(r.value.speed)
      && (IsTimer(frame) ==> r.value.temp == 0 && 0 <= r.value.timerTenths <= 99)
      && (!IsTimer(frame) ==> r.value.timerTenths == 0 && 0 <= r.value.temp <= 99)
  {
    AcParser.ParseState(MakeProfile(q), frame, now)
  }

  /** The required-bit masks of bytes 2 and 4 leave clear the bits the timer predicate needs
      clear, so a frame can pass the mask check and still show a timer: FF FF 00 20 98 A1 does,
      whatever the header length. */
  lemma MaskAdmitsTimer(q: Settings)
    requires SettingsInBounds(q)
    ensures HeaderAndMask[2] & 0x20 == 0 && HeaderAndMask[4] & 0x60 == 0
    ensures var p := MakeProfile(q);
            var frame: seq<bv8> := [0xFF, 0xFF, 0x00, 0x20, 0x98, 0xA1];
            && HeaderMatches(p, frame) && MaskMatches(p, frame)
            && !AllOnesFrom(frame, q.headerLength) && IsTimer(frame)
  {
    var p := MakeProfile(q);
    var frame: seq<bv8> := [0xFF, 0xFF, 0x00, 0x20, 0x98, 0xA1];
    assert frame[..q.headerLength] == p.headerAndMask[..q.headerLength];
    assert frame[5] != 0xFF;
    IsTimerBits(frame);
  }

  /** With the decimal bit at 0x20 every digit pattern reads back as its own digit, with
      and without the decimal point lit. */
  lemma DigitsRoundTrip(k: nat)
    requires k < 10
    ensures DecodeDigit(DigitTable(NumberBytes, 0x20), NumberBytes[k], false) == k
    ensures DecodeDigit(DigitTable(NumberBytes, 0x20), NumberBytes[k] & !0x20, true) == k
  {
    TablesDistinct();
    DecimalMaskChoices(0x20);
    DigitRoundTrip(DigitTable(NumberBytes, 0x20), k);
  }
}
