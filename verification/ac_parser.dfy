/**
  The profile-driven display decoder of ac_manager/ac_parser.cpp.

  A profile describes one hardware revision: the frame length, a table holding the
  header bytes followed by the "bits that must be 1" mask of every later byte, the
  decimal-point bit, the ten digit patterns, and for mode and fan speed a byte index,
  an OR-mask and a table of patterns. The decoder turns a frame into a reading or a
  typed rejection, checking in a fixed order.
 */
module AcParser {
  import opened Results
  import opened AcTypes

  // ---------------------------------------------------------------------------
  // Table lookup
  // ---------------------------------------------------------------------------

  /** `i` is the first position of `x` in `table`. */
  predicate IsFirstIndex(table: seq<bv8>, x: bv8, i: int)
  {
    0 <= i < |table| && table[i] == x && forall j :: 0 <= j < i ==> table[j] != x
  }

  /** Position of the first entry equal to `x` at or after `from`, or -1. */
  function FindFrom(table: seq<bv8>, x: bv8, from: nat): (r: int)
    requires from <= |table|
    ensures r == -1 || from <= r < |table|
    ensures r == -1 <==> forall j :: from <= j < |table| ==> table[j] != x
    ensures r != -1 ==> table[r] == x && forall j :: from <= j < r ==> table[j] != x
    decreases |table| - from
  {
    if from == |table| then -1
    else if table[from] == x then from
    else FindFrom(table, x, from + 1)
  }

  /** The first-match scan the decoder runs over its fixed-size tables. */
  function IndexOf(table: seq<bv8>, x: bv8): (r: int)
    ensures r == -1 <==> x !in table
    ensures r != -1 ==> IsFirstIndex(table, x, r)
  {
    FindFrom(table, x, 0)
  }

  /** Every entry has the bits of `mask` set, so an entry is reachable by an OR-masked lookup. */
  predicate MaskForced(table: seq<bv8>, mask: bv8)
  {
    forall i :: 0 <= i < |table| ==> table[i] | mask == table[i]
  }

  predicate Distinct(table: seq<bv8>)
  {
    forall i, j :: 0 <= i < j < |table| ==> table[i] != table[j]
  }

  // ---------------------------------------------------------------------------
  // Digits
  // ---------------------------------------------------------------------------

  /** The ten 7-segment patterns, and the and-mask of the decimal-point segment. */
  datatype DigitTable = DigitTable(numberBytes: seq<bv8>, decimalBitMask: bv8)

  predicate ValidDigitTable(d: DigitTable)
  {
    |d.numberBytes| == 10
  }

  /** The segment lines are active-low: the decimal point is lit when its bit is clear. */
  predicate HasDecimal(decimalBitMask: bv8, digitBits: bv8)
  {
    digitBits & decimalBitMask != decimalBitMask
  }

  /** The byte shows some digit of the table, with its decimal point in the expected state. */
  predicate DigitReadable(d: DigitTable, digitBits: bv8, withDecimal: bool)
  {
    HasDecimal(d.decimalBitMask, digitBits) == withDecimal && digitBits | d.decimalBitMask in d.numberBytes
  }

  /** Both digits are readable: the tens digit carries the decimal point exactly for a timer. */
  predicate DisplayReadable(d: DigitTable, tensBits: bv8, onesBits: bv8, timer: bool)
  {
    DigitReadable(d, tensBits, timer) && DigitReadable(d, onesBits, false)
  }

  /** The digit shown by `digitBits`, or -1 when the decimal point is not in the expected
      state or the pattern is not in the table. */
  function DecodeDigit(d: DigitTable, digitBits: bv8, shouldHaveDecimal: bool): (r: int)
    requires ValidDigitTable(d)
    ensures -1 <= r <= 9
    ensures r == -1 <==>
      HasDecimal(d.decimalBitMask, digitBits) != shouldHaveDecimal
      || digitBits | d.decimalBitMask !in d.numberBytes
    ensures r != -1 ==> IsFirstIndex(d.numberBytes, digitBits | d.decimalBitMask, r)
  {
    if shouldHaveDecimal != HasDecimal(d.decimalBitMask, digitBits) then -1
    else IndexOf(d.numberBytes, digitBits | d.decimalBitMask)
  }

  /** The digits `tensBits` and `onesBits` show `value` (a temperature, or a timer in tenths):
      the tens digit carries the decimal point exactly when a timer is shown, the ones digit never. */
  predicate DigitsShow(d: DigitTable, tensBits: bv8, onesBits: bv8, timer: bool, value: int)
  {
    && 0 <= value <= 99
    && HasDecimal(d.decimalBitMask, tensBits) == timer
    && !HasDecimal(d.decimalBitMask, onesBits)
    && IsFirstIndex(d.numberBytes, tensBits | d.decimalBitMask, value / 10)
    && IsFirstIndex(d.numberBytes, onesBits | d.decimalBitMask, value % 10)
  }

  /** The two-digit display value: a temperature 0..99, or a timer 0.0..9.9 counted in
      tenths; -1 when either digit is invalid. */
  function DecodeDisplayNumber(d: DigitTable, tensBits: bv8, onesBits: bv8, isTimer: bool): (r: int)
    requires ValidDigitTable(d)
    ensures r == -1 || DigitsShow(d, tensBits, onesBits, isTimer, r)
    ensures r == -1 <==> DecodeDigit(d, tensBits, isTimer) == -1 || DecodeDigit(d, onesBits, false) == -1
  {
    var tens := DecodeDigit(d, tensBits, isTimer);
    var ones := DecodeDigit(d, onesBits, false);
    if tens == -1 || ones == -1 then -1
    else
      TensAndOnes(tens, ones);
      tens * 10 + ones
  }

  /** The display decodes exactly when both digits are readable. */
  lemma DisplayNumberFails(d: DigitTable, tensBits: bv8, onesBits: bv8, isTimer: bool)
    requires ValidDigitTable(d)
    ensures DecodeDisplayNumber(d, tensBits, onesBits, isTimer) == -1 <==>
      !DisplayReadable(d, tensBits, onesBits, isTimer)
  {
    DigitFails(d, tensBits, isTimer);
    DigitFails(d, onesBits, false);
  }

  /** A digit decodes exactly when it is readable. */
  lemma DigitFails(d: DigitTable, digitBits: bv8, withDecimal: bool)
    requires ValidDigitTable(d)
    ensures DecodeDigit(d, digitBits, withDecimal) == -1 <==> !DigitReadable(d, digitBits, withDecimal)
  {
  }

  /** Two decimal digits are recovered from their two-digit value. */
  lemma TensAndOnes(tens: int, ones: int)
    requires 0 <= tens <= 9 && 0 <= ones <= 9
    ensures (tens * 10 + ones) / 10 == tens && (tens * 10 + ones) % 10 == ones
  {
  }

  /** The byte a display shows for digit `k`, with the decimal point lit or dark. */
  function EncodeDigit(d: DigitTable, k: nat, withDecimal: bool): bv8
    requires ValidDigitTable(d) && k < 10
  {
    if withDecimal then d.numberBytes[k] & !d.decimalBitMask else d.numberBytes[k]
  }

  /** In a table of distinct entries, each entry is its own first match. */
  lemma DistinctFirstIndex(table: seq<bv8>, k: nat)
    requires Distinct(table) && k < |table|
    ensures IsFirstIndex(table, table[k], k)
  {
  }

  /** Bit facts about a byte that already has the bits of `m` set. */
  lemma ForcedBits(b: bv8, m: bv8)
    requires b | m == b
    ensures b & m == m
    ensures (b & !m) | m == b
    ensures (b & !m) & m != m <==> m != 0
  {
  }

  /** A table pattern that carries the decimal bit decodes to its position when shown
      without the decimal point. */
  lemma PatternDecodes(d: DigitTable, k: nat, b: bv8)
    requires ValidDigitTable(d) && IsFirstIndex(d.numberBytes, b, k)
    requires b | d.decimalBitMask == b
    ensures DecodeDigit(d, b, false) == k
  {
    ForcedBits(b, d.decimalBitMask);
    DecodesAt(d, b, false, b, k);
  }

  /** The same pattern with the decimal point lit decodes to its position when a decimal
      point is expected. */
  lemma LitPatternDecodes(d: DigitTable, k: nat, b: bv8)
    requires ValidDigitTable(d) && IsFirstIndex(d.numberBytes, b, k)
    requires b | d.decimalBitMask == b && d.decimalBitMask != 0
    ensures DecodeDigit(d, b & !d.decimalBitMask, true) == k
  {
    var lit := LitKey(b, d.decimalBitMask);
    DecodesAt(d, lit, true, b, k);
  }

  /** A pattern whose decimal point is as expected decodes to the first match of its key. */
  lemma DecodesAt(d: DigitTable, digitBits: bv8, shouldHaveDecimal: bool, key: bv8, k: nat)
    requires ValidDigitTable(d)
    requires HasDecimal(d.decimalBitMask, digitBits) == shouldHaveDecimal
    requires digitBits | d.decimalBitMask == key && IsFirstIndex(d.numberBytes, key, k)
    ensures DecodeDigit(d, digitBits, shouldHaveDecimal) == k
  {
    LookupFinds(d.numberBytes, key, k);
  }

  /** Lighting the decimal point of a pattern that carries its bit is undone by the lookup mask. */
  lemma LitKey(b: bv8, m: bv8) returns (lit: bv8)
    requires b | m == b && m != 0
    ensures lit == b & !m
    ensures HasDecimal(m, lit) && lit | m == b
  {
    lit := b & !m;
  }

  /** With distinct patterns that all carry the decimal bit, every digit decodes back to itself,
      with and (when the table has a decimal bit at all) without the decimal point lit. */
  lemma DigitRoundTrip(d: DigitTable, k: nat)
    requires ValidDigitTable(d) && MaskForced(d.numberBytes, d.decimalBitMask) && Distinct(d.numberBytes)
    requires k < 10
    ensures DecodeDigit(d, EncodeDigit(d, k, false), false) == k
    ensures d.decimalBitMask != 0 ==> DecodeDigit(d, EncodeDigit(d, k, true), true) == k
  {
    DistinctFirstIndex(d.numberBytes, k);
    DigitRoundTripAt(d, k, d.numberBytes[k]);
  }

  /** The round trip of one digit, from the two facts about its pattern `b` that it needs. */
  lemma DigitRoundTripAt(d: DigitTable, k: nat, b: bv8)
    requires ValidDigitTable(d) && k < 10 && b == d.numberBytes[k]
    requires IsFirstIndex(d.numberBytes, b, k) && b | d.decimalBitMask == b
    ensures DecodeDigit(d, EncodeDigit(d, k, false), false) == k
    ensures d.decimalBitMask != 0 ==> DecodeDigit(d, EncodeDigit(d, k, true), true) == k
  {
    PatternDecodes(d, k, b);
    if d.decimalBitMask != 0 {
      LitPatternDecodes(d, k, b);
    }
  }

  /** A table pattern without the decimal bit can never be matched: the lookup key always has it. */
  lemma DigitUnreachable(d: DigitTable, k: nat, digitBits: bv8, shouldHaveDecimal: bool)
    requires ValidDigitTable(d) && k < 10
    requires d.numberBytes[k] | d.decimalBitMask != d.numberBytes[k]
    ensures DecodeDigit(d, digitBits, shouldHaveDecimal) != k
  {
    KeyHasMask(digitBits, d.decimalBitMask, d.numberBytes[k]);
    NotFirstIndex(d.numberBytes, digitBits | d.decimalBitMask, k, DecodeDigit(d, digitBits, shouldHaveDecimal));
  }

  /** A position holding something else is not the first match. */
  lemma NotFirstIndex(table: seq<bv8>, x: bv8, k: nat, r: int)
    requires k < |table| && table[k] != x
    requires r == -1 || IsFirstIndex(table, x, r)
    ensures r != k
  {
  }

  /** An OR-masked key differs from every byte that lacks a bit of the mask. */
  lemma KeyHasMask(bits: bv8, m: bv8, entry: bv8)
    requires entry | m != entry
    ensures entry != bits | m
  {
  }

  /** Every two-digit value is displayed and read back unchanged. */
  lemma DisplayRoundTrip(d: DigitTable, value: nat, timer: bool)
    requires ValidDigitTable(d) && MaskForced(d.numberBytes, d.decimalBitMask) && Distinct(d.numberBytes)
    requires value <= 99
    requires timer ==> d.decimalBitMask != 0
    ensures DecodeDisplayNumber(d, EncodeDigit(d, value / 10, timer), EncodeDigit(d, value % 10, false), timer) == value
  {
    DigitRoundTrip(d, value / 10);
    DigitRoundTrip(d, value % 10);
  }

  // ---------------------------------------------------------------------------
  // Mode and fan speed
  // ---------------------------------------------------------------------------

  /** A byte table with the OR-mask applied to the raw byte before lookup. */
  datatype LookupTable = LookupTable(bytes: seq<bv8>, orMask: bv8)

  /** The masked byte is one of the table's patterns. */
  predicate InTable(t: LookupTable, bits: bv8)
  {
    bits | t.orMask in t.bytes
  }

  /** Table order of the mode patterns: {COOL, ECO, FAN}. */
  const ModeOrder: seq<AcMode> := [ModeCool, ModeEco, ModeFan]

  /** Table order of the fan patterns: {LOW, MEDIUM, HIGH, AUTO}. */
  const FanOrder: seq<FanSpeed> := [FanLow, FanMedium, FanHigh, FanAuto]

  /** Position of a mode in the mode table, -1 for a mode the table does not hold. */
  function ModeSlot(m: AcMode): (i: int)
    ensures -1 <= i < |ModeOrder|
    ensures i == -1 <==> !UsableMode(m)
    ensures i != -1 ==> ModeOrder[i] == m
  {
    match m
    case ModeCool => 0
    case ModeEco => 1
    case ModeFan => 2
    case _ => -1
  }

  /** Position of a fan speed in the fan table, -1 for a speed the table does not hold. */
  function FanSlot(f: FanSpeed): (i: int)
    ensures -1 <= i < |FanOrder|
    ensures i == -1 <==> !UsableSpeed(f)
    ensures i != -1 ==> FanOrder[i] == f
  {
    match f
    case FanLow => 0
    case FanMedium => 1
    case FanHigh => 2
    case FanAuto => 3
    case _ => -1
  }

  /** The mode `m` is the one whose pattern the masked byte matches first. */
  predicate ModeMatches(t: LookupTable, bits: bv8, m: AcMode)
  {
    IsFirstIndex(t.bytes, bits | t.orMask, ModeSlot(m))
  }

  predicate FanMatches(t: LookupTable, bits: bv8, f: FanSpeed)
  {
    IsFirstIndex(t.bytes, bits | t.orMask, FanSlot(f))
  }

  function DecodeAcMode(t: LookupTable, acModeBits: bv8): (m: AcMode)
    requires |t.bytes| == |ModeOrder|
    ensures m != ModeOff
    ensures m == ModeInvalid <==> acModeBits | t.orMask !in t.bytes
    ensures m != ModeInvalid ==> ModeMatches(t, acModeBits, m)
  {
    var i := IndexOf(t.bytes, acModeBits | t.orMask);
    if i == -1 then ModeInvalid else ModeOrder[i]
  }

  function DecodeFanSpeed(t: LookupTable, fanSpeedBits: bv8): (f: FanSpeed)
    requires |t.bytes| == |FanOrder|
    ensures f != FanOff
    ensures f == FanInvalid <==> fanSpeedBits | t.orMask !in t.bytes
    ensures f != FanInvalid ==> FanMatches(t, fanSpeedBits, f)
  {
    var i := IndexOf(t.bytes, fanSpeedBits | t.orMask);
    if i == -1 then FanInvalid else FanOrder[i]
  }

  /** With distinct patterns that carry their OR-mask, each table entry decodes to its mode. */
  lemma ModeRoundTrip(t: LookupTable, m: AcMode)
    requires |t.bytes| == |ModeOrder| && MaskForced(t.bytes, t.orMask) && Distinct(t.bytes)
    requires UsableMode(m)
    ensures DecodeAcMode(t, t.bytes[ModeSlot(m)]) == m
  {
    var b := t.bytes[ModeSlot(m)];
    assert b | t.orMask == b;
    DistinctFirstIndex(t.bytes, ModeSlot(m));
    ModeComplete(t, b, m);
  }

  lemma FanRoundTrip(t: LookupTable, f: FanSpeed)
    requires |t.bytes| == |FanOrder| && MaskForced(t.bytes, t.orMask) && Distinct(t.bytes)
    requires UsableSpeed(f)
    ensures DecodeFanSpeed(t, t.bytes[FanSlot(f)]) == f
  {
    var b := t.bytes[FanSlot(f)];
    assert b | t.orMask == b;
    DistinctFirstIndex(t.bytes, FanSlot(f));
    FanComplete(t, b, f);
  }

  // ---------------------------------------------------------------------------
  // Profiles
  // ---------------------------------------------------------------------------

  /** Bit `k` (0 = least significant) of a byte is 1. */
  predicate BitSet(b: bv8, k: nat)
    requires k < 8
  {
    (b >> k) & 1 == 1
  }

  /** One test of the timer predicate: the bits of `mask` in byte `index` are all clear
      (`wantSet` false) or not all clear (`wantSet` true). */
  datatype BitTest = BitTest(index: nat, mask: bv8, wantSet: bool)

  predicate BitTestHolds(frame: seq<bv8>, t: BitTest)
    requires t.index < |frame|
  {
    (frame[t.index] & t.mask != 0) == t.wantSet
  }

  predicate RuleInBounds(rule: seq<BitTest>, len: nat)
  {
    forall k :: 0 <= k < |rule| ==> rule[k].index < len
  }

  /** The display shows a timer rather than a temperature. */
  predicate IsTimer(rule: seq<BitTest>, frame: seq<bv8>)
    requires RuleInBounds(rule, |frame|)
  {
    forall k :: 0 <= k < |rule| ==> BitTestHolds(frame, rule[k])
  }

  datatype Profile = Profile(
    dataLength: nat,
    headerLength: nat,
    headerAndMask: seq<bv8>,
    digits: DigitTable,
    acModeByteIndex: nat,
    acModes: LookupTable,
    fanSpeedByteIndex: nat,
    fanSpeeds: LookupTable,
    timerRule: seq<BitTest>)

  /** What the decoder needs of a profile: tables of the documented sizes and every byte it
      reads inside the frame. */
  predicate InBounds(p: Profile)
  {
    && |p.headerAndMask| == p.dataLength
    && p.headerLength + 1 < p.dataLength
    && p.acModeByteIndex < p.dataLength
    && p.fanSpeedByteIndex < p.dataLength
    && ValidDigitTable(p.digits)
    && |p.acModes.bytes| == |ModeOrder|
    && |p.fanSpeeds.bytes| == |FanOrder|
    && RuleInBounds(p.timerRule, p.dataLength)
  }

  /** The table invariants a profile is expected to meet: the documented decimal-bit rule
      (every digit pattern carries the decimal bit), plus distinct patterns in each table, so
      that the first-match lookup tells them apart. */
  predicate TablesConsistent(p: Profile)
  {
    && MaskForced(p.digits.numberBytes, p.digits.decimalBitMask)
    && Distinct(p.digits.numberBytes)
    && Distinct(p.acModes.bytes)
    && Distinct(p.fanSpeeds.bytes)
  }

  predicate HeaderMatches(p: Profile, frame: seq<bv8>)
    requires |frame| == p.dataLength && InBounds(p)
  {
    frame[..p.headerLength] == p.headerAndMask[..p.headerLength]
  }

  /** Every byte after the header has all of its required bits set. */
  predicate MaskMatches(p: Profile, frame: seq<bv8>)
    requires |frame| == p.dataLength && InBounds(p)
  {
    forall i :: p.headerLength <= i < |frame| ==> frame[i] & p.headerAndMask[i] == p.headerAndMask[i]
  }

  /** The checks before the digits pass: length, header, a lit display, required bits. */
  predicate Framed(p: Profile, frame: seq<bv8>)
    requires InBounds(p)
  {
    && |frame| == p.dataLength
    && HeaderMatches(p, frame)
    && !AllOnesFrom(frame, p.headerLength)
    && MaskMatches(p, frame)
  }

  /** The digit bytes are readable, as a timer or a temperature according to the timer rule. */
  predicate DisplayPasses(p: Profile, frame: seq<bv8>)
    requires InBounds(p) && |frame| == p.dataLength
  {
    DisplayReadable(p.digits, frame[p.headerLength], frame[p.headerLength + 1], IsTimer(p.timerRule, frame))
  }

  predicate ModePasses(p: Profile, frame: seq<bv8>)
    requires InBounds(p) && |frame| == p.dataLength
  {
    InTable(p.acModes, frame[p.acModeByteIndex])
  }

  predicate FanPasses(p: Profile, frame: seq<bv8>)
    requires InBounds(p) && |frame| == p.dataLength
  {
    InTable(p.fanSpeeds, frame[p.fanSpeedByteIndex])
  }

  /** The reference description of a successful decode of a lit display. */
  predicate ValidReading(p: Profile, frame: seq<bv8>, s: AcState)
    requires InBounds(p)
  {
    && |frame| == p.dataLength
    && HeaderMatches(p, frame)
    && !AllOnesFrom(frame, p.headerLength)
    && MaskMatches(p, frame)
    && ShowsReading(p, frame, s)
  }

  /** What the digit, mode and fan bytes of a lit frame say about a reading. */
  predicate ShowsReading(p: Profile, frame: seq<bv8>, s: AcState)
    requires InBounds(p) && |frame| == p.dataLength
  {
    && !s.sleep
    && ModeMatches(p.acModes, frame[p.acModeByteIndex], s.mode)
    && FanMatches(p.fanSpeeds, frame[p.fanSpeedByteIndex], s.speed)
    && var timer := IsTimer(p.timerRule, frame);
       var value := if timer then s.timerTenths else s.temp;
       && Shows(s, timer, value)
       && DigitsShow(p.digits, frame[p.headerLength], frame[p.headerLength + 1], timer, value)
  }

  /** AcParser::parseState. Checks, in order: length, header, all-dark display, required bits,
      digits, mode, fan. */
  function ParseState(p: Profile, frame: seq<bv8>, now: int): (r: Result<AcState, ParseError>)
    requires InBounds(p)
    ensures r == Err(BadLength) <==> |frame| != p.dataLength
    ensures r == Err(HeaderMismatch) <==> |frame| == p.dataLength && !HeaderMatches(p, frame)
    ensures |frame| == p.dataLength && HeaderMatches(p, frame) && AllOnesFrom(frame, p.headerLength)
            ==> r == Ok(OffState(now))
    ensures r == Err(InvalidMaskedBits) <==>
      && |frame| == p.dataLength && HeaderMatches(p, frame)
      && !AllOnesFrom(frame, p.headerLength) && !MaskMatches(p, frame)
    ensures r.Err? && r.error.InvalidDisplay? ==>
      r.error == InvalidDisplay(frame[p.headerLength], frame[p.headerLength + 1])
    ensures r.Err? && r.error.InvalidMode? ==> r.error == InvalidMode(frame[p.acModeByteIndex])
    ensures r.Err? && r.error.InvalidFan? ==> r.error == InvalidFan(frame[p.fanSpeedByteIndex])
    ensures r.Err? ==> r.error in {BadLength, HeaderMismatch, InvalidMaskedBits}
                       || r.error.InvalidDisplay? || r.error.InvalidMode? || r.error.InvalidFan?
    ensures r.Ok? ==> r.value.timestamp == now && !r.value.sleep
    ensures r.Ok? && r.value.mode == ModeOff ==>
      && |frame| == p.dataLength && HeaderMatches(p, frame) && AllOnesFrom(frame, p.headerLength)
      && r.value == OffState(now)
    ensures r.Ok? && r.value.mode != ModeOff ==> ValidReading(p, frame, r.value)
    ensures r.Ok? && r.value.mode != ModeOff ==> UsableMode(r.value.mode) && UsableSpeed(r.value.speed)
  {
    if |frame| != p.dataLength then Err(BadLength)
    else if !HeaderMatches(p, frame) then Err(HeaderMismatch)
    else if AllOnesFrom(frame, p.headerLength) then Ok(OffState(now))
    else if !MaskMatches(p, frame) then Err(InvalidMaskedBits)
    else DecodeReading(p, frame, now)
  }

  /** The order of the remaining rejections of ParseState: on a framed, lit display the
      digits are checked first, then the mode, then the fan. A header mismatch is the only
      rejection that is not published. */
  lemma ParseStateRejects(p: Profile, frame: seq<bv8>, now: int)
    requires InBounds(p)
    ensures var r := ParseState(p, frame, now);
      && (r.Err? && r.error.InvalidDisplay? <==> Framed(p, frame) && !DisplayPasses(p, frame))
      && (r.Err? && r.error.InvalidMode? <==>
            Framed(p, frame) && DisplayPasses(p, frame) && !ModePasses(p, frame))
      && (r.Err? && r.error.InvalidFan? <==>
            Framed(p, frame) && DisplayPasses(p, frame) && ModePasses(p, frame) && !FanPasses(p, frame))
      && (r.Err? && !Published(r.error) <==> |frame| == p.dataLength && !HeaderMatches(p, frame))
  {
    if Framed(p, frame) {
      DecodeReadingRejects(p, frame, now);
    }
  }

  /** The second half of the decoder, on a frame of the right length: digits, mode, fan. */
  function DecodeReading(p: Profile, frame: seq<bv8>, now: int): (r: Result<AcState, ParseError>)
    requires InBounds(p) && |frame| == p.dataLength
    ensures r.Err? ==> r.error.InvalidDisplay? || r.error.InvalidMode? || r.error.InvalidFan?
    ensures r.Err? && r.error.InvalidDisplay? ==>
      r.error == InvalidDisplay(frame[p.headerLength], frame[p.headerLength + 1])
    ensures r.Err? && r.error.InvalidMode? ==> r.error == InvalidMode(frame[p.acModeByteIndex])
    ensures r.Err? && r.error.InvalidFan? ==> r.error == InvalidFan(frame[p.fanSpeedByteIndex])
    ensures r.Ok? ==> r.value.timestamp == now && ShowsReading(p, frame, r.value)
    ensures r.Ok? ==> UsableMode(r.value.mode) && UsableSpeed(r.value.speed)
  {
    var timer := IsTimer(p.timerRule, frame);
    var tensBits := frame[p.headerLength];
    var onesBits := frame[p.headerLength + 1];
    var display := DecodeDisplayNumber(p.digits, tensBits, onesBits, timer);
    if display == -1 then Err(InvalidDisplay(tensBits, onesBits))
    else
      var acModeBits := frame[p.acModeByteIndex];
      var acMode := DecodeAcMode(p.acModes, acModeBits);
      if acMode == ModeInvalid then Err(InvalidMode(acModeBits))
      else
        var fanSpeedBits := frame[p.fanSpeedByteIndex];
        var fanSpeed := DecodeFanSpeed(p.fanSpeeds, fanSpeedBits);
        if fanSpeed == FanInvalid then Err(InvalidFan(fanSpeedBits))
        else if timer then Ok(UpdateStates(now, 0, display, fanSpeed, acMode, false))
        else Ok(UpdateStates(now, display, 0, fanSpeed, acMode, false))
  }

  /** The lit-display checks run in the order display, mode, fan: each error is reported
      exactly when its check is the first to fail. */
  lemma DecodeReadingRejects(p: Profile, frame: seq<bv8>, now: int)
    requires InBounds(p) && |frame| == p.dataLength
    ensures var r := DecodeReading(p, frame, now);
      && (r.Err? && r.error.InvalidDisplay? <==> !DisplayPasses(p, frame))
      && (r.Err? && r.error.InvalidMode? <==> DisplayPasses(p, frame) && !ModePasses(p, frame))
      && (r.Err? && r.error.InvalidFan? <==>
            DisplayPasses(p, frame) && ModePasses(p, frame) && !FanPasses(p, frame))
  {
    var timer := IsTimer(p.timerRule, frame);
    DisplayNumberFails(p.digits, frame[p.headerLength], frame[p.headerLength + 1], timer);
    assert DecodeDisplayNumber(p.digits, frame[p.headerLength], frame[p.headerLength + 1], timer) == -1
      <==> !DisplayPasses(p, frame);
    assert DecodeAcMode(p.acModes, frame[p.acModeByteIndex]) == ModeInvalid <==> !ModePasses(p, frame);
    assert DecodeFanSpeed(p.fanSpeeds, frame[p.fanSpeedByteIndex]) == FanInvalid <==> !FanPasses(p, frame);
  }

  /** The first-match position of a value is unique. */
  lemma FirstIndexUnique(table: seq<bv8>, x: bv8, i: int, j: int)
    requires IsFirstIndex(table, x, i) && IsFirstIndex(table, x, j)
    ensures i == j
  {
  }

  /** The display decoder reads back every value the digits show. */
  lemma DisplayComplete(d: DigitTable, tensBits: bv8, onesBits: bv8, timer: bool, value: int)
    requires ValidDigitTable(d) && DigitsShow(d, tensBits, onesBits, timer, value)
    ensures DecodeDisplayNumber(d, tensBits, onesBits, timer) == value
  {
    var tens := DecodeDigit(d, tensBits, timer);
    var ones := DecodeDigit(d, onesBits, false);
    FirstIndexUnique(d.numberBytes, tensBits | d.decimalBitMask, tens, value / 10);
    FirstIndexUnique(d.numberBytes, onesBits | d.decimalBitMask, ones, value % 10);
  }

  /** The mode decoder returns the mode whose pattern the masked byte matches first. */
  lemma ModeComplete(t: LookupTable, bits: bv8, m: AcMode)
    requires |t.bytes| == |ModeOrder| && ModeMatches(t, bits, m)
    ensures DecodeAcMode(t, bits) == m
  {
    LookupFinds(t.bytes, bits | t.orMask, ModeSlot(m));
  }

  lemma FanComplete(t: LookupTable, bits: bv8, f: FanSpeed)
    requires |t.bytes| == |FanOrder| && FanMatches(t, bits, f)
    ensures DecodeFanSpeed(t, bits) == f
  {
    LookupFinds(t.bytes, bits | t.orMask, FanSlot(f));
  }

  /** The scan finds the first match of a value. */
  lemma LookupFinds(table: seq<bv8>, x: bv8, i: int)
    requires IsFirstIndex(table, x, i)
    ensures IndexOf(table, x) == i
  {
    assert x in table;
    FirstIndexUnique(table, x, IndexOf(table, x), i);
  }

  /** Every frame the reference description admits is decoded to the reading it describes. */
  lemma ParseStateComplete(p: Profile, frame: seq<bv8>, now: int, s: AcState)
    requires InBounds(p) && ValidReading(p, frame, s) && s.timestamp == now
    ensures ParseState(p, frame, now) == Ok(s)
  {
    DecodeReadingComplete(p, frame, now, s);
  }

  /** The digit, mode and fan bytes of a lit frame are read back as the reading they show. */
  lemma DecodeReadingComplete(p: Profile, frame: seq<bv8>, now: int, s: AcState)
    requires InBounds(p) && |frame| == p.dataLength
    requires ShowsReading(p, frame, s) && s.timestamp == now
    ensures DecodeReading(p, frame, now) == Ok(s)
  {
    var hl := p.headerLength;
    var timer := IsTimer(p.timerRule, frame);
    var value := if timer then s.timerTenths else s.temp;
    DisplayComplete(p.digits, frame[hl], frame[hl + 1], timer, value);
    ModeComplete(p.acModes, frame[p.acModeByteIndex], s.mode);
    FanComplete(p.fanSpeeds, frame[p.fanSpeedByteIndex], s.speed);
    assert s.mode != ModeInvalid && s.speed != FanInvalid;
    assert s == if timer then UpdateStates(now, 0, value, s.speed, s.mode, false)
                else UpdateStates(now, value, 0, s.speed, s.mode, false);
  }

  /** The decoder accepts exactly the dark frames (as the off reading) and the frames the
      reference description admits, with the reading it describes. */
  lemma ParseStateCharacterization(p: Profile, frame: seq<bv8>, now: int, s: AcState)
    requires InBounds(p)
    ensures ParseState(p, frame, now) == Ok(s) <==>
      s.timestamp == now &&
      ((|frame| == p.dataLength && HeaderMatches(p, frame) && AllOnesFrom(frame, p.headerLength)
        && s == OffState(now))
       || ValidReading(p, frame, s))
  {
    if s.timestamp == now && ValidReading(p, frame, s) {
      ParseStateComplete(p, frame, now, s);
    }
  }
}
