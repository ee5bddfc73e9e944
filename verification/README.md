# ac_ir_control in Dafny

A model of the core of ac_ir_control, firmware for a Spark Core that watches and drives a
window air-conditioner. It covers two parts.

- **The display decoders.** The reader captures the shift-register bytes that drive the unit's
  front-panel display: a header, two 7-segment digits, and bytes carrying the mode, the fan
  speed and the timer flag. The decoders turn such a frame into an `AcState` reading or a typed
  rejection. `AcParser` is the shared decoder. It is driven by a per-revision profile: header
  and required-bit mask, digit table, decimal-point mask, mode and fan tables with their byte
  indices and OR-masks, and the timer predicate. `AcParserV12` and `AcParserV14` are the two
  hand-written decoders. `AcParserV18` is the V1.8 profile for the shared decoder.
  `DisplayReader` models `setAcModel`, which selects the active revision.
- **The infrared transmitter.** `IrController` decodes an 8-digit hexadecimal command and builds
  the NEC frame for it. The frame is a header mark and space, one mark-and-space cell per bit
  (most significant bit first) and a closing mark. The module also models the drift-compensated
  timing of `mark`/`space`. They keep a running 32-bit target time `sigTime` and wait only for
  what remains of each segment. `IrTiming` holds the NEC constants and the carrier-period macros.

Every decoder is stated against a reference description of the frames it accepts (`ValidReading`),
and is proved to accept exactly the dark frames and the frames that description admits. Each
rejection is stated with the exact condition under which it happens, in the order the code checks.
The timer, sleep, display, mode and fan errors carry the bytes that caused them; the length,
header, trailer and required-bit errors carry nothing. The NEC frame has a receiver-side decoder
and a round-trip proof. The corrected timing loop (`RunTimeline`, using the wrap-safe wait) is
proved to end every segment that is not already over on its nominal target, whatever the clock
readings. The timing as written does not have that property (see Findings).

Where the code and its comments or the expected shape of a frame point different ways, the
model follows the code:

- V1.2 frame `FF C0 F9 70 67`. It has the expected shape of a temperature frame, but the code
  rejects it with INVALID SLEEP. The low nibble of byte 3 is 0x0, which is neither 0xE nor 0xF
  (`AcParserV12.ZeroSleepNibbleRejected`).
- V1.4 timer flag. The comment in the code names bit 7 of byte 4, but the mask `0b1000000` tests
  bit 6. The model tests bit 6 (`AcParserV14.TimerIsBitSix`).
- V1.2 sleep flag. The sleep nibble must be 0xE or 0xF, but the reading always stores
  `sleep = false`, as the code does.
- V1.8 decoding. `ac_parser_v18.cpp` defines only the tables and `isTimer`. The model decodes
  V1.8 frames with the shared algorithm over those tables.

## Model

| member | source | states |
|---|---|---|
| AcParser.IndexOf | ac_manager/ac_parser.cpp:124-130 | The table scan returns -1 exactly when the value is absent; otherwise it returns the value's first position. |
| AcParser.DecodeDigit | ac_manager/ac_parser.cpp:115-131 | The result is -1 exactly when the decimal point is not in the expected state or the pattern (decimal bit forced on) is not in the table. Otherwise it is the pattern's first table position, a digit 0..9. |
| AcParser.DecodeDisplayNumber | ac_manager/ac_parser.cpp:94-110 | The result is -1 exactly when either digit is invalid. Otherwise the two digits show the result: tens then ones, the tens digit carrying the decimal point exactly for a timer, the ones digit never. |
| AcParser.DigitFails | ac_manager/ac_parser.cpp:115-131 | A digit fails exactly when it is not readable: its decimal point is not in the expected state or its pattern is not in the table. |
| AcParser.DisplayNumberFails | ac_manager/ac_parser.cpp:94-110 | The display fails exactly when one of its digits is not readable: not in the table with the decimal point in the expected state (tens: lit exactly for a timer; ones: never). |
| AcParser.DisplayComplete | ac_manager/ac_parser.cpp:94-110 | Any pair of digit bytes that shows a value is decoded to that value (the converse of the previous row). |
| AcParser.DigitRoundTrip | ac_manager/ac_parser.cpp:115-131 | With distinct patterns that all carry the decimal bit, each digit's pattern decodes back to that digit. So does the pattern with its decimal point lit, when the table has a decimal bit. |
| AcParser.DigitUnreachable | ac_manager/ac_parser.cpp:122-128 | A table pattern that lacks the decimal bit can never be decoded, whatever the input byte. This is why the table must satisfy "decimal bit must be 1". |
| AcParser.DisplayRoundTrip | ac_manager/ac_parser.cpp:94-110 | Every value 0..99, as temperature or timer, is displayed and decoded back unchanged. |
| AcParser.DecodeAcMode | ac_manager/ac_parser.cpp:133-150 | The result is never OFF. It is INVALID exactly when the OR-masked byte is not in the table. Otherwise it is the mode at the first matching position, in COOL, ECO, FAN order. |
| AcParser.ModeComplete | ac_manager/ac_parser.cpp:133-150 | A byte whose masked value first matches a mode's slot decodes to that mode. |
| AcParser.ModeRoundTrip | ac_manager/ac_parser.cpp:133-150 | With distinct, mask-carrying patterns, each mode's own pattern decodes to that mode. |
| AcParser.DecodeFanSpeed | ac_manager/ac_parser.cpp:152-171 | The result is never OFF. It is INVALID exactly when the OR-masked byte is not in the table. Otherwise it is the speed at the first matching position, in LOW, MEDIUM, HIGH, AUTO order. |
| AcParser.FanComplete | ac_manager/ac_parser.cpp:152-171 | A byte whose masked value first matches a speed's slot decodes to that speed. |
| AcParser.FanRoundTrip | ac_manager/ac_parser.cpp:152-171 | With distinct, mask-carrying patterns, each speed's own pattern decodes to that speed. |
| AcParser.ParseState | ac_manager/ac_parser.cpp:8-82 | Checks run in order: length, header, dark display (which gives the OFF reading), required bits, digits, mode, fan. The length, header and required-bit rejections happen exactly under their conditions (the display, mode and fan conditions are in `AcParser.ParseStateRejects`), and the display, mode and fan errors carry the offending bytes. A lit reading has a usable mode and speed, matches the reference description and is stamped with the clock. |
| AcParser.DecodeReading | ac_manager/ac_parser.cpp:42-81 | On a frame of the right length, the only errors are display, mode and fan, each carrying its bytes. A success shows the timer or the temperature (never both), as the digit, mode and fan bytes say. |
| AcParser.DecodeReadingRejects | ac_manager/ac_parser.cpp:44-73 | The display error happens exactly when the digits are unreadable; the mode error exactly when the digits pass and the masked mode byte is not in the table; the fan error exactly when digits and mode pass and the masked fan byte is not in the table. |
| AcParser.ParseStateRejects | ac_manager/ac_parser.cpp:8-82 | On a frame that passes length, header, lit-display and required-bit checks, the display, mode and fan errors happen exactly when their check is the first to fail, in that order; on no other frame do they happen. The header mismatch is the only rejection that is not published (lines 16-20 return without publishing). |
| AcParser.DecodeReadingComplete | ac_manager/ac_parser.cpp:42-81 | Digit, mode and fan bytes that show a reading are decoded to exactly that reading. |
| AcParser.ParseStateComplete | ac_manager/ac_parser.cpp:8-82 | Every frame the reference description admits is decoded to the reading it describes. |
| AcParser.ParseStateCharacterization | ac_manager/ac_parser.cpp:8-82 | The decoder succeeds with `s` if and only if the frame is dark and `s` is the OFF reading, or the reference description admits the frame with reading `s`. |
| AcTypes.UpdateStatesWritesAll | ac_manager/ac_parser.cpp:84-92 | updateStates writes every field from its own argument: two updates agree exactly when their arguments do, and every record is the update with its own fields. |
| AcParserV12.TimerFlag | ac_manager/ac_parser_v12.cpp:31-47 | The high nibble of byte 3 is valid exactly when it is 0xD or 0x7; 0xD means timer. |
| AcParserV12.SleepFlag | ac_manager/ac_parser_v12.cpp:49-65 | The low nibble of byte 3 is valid exactly when it is 0xE or 0xF; 0xE means sleep. |
| AcParserV12.FlagsRoundTrip | ac_manager/ac_parser_v12.cpp:31-65 | The byte 3 written for any timer flag and sleep flag reads back both flags. |
| AcParserV12.FlagsComplete | ac_manager/ac_parser_v12.cpp:31-65 | Every byte 3 whose two nibbles are accepted is the encoding of the flags read from it, so no other byte is accepted. |
| AcParserV12.DecodeFanSpeed | ac_manager/ac_parser_v12.cpp:103-119 | Only the low nibble counts. It is invalid exactly outside {0x7, 0xB, 0xD, 0xE}; otherwise the speed is usable and its nibble is the input's. |
| AcParserV12.FanRoundTrip | ac_manager/ac_parser_v12.cpp:103-119 | Every usable speed written into the low nibble decodes back, whatever the high nibble holds. |
| AcParserV12.ParseState | ac_manager/ac_parser_v12.cpp:9-101 | Checks run in order: length, 0xFF header, dark display, timer nibble, sleep nibble, digits, mode, fan. Each error happens exactly under its condition (length, header, timer, sleep) or carries its bytes. Sleep is never reported. A lit reading matches the V1.2 reference description. |
| AcParserV12.ParseStateRejects | ac_manager/ac_parser_v12.cpp:9-101 | Once length, header, lit display and both nibbles of byte 3 pass, the display error happens exactly when the digits (a timer exactly for high nibble 0xD) are unreadable, the mode error exactly when the digits pass and the mode byte is not in the table, the fan error exactly when both pass and the low nibble of byte 4 is not 0x7, 0xB, 0xD or 0xE; on no other frame do they happen. The header mismatch is the only rejection not published. |
| AcParserV12.ParseStateComplete | ac_manager/ac_parser_v12.cpp:9-101 | Every frame the V1.2 reference description admits is decoded to the reading it describes. |
| AcParserV12.ParseStateCharacterization | ac_manager/ac_parser_v12.cpp:9-101 | The V1.2 decoder succeeds exactly on dark frames (OFF reading) and on frames the reference description admits. |
| AcParserV12.ZeroSleepNibbleRejected | ac_manager/ac_parser_v12.cpp:49-65 | `FF C0 F9 70 67` is rejected with INVALID SLEEP carrying 0x70, whatever the tables. |
| AcParserV12.CoolLowReading | ac_manager/ac_parser_v12.cpp:9-101 | With common-anode digits and a COOL pattern matching 0x67, `FF C0 F9 7F 67` reads 1 degree, COOL, LOW, no timer. |
| AcParserV12.BadFanNibbleRejected | ac_manager/ac_parser_v12.cpp:85-92 | The same frame with fan nibble 0xF is rejected with INVALID FAN carrying 0x6F. |
| AcParserV14.DecodeFanSpeed | ac_manager/ac_parser_v14.cpp:76-90 | Only the low nibble counts and MEDIUM never appears. It is invalid exactly outside {0x7, 0xB, 0xD}. |
| AcParserV14.FanRoundTrip | ac_manager/ac_parser_v14.cpp:76-90 | LOW, HIGH and AUTO written into the low nibble decode back, whatever the high nibble holds. |
| AcParserV14.TimerIsBitSix | ac_manager/ac_parser_v14.cpp:36-37 | The timer test (`TimerShown`) is "bit 6 of byte 4 is clear". |
| AcParserV14.ParseState | ac_manager/ac_parser_v14.cpp:9-73 | Checks run in order: length, 7F 7F header, dark display, 0xFD trailer, digits, mode, fan. Each error happens exactly under its condition or carries its bytes. A lit reading matches the V1.4 reference description. |
| AcParserV14.ParseStateRejects | ac_manager/ac_parser_v14.cpp:9-73 | Once length, header, lit display and the 0xFD trailer pass, the display error happens exactly when the digits (a timer exactly when bit 6 of byte 4 is clear) are unreadable, the mode error exactly when the digits pass and the mode byte is not in the table, the fan error exactly when both pass and the low nibble of byte 4 is not 0x7, 0xB or 0xD; on no other frame do they happen. Header and trailer mismatches are the only rejections not published. |
| AcParserV14.ParseStateComplete | ac_manager/ac_parser_v14.cpp:9-73 | Every frame the V1.4 reference description admits is decoded to the reading it describes. |
| AcParserV14.ParseStateCharacterization | ac_manager/ac_parser_v14.cpp:9-73 | The V1.4 decoder succeeds exactly on dark frames (OFF reading) and on frames the reference description admits. |
| AcParserV14.DarkFrameSkipsTrailer | ac_manager/ac_parser_v14.cpp:21-34 | The dark test comes before the trailer test, so `7F 7F FF FF FF FF` is the OFF reading although it has no 0xFD trailer. |
| AcParserV18.MakeProfile | ac_manager/ac_parser_v18.cpp:7-10 | The V1.8 tables form a profile. It is usable exactly when the open indices fit the 6-byte frame, and it meets the documented decimal-bit rule plus distinct patterns exactly when the decimal mask is 0x00 or 0x20. |
| AcParserV18.TablesDistinct | ac_manager/ac_parser_v18.cpp:8-10 | The V1.8 digit, mode and fan patterns are each pairwise distinct. |
| AcParserV18.DecimalMaskChoices | ac_manager/ac_parser_v18.cpp:8 | Every V1.8 digit pattern carries the decimal bit exactly when the mask is 0x00 or 0x20. |
| AcParserV18.DigitsRoundTrip | ac_manager/ac_parser_v18.cpp:8 | With decimal mask 0x20, each V1.8 digit pattern decodes back to its digit, with and without the decimal point lit. |
| AcParserV18.IsTimerBits | ac_manager/ac_parser_v18.cpp:12-16 | The timer rule holds exactly when bit 5 of byte 2 is clear, bits 5 and 6 of byte 4 are clear, and bit 0 of byte 5 is set. |
| AcParserV18.IsTimerReadsOnly | ac_manager/ac_parser_v18.cpp:12-16 | The timer test depends on bytes 2, 4 and 5 only. |
| AcParserV18.MaskAdmitsTimer | ac_manager/ac_parser_v18.cpp:7-16 | The required-bit mask leaves the timer bits free: `FF FF 00 20 98 A1` passes header and mask and shows a timer. |
| AcParserV18.ParseState | ac_manager/ac_parser_v18.cpp:7-16 | A V1.8 frame is rejected for length exactly when it is not 6 bytes. A lit reading has a usable mode and speed. When the timer rule holds it is a timer of 0..99 tenths with temperature 0; otherwise it is a temperature 0..99 with timer 0. |
| IrTiming.Period | ac_manager/ac_ir_controller_p.h:22 | PERIOD is the largest period p with f * p at most 1 000 000 + f / 2: 1 000 000 / f rounded to the nearest microsecond. |
| IrTiming.HighTime | ac_manager/ac_ir_controller_p.h:23 | For a duty cycle up to 100 %, HIGHTIME lies between 0 and PERIOD. |
| IrTiming.LowTime | ac_manager/ac_ir_controller_p.h:24 | For a duty cycle up to 100 %, LOWTIME lies between 0 and PERIOD. |
| IrTiming.PeriodRoundsToNearest | ac_manager/ac_ir_controller_p.h:22 | 1 000 000 differs from f * PERIOD by less than half a period either way. |
| IrTiming.DutySplitsPeriod | ac_manager/ac_ir_controller_p.h:23-24 | For a duty cycle up to 100 %, HIGHTIME and LOWTIME are non-negative and add up to PERIOD. |
| IrTiming.CarrierAt38kHz | ac_manager/ac_ir_controller_p.h:17-24 | The unparenthesised macros give the intended delays at every frequency. At 38 kHz and 50 %, PERIOD is 26, HIGHTIME and LOWTIME are 13 each, and the loop delays are 10 and 9. |
| IrController.DecodeHex | ac_manager/ac_ir_controller.cpp:22-28 | A string of hex digits (either case) reads as a value below 16^length. |
| IrController.DigitEitherCase | ac_manager/ac_ir_controller.cpp:22-28 | A lower-case digit reads the same as its upper-case form, and writing a digit's value gives its upper-case form. |
| IrController.DecodeHexComplete | ac_manager/ac_ir_controller.cpp:22-28 | Every hex string, in either case, reads as the value whose upper-case digits it spells, most significant first: writing the value back in as many digits gives the string in upper case, and the string reads the same as its upper-case form. |
| IrController.HexRoundTrip | ac_manager/ac_ir_controller.cpp:22-28 | Writing a value as n hex digits and reading them back gives the value modulo 16^n. |
| IrController.EightDigitsFit | ac_manager/ac_ir_controller.cpp:13-19 | An 8-digit command always fits the 32-bit code. |
| IrController.DecodeExample | ac_manager/ac_ir_controller.cpp:22-28 | The command "10AF8877" names the code 0x10AF8877. |
| IrController.NecFrame | ac_manager/ac_ir_controller.cpp:35-45 | A frame has 67 segments: it starts with the 9000/4500 header and ends with a bit mark. |
| IrController.NecFrameLayout | ac_manager/ac_ir_controller.cpp:37-44 | The k-th cell after the header carries bit 31-k: a 560 mark, then a 1690 space for 1 or a 560 space for 0. |
| IrController.NecFrameAlternates | ac_manager/ac_ir_controller.cpp:35-45 | Marks and spaces alternate throughout the frame, starting and ending with a mark. |
| IrController.NecRoundTrip | ac_manager/ac_ir_controller.cpp:35-45 | A receiver reading the frame recovers exactly the code sent. |
| IrController.NecFrameDuration | ac_manager/ac_ir_controller.cpp:35-45 | The frame lasts header + closing mark + 32 bit marks + one long space per 1 bit and one short space per 0 bit. |
| IrController.NecFrameDurationBounds | ac_manager/ac_ir_controller.cpp:35-45 | A frame lasts 49 900 µs plus 1130 µs per 1 bit: from 49 900 µs (code 0) to 86 060 µs (all ones). |
| IrController.Wait | ac_manager/ac_ir_controller.cpp:52-73 | As written: the target moves by the nominal length modulo 2^32. The code waits until the target, unless the clock, compared as a plain unsigned number, is already at or past it. |
| IrController.WaitWrapSafe | ac_manager/ac_ir_controller.cpp:52-73 | Corrected: the target moves as above and the wait never exceeds the segment. A segment that is not yet over ends exactly on its target (mod 2^32), also across the clock wrap; one already over is not waited for. |
| IrController.WaitAgreesWithoutWrap | ac_manager/ac_ir_controller.cpp:53-55 | Away from the wrap, the as-written and corrected waits are the same. |
| IrController.WaitSkipsWrappedMark | ac_manager/ac_ir_controller.cpp:53-55 | As written, a 9000 header mark begun 16 µs after a target of 0xFFFFFF00 is skipped entirely, where 8984 µs are still due. |
| IrController.WaitStallsAfterWrap | ac_manager/ac_ir_controller.cpp:53-58 | As written, a bit mark whose target 0xFFFFFC18 is reached when the clock has wrapped to 60 busy-waits 0xFFFFFE48 - 60 µs, almost 2^32; the corrected wait does not wait, the segment being 500 µs overdue. |
| IrController.RunTimeline | ac_manager/ac_ir_controller.cpp:52-73 | Running mark/space over a sequence, whatever the clock readings, leaves the target at start plus the nominal length (mod 2^32). Every segment not already over when reached ends exactly on its target. |
| IrController.SendNecCode | ac_manager/ac_ir_controller.cpp:30-50 | Returns 1. Sends exactly the NEC frame of the code, which a receiver decodes to that code. The final target is the start plus the frame's length, and every segment not already over when reached ends exactly on its target. |
| IrController.SendNec | ac_manager/ac_ir_controller.cpp:13-20 | A command whose length is not 8 is refused with -1 and nothing is sent. An 8-digit command sends the frame of its hexadecimal value and returns 1. |
| DisplayReader.InitialReader | ac_manager/ac_display_reader.cpp:19-21 | A started reader holds the given pins and the initial revision V1.2 (line 9). |
| DisplayReader.SetAcModel | ac_manager/ac_display_reader.cpp:43-52 | V1.2 is selected exactly for the name "V1_2", and any other name selects V1.4. The result is 12 exactly for "V1_2" and 14 otherwise, and names the selected revision; the pins are untouched. |
| DisplayReader.SetAcModelIdempotent | ac_manager/ac_display_reader.cpp:43-52 | Selecting twice by the same name is the same as selecting once, and the outcome does not depend on the revision selected before. |
| DisplayReader.InitialSelection | ac_manager/ac_display_reader.cpp:9 | A fresh reader is already on V1.2: selecting "V1_2" leaves it unchanged and reports 12; any other name moves it to V1.4. |

## Left out

- The shift-register capture interrupt, the frame scanner and the stabiliser are declared but have no bodies, so there is nothing to model.
- The Spark cloud calls are left out. `Spark.publish` becomes the typed error (`AcTypes.Published` says which errors would be published); `Spark.function` and `Spark.variable` registration are not modelled.
- Clocks are parameters. `Time.now()` is the `now` argument. `micros()` is `start` plus one clock reading per segment.
- The carrier toggling, `digitalWrite`, `delayMicroseconds`, and interrupt masking are hardware effects and are left out. Only the delay arithmetic is modelled (`IrTiming.CarrierAt38kHz`).
- The timer is kept as whole tenths (`tens * 10 + ones`), not as the `double` `tens + ones / 10.0`, which avoids floating point.
- The V1.2 and V1.4 digit and mode tables are not given in the source, so they are parameters. The same holds for the V1.8 header length, decimal mask, byte indices and OR-masks.
- `AcParserV18.ParseState` only states the length rule and the bounds of a reading. Its full behaviour is `AcParser.ParseStateCharacterization` applied to `AcParserV18.MakeProfile`.
- The `AcParserV18` overrides of `parseState` and `decodeFanSpeed` are declared in `ac_parser_v18.h` without bodies. The shared definitions are used instead.
- `IrController.SendNec` requires an 8-character command to be hexadecimal, because how `sscanf("%x")` treats other characters is not modelled. The command is a string of single-byte (ASCII) characters: `String::length()` counts bytes, so a command with multi-byte UTF-8 characters, such as "1234ÄÄ" (6 characters, 8 bytes), is not modelled.
- The timer predicate of a profile is a conjunction of bit tests, which is what V1.8 uses. The virtual `isTimer` of the code may be any function of the frame; other forms are not modelled.
- `codeBin & (1 << i)` for i = 31 shifts into the sign bit of `int`. It is modelled as a test of bit 31 of the unsigned code.
- `NEC_RPT_SPACE` and `MARK_EXCESS` are defined but never used, so they are not modelled.
- `IrController.SendNecCode` and `IrController.RunTimeline` time each segment with the corrected wrap-safe comparison (see Findings). The as-written step is `IrController.Wait`.
- `wifi_keepalive.cpp`, `ac_manager.cpp`, `irCodeScan.js` and `ac_status_reader/types.h` are not part of this model.

## Findings

| source | as written | input that shows it | evidently intended | confidence | as-written member | corrected member |
|---|---|---|---|---|---|---|
| ac_manager/ac_ir_controller.cpp:53-55 | `sigTime += mLen` wraps modulo 2^32, and `now >= sigTime` then compares the clock with the wrapped target as plain unsigned numbers. The same happens in `space` (lines 67-69). | target 0xFFFFFF00, header mark of 9000, clock 0xFFFFFF10: the new target is 8744, the clock compares as past it, and no carrier is sent | wait for the remaining 8984 µs, measuring lateness as elapsed time (`now - start`), as the wait loop on line 58 already does | medium, not executed | IrController.WaitSkipsWrappedMark | IrController.WaitWrapSafe |
| ac_manager/ac_ir_controller.cpp:53-58 | The mirror case: the target is just below 2^32, and the clock has already wrapped past it when the segment starts. `now >= sigTime` is false, so the loop on line 58 waits until the clock comes round to the target again. | previous target 0xFFFFFC18, bit mark of 560, clock 60: the new target is 0xFFFFFE48, and the code busy-waits 0xFFFFFE48 - 60 µs, about 71 minutes | skip the segment, which is already 500 µs overdue | medium, not executed | IrController.WaitStallsAfterWrap | IrController.WaitWrapSafe |
