/**
  The NEC infrared transmitter of ac_manager/ac_ir_controller.cpp.

  A command is an 8-character hexadecimal string naming a 32-bit code. The code is sent as a
  sequence of marks (carrier on) and spaces (carrier off): a header mark and space, one
  mark-and-space cell per bit, most significant bit first, and a closing mark. Every mark and
  space moves one running target time `sigTime` forward by its nominal length and waits only
  for whatever remains of it, so lateness in one segment is absorbed by the next.
 */
module IrController {
  import opened Results
  import opened IrTiming

  /** `unsigned long` and `unsigned int` are 32 bits wide on the target. */
  const Modulus: nat := 0x1_0000_0000

  type uint32 = x: int | 0 <= x < 0x1_0000_0000

  function Pow2(n: nat): (r: nat)
    ensures r > 0
  {
    if n == 0 then 1 else 2 * Pow2(n - 1)
  }

  function Pow16(n: nat): (r: nat)
    ensures r > 0
  {
    if n == 0 then 1 else 16 * Pow16(n - 1)
  }

  /** Bit `i` of `code` is 1. */
  predicate Bit(code: nat, i: nat)
  {
    (code / Pow2(i)) % 2 == 1
  }

  // ---------------------------------------------------------------------------
  // Division facts
  // ---------------------------------------------------------------------------

  lemma {:induction false} MulAtLeast(x: int, m: int)
    requires x >= 1 && m >= 0
    ensures x * m >= m
  {
    if x > 1 {
      MulAtLeast(x - 1, m);
      assert x * m == (x - 1) * m + m;
    }
  }

  /** Quotient and remainder are determined by any decomposition with a remainder in range. */
  lemma DivModUnique(v: int, m: int, k: int, t: int)
    requires m > 0 && 0 <= t < m && v == k * m + t
    ensures v / m == k && v % m == t
  {
    var q := v / m;
    var r := v % m;
    assert v == q * m + r;
    if k > q {
      MulAtLeast(k - q, m);
      assert false;
    } else if k < q {
      MulAtLeast(q - k, m);
      assert false;
    }
  }

  /** Splitting a remainder by a product: the low `a` part and the next digit in base `b`. */
  lemma ModOfProduct(v: nat, a: nat, b: nat)
    requires a > 0 && b > 0
    ensures v % (a * b) == (v / a % b) * a + v % a
  {
    var q := v / a;
    var r := v % a;
    var hi := q / b;
    var lo := q % b;
    assert v == q * a + r;
    assert q == hi * b + lo;
    assert v == hi * (a * b) + (lo * a + r) by {
      assert q * a == (hi * b + lo) * a == hi * (a * b) + lo * a;
    }
    assert lo * a + r < a * b by {
      MulAtLeast(b - lo, a);
      assert (b - lo) * a == b * a - lo * a;
    }
    DivModUnique(v, a * b, hi, lo * a + r);
  }

  lemma ModAdd(x: nat, y: nat, m: nat)
    requires m > 0
    ensures (x % m + y) % m == (x + y) % m
  {
    var q := x / m;
    var r := x % m;
    var q2 := (r + y) / m;
    var r2 := (r + y) % m;
    assert x + y == (q + q2) * m + r2 by {
      assert x == q * m + r;
      assert r + y == q2 * m + r2;
      assert (q + q2) * m == q * m + q2 * m;
    }
    DivModUnique(x + y, m, q + q2, r2);
  }

  // ---------------------------------------------------------------------------
  // Hexadecimal commands
  // ---------------------------------------------------------------------------

  predicate IsHexDigit(c: char)
  {
    '0' <= c <= '9' || 'a' <= c <= 'f' || 'A' <= c <= 'F'
  }

  predicate AllHex(s: string)
  {
    forall i :: 0 <= i < |s| ==> IsHexDigit(s[i])
  }

  function HexValue(c: char): (v: nat)
    requires IsHexDigit(c)
    ensures v < 16
  {
    if '0' <= c <= '9' then c as int - '0' as int
    else if 'a' <= c <= 'f' then c as int - 'a' as int + 10
    else c as int - 'A' as int + 10
  }

  /** The upper-case digit for a value below 16. */
  function HexChar(v: nat): (c: char)
    requires v < 16
    ensures IsHexDigit(c) && HexValue(c) == v
  {
    if v < 10 then ('0' as int + v) as char else ('A' as int + v - 10) as char
  }

  /** decodeNECHex: the value of a string of hexadecimal digits, most significant first. */
  function DecodeHex(s: string): (v: nat)
    requires AllHex(s)
    ensures v < Pow16(|s|)
  {
    if |s| == 0 then 0
    else
      var prefix := s[..|s| - 1];
      assert AllHex(prefix);
      DecodeHex(prefix) * 16 + HexValue(s[|s| - 1])
  }

  /** The `n` low hexadecimal digits of `v`, upper case, most significant first. */
  function EncodeHex(v: nat, n: nat): (s: string)
    ensures |s| == n && AllHex(s)
  {
    if n == 0 then [] else EncodeHex(v / 16, n - 1) + [HexChar(v % 16)]
  }

  /** Reading back the digits gives the value they were written from, modulo their width. */
  lemma {:induction false} HexRoundTrip(v: nat, n: nat)
    ensures DecodeHex(EncodeHex(v, n)) == v % Pow16(n)
  {
    if n > 0 {
      var s := EncodeHex(v, n);
      assert s[..n - 1] == EncodeHex(v / 16, n - 1);
      HexRoundTrip(v / 16, n - 1);
      ModOfProduct(v, 16, Pow16(n - 1));
    }
  }

  /** Eight digits always fit the 32-bit result. */
  lemma EightDigitsFit(s: string)
    requires |s| == 8 && AllHex(s)
    ensures DecodeHex(s) < Modulus
  {
    assert Pow16(8) == Modulus;
  }

  /** One more digit shifts the value up by a digit's width. */
  lemma DecodeHexSnoc(s: string, c: char)
    requires AllHex(s) && IsHexDigit(c)
    ensures AllHex(s + [c]) && DecodeHex(s + [c]) == DecodeHex(s) * 16 + HexValue(c)
  {
    assert (s + [c])[..|s|] == s;
  }

  /** The upper-case form of a hexadecimal digit. */
  function UpperHex(c: char): (u: char)
    requires IsHexDigit(c)
    ensures IsHexDigit(u) && !('a' <= u <= 'f')
  {
    if 'a' <= c <= 'f' then (c as int - 'a' as int + 'A' as int) as char else c
  }

  /** The upper-case form of a hexadecimal string. */
  function ToUpper(s: string): (u: string)
    requires AllHex(s)
    ensures |u| == |s| && AllHex(u)
  {
    if |s| == 0 then []
    else
      var prefix := s[..|s| - 1];
      assert AllHex(prefix);
      ToUpper(prefix) + [UpperHex(s[|s| - 1])]
  }

  /** A digit reads the same in either case, and writing its value gives its upper-case form. */
  lemma DigitEitherCase(c: char)
    requires IsHexDigit(c)
    ensures HexValue(UpperHex(c)) == HexValue(c)
    ensures HexChar(HexValue(c)) == UpperHex(c)
  {
  }

  /** Every hexadecimal string, in either case, is read as the value whose upper-case digits
      it spells: writing the value back gives the string in upper case, and the string reads
      the same as its upper-case form. */
  lemma {:induction false} DecodeHexComplete(s: string)
    requires AllHex(s)
    ensures EncodeHex(DecodeHex(s), |s|) == ToUpper(s)
    ensures DecodeHex(ToUpper(s)) == DecodeHex(s)
  {
    if |s| > 0 {
      var n := |s|;
      var prefix := s[..n - 1];
      var c := s[n - 1];
      assert AllHex(prefix);
      DecodeHexComplete(prefix);
      DigitEitherCase(c);
      var v := DecodeHex(s);
      assert v == DecodeHex(prefix) * 16 + HexValue(c);
      assert v / 16 == DecodeHex(prefix) && v % 16 == HexValue(c);
    }
    HexRoundTrip(DecodeHex(s), |s|);
  }

  lemma DecodeExample()
    ensures DecodeHex("10AF8877") == 0x10AF8877
  {
    var s1 := [] + ['1'];
    DecodeHexSnoc([], '1');
    var s2 := s1 + ['0'];
    DecodeHexSnoc(s1, '0');
    var s3 := s2 + ['A'];
    DecodeHexSnoc(s2, 'A');
    var s4 := s3 + ['F'];
    DecodeHexSnoc(s3, 'F');
    var s5 := s4 + ['8'];
    DecodeHexSnoc(s4, '8');
    var s6 := s5 + ['8'];
    DecodeHexSnoc(s5, '8');
    var s7 := s6 + ['7'];
    DecodeHexSnoc(s6, '7');
    DecodeHexSnoc(s7, '7');
    assert s7 + ['7'] == "10AF8877";
  }

  // ---------------------------------------------------------------------------
  // NEC frames
  // ---------------------------------------------------------------------------

  datatype Segment = Mark(duration: nat) | Space(duration: nat)

  /** The space that follows a bit mark. */
  function SpaceFor(bit: bool): nat
  {
    if bit then NecOneSpace else NecZeroSpace
  }

  /** One bit: a bit mark, then a long space for 1 or a short space for 0. */
  function BitCell(bit: bool): seq<Segment>
  {
    [Mark(NecBitMark), Space(SpaceFor(bit))]
  }

  /** The cells of bits n-1 down to 0 of `code`. */
  function BitCells(code: nat, n: nat): (s: seq<Segment>)
    ensures |s| == 2 * n
  {
    if n == 0 then [] else BitCell(Bit(code, n - 1)) + BitCells(code, n - 1)
  }

  /** The segments sendNECCode produces for `code`. */
  function NecFrame(code: uint32): (s: seq<Segment>)
    ensures |s| == 2 + 2 * NecBits + 1
    ensures s[0] == Mark(NecHdrMark) && s[1] == Space(NecHdrSpace) && s[|s| - 1] == Mark(NecBitMark)
  {
    [Mark(NecHdrMark), Space(NecHdrSpace)] + BitCells(code, NecBits) + [Mark(NecBitMark)]
  }

  /** The cell of the `k`-th bit sent. */
  function CellAt(s: seq<Segment>, k: nat): seq<Segment>
    requires 2 * k + 4 <= |s|
  {
    s[2 * k + 2 .. 2 * k + 4]
  }

  lemma {:induction false} BitCellsLayout(code: nat, n: nat, k: nat)
    requires k < n
    ensures BitCells(code, n)[2 * k .. 2 * k + 2] == BitCell(Bit(code, n - 1 - k))
  {
    if k > 0 {
      BitCellsLayout(code, n - 1, k - 1);
      assert BitCells(code, n)[2 * k .. 2 * k + 2] == BitCells(code, n - 1)[2 * (k - 1) .. 2 * (k - 1) + 2];
    }
  }

  /** Bits go out most significant first: the k-th cell after the header carries bit 31 - k. */
  lemma NecFrameLayout(code: uint32)
    ensures forall k :: 0 <= k < NecBits ==> CellAt(NecFrame(code), k) == BitCell(Bit(code, NecBits - 1 - k))
  {
    var s := NecFrame(code);
    forall k | 0 <= k < NecBits
      ensures CellAt(s, k) == BitCell(Bit(code, NecBits - 1 - k))
    {
      BitCellsLayout(code, NecBits, k);
      assert CellAt(s, k) == BitCells(code, NecBits)[2 * k .. 2 * k + 2];
    }
  }

  lemma {:induction false} BitCellsAlternate(code: nat, n: nat)
    ensures forall i :: 0 <= i < 2 * n ==> (BitCells(code, n)[i].Mark? <==> i % 2 == 0)
  {
    if n > 0 {
      var rest := BitCells(code, n - 1);
      BitCellsAlternate(code, n - 1);
      var s := BitCells(code, n);
      assert s == BitCell(Bit(code, n - 1)) + rest;
      forall i | 0 <= i < 2 * n
        ensures s[i].Mark? <==> i % 2 == 0
      {
        if i >= 2 {
          assert s[i] == rest[i - 2];
          assert (i - 2) % 2 == i % 2;
        }
      }
    }
  }

  /** Marks and spaces alternate, starting and ending with a mark. */
  lemma NecFrameAlternates(code: uint32)
    ensures forall i :: 0 <= i < |NecFrame(code)| ==> (NecFrame(code)[i].Mark? <==> i % 2 == 0)
  {
    var s := NecFrame(code);
    var cells := BitCells(code, NecBits);
    BitCellsAlternate(code, NecBits);
    forall i | 0 <= i < |s|
      ensures s[i].Mark? <==> i % 2 == 0
    {
      if 2 <= i < 2 + 2 * NecBits {
        assert s[i] == cells[i - 2];
        assert cells[i - 2].Mark? <==> (i - 2) % 2 == 0;
      }
    }
  }

  /** The bit a mark-and-space cell encodes, if it is a well-formed cell. */
  function CellBit(m: Segment, sp: Segment): Option<bool>
  {
    if m == Mark(NecBitMark) && sp == Space(NecOneSpace) then Some(true)
    else if m == Mark(NecBitMark) && sp == Space(NecZeroSpace) then Some(false)
    else None
  }

  /** A receiver's reading of `n` cells, most significant bit first. */
  function DecodeCells(s: seq<Segment>, n: nat): (r: Option<nat>)
    requires |s| == 2 * n
    ensures r.Some? ==> r.value < Pow2(n)
  {
    if n == 0 then Some(0)
    else
      match CellBit(s[0], s[1])
      case None => None
      case Some(b) =>
        match DecodeCells(s[2..], n - 1)
        case None => None
        case Some(v) => Some((if b then Pow2(n - 1) else 0) + v)
  }

  /** A receiver's reading of a whole NEC frame. */
  function DecodeNecFrame(s: seq<Segment>): Option<nat>
  {
    if |s| == 2 + 2 * NecBits + 1 && s[0] == Mark(NecHdrMark) && s[1] == Space(NecHdrSpace)
       && s[|s| - 1] == Mark(NecBitMark)
    then DecodeCells(s[2 .. 2 + 2 * NecBits], NecBits)
    else None
  }

  /** The top bit and the bits below it make up the low `n + 1` bits. */
  lemma TopBitValue(code: nat, n: nat)
    ensures (if Bit(code, n) then Pow2(n) else 0) + code % Pow2(n) == code % Pow2(n + 1)
  {
    ModOfProduct(code, Pow2(n), 2);
    assert Pow2(n + 1) == Pow2(n) * 2;
  }

  /** A cell decodes to the bit it was made from. */
  lemma CellDecodes(bit: bool)
    ensures CellBit(BitCell(bit)[0], BitCell(bit)[1]) == Some(bit)
  {
  }

  lemma {:induction false} CellsRoundTrip(code: nat, n: nat)
    ensures DecodeCells(BitCells(code, n), n) == Some(code % Pow2(n))
  {
    if n > 0 {
      var cell := BitCell(Bit(code, n - 1));
      var rest := BitCells(code, n - 1);
      var s := BitCells(code, n);
      assert s == cell + rest;
      assert s[0] == cell[0] && s[1] == cell[1];
      assert s[2..] == rest;
      CellDecodes(Bit(code, n - 1));
      CellsRoundTrip(code, n - 1);
      TopBitValue(code, n - 1);
    }
  }

  /** Eight more bits scale by 256. */
  lemma Pow2Byte(n: nat)
    ensures Pow2(n + 8) == 256 * Pow2(n)
  {
    assert Pow2(n + 8) == 2 * Pow2(n + 7) == 4 * Pow2(n + 6) == 8 * Pow2(n + 5) == 16 * Pow2(n + 4);
    assert Pow2(n + 4) == 2 * Pow2(n + 3) == 4 * Pow2(n + 2) == 8 * Pow2(n + 1) == 16 * Pow2(n);
  }

  lemma Pow2Of32()
    ensures Pow2(NecBits) == Modulus
  {
    Pow2Byte(0);
    Pow2Byte(8);
    Pow2Byte(16);
    Pow2Byte(24);
  }

  /** A receiver recovers exactly the code that was sent. */
  lemma NecRoundTrip(code: uint32)
    ensures DecodeNecFrame(NecFrame(code)) == Some(code)
  {
    var s := NecFrame(code);
    assert s[2 .. 2 + 2 * NecBits] == BitCells(code, NecBits);
    CellsRoundTrip(code, NecBits);
    Pow2Of32();
    DivModUnique(code, Pow2(NecBits), 0, code);
    assert DecodeNecFrame(s) == DecodeCells(BitCells(code, NecBits), NecBits);
  }

  // ---------------------------------------------------------------------------
  // Durations
  // ---------------------------------------------------------------------------

  /** Nominal length of a sequence of segments. */
  function Duration(s: seq<Segment>): nat
  {
    if |s| == 0 then 0 else Duration(s[..|s| - 1]) + s[|s| - 1].duration
  }

  lemma {:induction false} DurationAppend(a: seq<Segment>, b: seq<Segment>)
    ensures Duration(a + b) == Duration(a) + Duration(b)
  {
    if |b| == 0 {
      assert a + b == a;
    } else {
      var ab := a + b;
      assert ab[..|ab| - 1] == a + b[..|b| - 1];
      assert ab[|ab| - 1] == b[|b| - 1];
      DurationAppend(a, b[..|b| - 1]);
    }
  }

  /** Number of 1 bits among bits 0 .. n-1. */
  function Ones(code: nat, n: nat): (r: nat)
    ensures r <= n
  {
    if n == 0 then 0 else (if Bit(code, n - 1) then 1 else 0) + Ones(code, n - 1)
  }

  lemma CellDuration(bit: bool)
    ensures Duration(BitCell(bit)) == NecBitMark + SpaceFor(bit)
  {
    var c := BitCell(bit);
    assert c[..1] == [Mark(NecBitMark)];
    assert [Mark(NecBitMark)][..0] == [];
    assert Duration([Mark(NecBitMark)]) == NecBitMark;
    assert Duration(c) == Duration(c[..1]) + c[1].duration;
  }

  lemma {:induction false} CellsDuration(code: nat, n: nat)
    ensures Duration(BitCells(code, n)) == n * NecBitMark + Ones(code, n) * NecOneSpace + (n - Ones(code, n)) * NecZeroSpace
  {
    if n > 0 {
      var bit := Bit(code, n - 1);
      var ones := Ones(code, n - 1);
      CellsDuration(code, n - 1);
      DurationAppend(BitCell(bit), BitCells(code, n - 1));
      CellDuration(bit);
      assert n * NecBitMark == (n - 1) * NecBitMark + NecBitMark;
      if bit {
        assert Ones(code, n) == ones + 1;
        assert (ones + 1) * NecOneSpace == ones * NecOneSpace + NecOneSpace;
        assert n - (ones + 1) == (n - 1) - ones;
      } else {
        assert Ones(code, n) == ones;
        assert (n - ones) * NecZeroSpace == ((n - 1) - ones) * NecZeroSpace + NecZeroSpace;
      }
    }
  }

  /** A frame lasts the header, the closing mark, 32 bit marks and one space per bit. */
  lemma NecFrameDuration(code: uint32)
    ensures Duration(NecFrame(code)) ==
      NecHdrMark + NecHdrSpace + NecBits * NecBitMark
      + Ones(code, NecBits) * NecOneSpace + (NecBits - Ones(code, NecBits)) * NecZeroSpace
      + NecBitMark
  {
    var header := [Mark(NecHdrMark), Space(NecHdrSpace)];
    CellsDuration(code, NecBits);
    DurationAppend(header, BitCells(code, NecBits));
    DurationAppend(header + BitCells(code, NecBits), [Mark(NecBitMark)]);
    assert header[..1] == [Mark(NecHdrMark)];
    assert [Mark(NecHdrMark)][..0] == [];
    assert [Mark(NecBitMark)][..0] == [];
  }

  /** A frame lasts from 49.9 ms (code 0, all short spaces) to 86.06 ms (all ones), and each
      1 bit adds the difference between a long and a short space. */
  lemma NecFrameDurationBounds(code: uint32)
    ensures Duration(NecFrame(code)) == 49900 + Ones(code, NecBits) * (NecOneSpace - NecZeroSpace)
    ensures 49900 <= Duration(NecFrame(code)) <= 86060
  {
    NecFrameDuration(code);
  }

  // ---------------------------------------------------------------------------
  // Drift-compensated timing
  // ---------------------------------------------------------------------------

  /** After one mark or space: the new target time and how long the code busy-waited. */
  datatype Step = Step(sigTime: uint32, waited: nat)

  /** The timing of mark and space as written: the target moves by the nominal length, whatever
      the clock says; the code waits until the target unless the clock reading `now`, taken
      after the target moved, is already at or past it. The comparison is a plain unsigned one. */
  function Wait(sigTime: uint32, len: nat, now: uint32): (r: Step)
    ensures r.sigTime == (sigTime + len) % Modulus
    ensures now >= r.sigTime ==> r.waited == 0
    ensures now < r.sigTime ==> now + r.waited == r.sigTime
  {
    var target := (sigTime + len) % Modulus;
    if now >= target then Step(target, 0) else Step(target, target - now)
  }

  /** Microseconds from `from` to `now` on the wrapping 32-bit clock. */
  function Elapsed(from: uint32, now: uint32): (e: uint32)
    ensures (from + e) % Modulus == now
  {
    var e := (now - from) % Modulus;
    DivModUnique(now - from, Modulus, (now - from) / Modulus, e);
    DivModUnique(from + e, Modulus, if now < from then 1 else 0, now);
    e
  }

  /** The timing of mark and space with lateness measured as elapsed time, which survives the
      clock wrapping: the segment ends on its target unless it started too late. */
  function WaitWrapSafe(sigTime: uint32, len: nat, now: uint32): (r: Step)
    requires len < Modulus
    ensures r.sigTime == (sigTime + len) % Modulus
    ensures r.waited <= len
    ensures Elapsed(sigTime, now) < len ==> (now + r.waited) % Modulus == r.sigTime
    ensures Elapsed(sigTime, now) >= len ==> r.waited == 0
  {
    var target := (sigTime + len) % Modulus;
    var e := Elapsed(sigTime, now);
    if e >= len then Step(target, 0)
    else
      var r := Step(target, len - e);
      assert (now + r.waited) % Modulus == target by {
        ModAdd(sigTime + e, len - e, Modulus);
      }
      r
  }

  /** Away from the wrap both waits agree. */
  lemma WaitAgreesWithoutWrap(sigTime: uint32, len: nat, now: uint32)
    requires sigTime + len < Modulus && sigTime <= now
    ensures Wait(sigTime, len, now) == WaitWrapSafe(sigTime, len, now)
  {
    DivModUnique(now - sigTime, Modulus, 0, now - sigTime);
  }

  /** As written, a header mark whose target wraps past zero is skipped: 16 microseconds after
      a target of 0xFFFFFF00 the code sees the clock "past" the new target 8744 and sends no
      carrier, where 8984 microseconds of mark are still due. */
  lemma WaitSkipsWrappedMark()
    ensures Wait(0xFFFF_FF00, NecHdrMark, 0xFFFF_FF10).waited == 0
    ensures WaitWrapSafe(0xFFFF_FF00, NecHdrMark, 0xFFFF_FF10).waited == NecHdrMark - 0x10
  {
    assert Elapsed(0xFFFF_FF00, 0xFFFF_FF10) == 0x10;
  }

  /** As written, a bit mark whose target 0xFFFFFC18 lies just below the wrap, reached when the
      clock has already wrapped to 60, waits for the wrapped target 0xFFFFFE48: almost 2^32 µs,
      although the segment was due 500 µs ago. The corrected wait does not wait at all. */
  lemma WaitStallsAfterWrap()
    ensures Wait(0xFFFF_FC18, NecBitMark, 60).waited == 0xFFFF_FE48 - 60
    ensures WaitWrapSafe(0xFFFF_FC18, NecBitMark, 60).waited == 0
  {
    assert Elapsed(0xFFFF_FC18, 60) == 1060;
  }

  /** Where segment `k` of a transmission that started at `start` begins and ends. */
  function SegmentStart(start: uint32, segments: seq<Segment>, k: nat): uint32
    requires k <= |segments|
  {
    (start + Duration(segments[..k])) % Modulus
  }

  function Target(start: uint32, segments: seq<Segment>, k: nat): uint32
    requires k < |segments|
  {
    SegmentStart(start, segments, k + 1)
  }

  /** A segment that is not already over when the code reaches it ends exactly on its target;
      one that is over is not waited for. */
  predicate EndsOnTarget(begin: uint32, now: uint32, waited: nat, len: nat, target: uint32)
  {
    if Elapsed(begin, now) < len then (now + waited) % Modulus == target else waited == 0
  }

  /** Each segment begins where the one before it was due to end. */
  lemma SegmentStartStep(start: uint32, segments: seq<Segment>, i: nat)
    requires i < |segments|
    ensures SegmentStart(start, segments, i + 1) == (SegmentStart(start, segments, i) + segments[i].duration) % Modulus
  {
    assert segments[..i + 1][..i] == segments[..i];
    ModAdd(start + Duration(segments[..i]), segments[i].duration, Modulus);
  }

  /** The wrap-safe wait makes segment `i` end on its target. */
  lemma WaitEndsOnTarget(start: uint32, segments: seq<Segment>, i: nat, now: uint32)
    requires i < |segments| && segments[i].duration < Modulus
    ensures EndsOnTarget(SegmentStart(start, segments, i), now,
      WaitWrapSafe(SegmentStart(start, segments, i), segments[i].duration, now).waited,
      segments[i].duration, Target(start, segments, i))
  {
    SegmentStartStep(start, segments, i);
  }

  predicate ShortSegments(segments: seq<Segment>)
  {
    forall k :: 0 <= k < |segments| ==> segments[k].duration < Modulus
  }

  /** The first |waits| segments each ended on target or were not waited for. */
  predicate Timed(start: uint32, segments: seq<Segment>, clock: seq<uint32>, waits: seq<nat>)
    requires |waits| <= |segments| == |clock|
  {
    forall k :: 0 <= k < |waits| ==>
      EndsOnTarget(SegmentStart(start, segments, k), clock[k], waits[k], segments[k].duration, Target(start, segments, k))
  }

  lemma TimedExtend(start: uint32, segments: seq<Segment>, clock: seq<uint32>, waits: seq<nat>, w: nat)
    requires |waits| < |segments| == |clock| && Timed(start, segments, clock, waits)
    requires EndsOnTarget(SegmentStart(start, segments, |waits|), clock[|waits|], w, segments[|waits|].duration, Target(start, segments, |waits|))
    ensures Timed(start, segments, clock, waits + [w])
  {
    var next := waits + [w];
    forall k | 0 <= k < |next|
      ensures EndsOnTarget(SegmentStart(start, segments, k), clock[k], next[k], segments[k].duration, Target(start, segments, k))
    {
      if k < |waits| {
        assert next[k] == waits[k];
      }
    }
  }

  /** What one transmission did: the segments sent, the final target time and the time waited
      in each segment. */
  datatype Transmission = Transmission(segments: seq<Segment>, sigTime: uint32, waits: seq<nat>)

  /** Runs mark and space over `segments`, given the clock reading of each one. Whatever the
      readings, the final target is the start plus the nominal length of the whole sequence. */
  /** After the last segment the target is the start plus the whole duration. */
  lemma SegmentStartEnd(start: uint32, segments: seq<Segment>)
    ensures SegmentStart(start, segments, |segments|) == (start + Duration(segments)) % Modulus
  {
    assert segments[..|segments|] == segments;
    assert Duration(segments[..|segments|]) == Duration(segments);
  }

  /** One more segment keeps the timeline: the wrap-safe wait moves the target to where the
      next segment starts, and the segment ends on its target. */
  lemma TimelineStep(start: uint32, segments: seq<Segment>, clock: seq<uint32>, waits: seq<nat>)
    requires |waits| < |segments| == |clock| && ShortSegments(segments)
    requires Timed(start, segments, clock, waits)
    ensures var i := |waits|;
      var step := WaitWrapSafe(SegmentStart(start, segments, i), segments[i].duration, clock[i]);
      && step.sigTime == SegmentStart(start, segments, i + 1)
      && Timed(start, segments, clock, waits + [step.waited])
  {
    var i := |waits|;
    SegmentStartStep(start, segments, i);
    WaitEndsOnTarget(start, segments, i, clock[i]);
    var step := WaitWrapSafe(SegmentStart(start, segments, i), segments[i].duration, clock[i]);
    TimedExtend(start, segments, clock, waits, step.waited);
  }

  method RunTimeline(segments: seq<Segment>, start: uint32, clock: seq<uint32>) returns (tx: Transmission)
    requires |clock| == |segments| && ShortSegments(segments)
    ensures tx.segments == segments
    ensures tx.sigTime == (start + Duration(tx.segments)) % Modulus
    ensures |tx.waits| == |tx.segments|
    ensures forall k :: 0 <= k < |tx.segments| ==>
      EndsOnTarget(SegmentStart(start, tx.segments, k), clock[k], tx.waits[k], tx.segments[k].duration, Target(start, tx.segments, k))
  {
    var sigTime := start;
    var waits := [];
    while |waits| < |segments|
      invariant |waits| <= |segments|
      invariant sigTime == SegmentStart(start, segments, |waits|)
      invariant Timed(start, segments, clock, waits)
    {
      var i := |waits|;
      var step := WaitWrapSafe(sigTime, segments[i].duration, clock[i]);
      TimelineStep(start, segments, clock, waits);
      waits := waits + [step.waited];
      sigTime := step.sigTime;
    }
    SegmentStartEnd(start, segments);
    tx := Transmission(segments, sigTime, waits);
  }

  /** No NEC segment is anywhere near the clock's range. */
  lemma NecFrameShort(code: uint32)
    ensures ShortSegments(NecFrame(code))
  {
    var s := NecFrame(code);
    forall k | 0 <= k < |s|
      ensures s[k].duration <= NecHdrMark
    {
      if 2 <= k < 2 + 2 * NecBits {
        var j := (k - 2) / 2;
        BitCellsLayout(code, NecBits, j);
        assert s[k] == BitCells(code, NecBits)[k - 2];
        assert BitCells(code, NecBits)[k - 2] == BitCells(code, NecBits)[2 * j .. 2 * j + 2][k - 2 - 2 * j];
      }
    }
  }

  /** sendNECCode: `start` is the clock when the transmission begins and `clock` the reading
      taken in each of the 67 marks and spaces. */
  method SendNecCode(code: uint32, start: uint32, clock: seq<uint32>) returns (status: int, tx: Transmission)
    requires |clock| == 2 + 2 * NecBits + 1
    ensures status == 1
    ensures tx.segments == NecFrame(code)
    ensures DecodeNecFrame(tx.segments) == Some(code)
    ensures tx.sigTime == (start + Duration(tx.segments)) % Modulus
    ensures |tx.waits| == |tx.segments|
    ensures forall k :: 0 <= k < |tx.segments| ==>
      EndsOnTarget(SegmentStart(start, tx.segments, k), clock[k], tx.waits[k], tx.segments[k].duration, Target(start, tx.segments, k))
  {
    var segments := NecFrame(code);
    NecFrameShort(code);
    NecRoundTrip(code);
    tx := RunTimeline(segments, start, clock);
    status := 1;
  }

  /** sendNEC: a command of any length but 8 is refused with -1 before anything is sent;
      otherwise the decoded code is transmitted and 1 returned. */
  method SendNec(command: string, start: uint32, clock: seq<uint32>) returns (status: int, tx: Option<Transmission>)
    requires |command| == 8 ==> AllHex(command)
    requires |clock| == 2 + 2 * NecBits + 1
    ensures |command| != 8 <==> status == -1
    ensures |command| != 8 ==> tx == None
    ensures |command| == 8 ==> status == 1 && tx.Some? && DecodeNecFrame(tx.value.segments) == Some(DecodeHex(command))
    ensures |command| == 8 ==> tx.Some? && tx.value.segments == NecFrame(DecodeHex(command))
  {
    if |command| != 8 {
      return -1, None;
    }
    EightDigitsFit(command);
    var codeBin: uint32 := DecodeHex(command);
    var t;
    status, t := SendNecCode(codeBin, start, clock);
    tx := Some(t);
  }
}
