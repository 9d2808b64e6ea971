/**
 Bit stuffing as the modulator does it, and the demodulator's bit-level receiver: an 8-bit
 shift register that finds flags, drops stuffed zeros and assembles bytes (scripts/afsk.py).
 */
module Hdlc {
  import opened Bits
  import opened Framing

  // --- Sending side: a zero after every five ones ---

  function StuffBit(bit: bool, ones: nat): seq<bool> {
    if bit && ones + 1 >= 5 then [true, false] else [bit]
  }

  function OnesAfterBit(bit: bool, ones: nat): nat {
    if bit && ones + 1 < 5 then ones + 1 else 0
  }

  function Stuff(bits: seq<bool>, ones: nat): seq<bool>
    decreases |bits|
  {
    if bits == [] then [] else StuffBit(bits[0], ones) + Stuff(bits[1..], OnesAfterBit(bits[0], ones))
  }

  /** The stuffing counter after `bits`. */
  function OnesAfter(bits: seq<bool>, ones: nat): (n: nat)
    ensures ones <= 4 ==> n <= 4
    decreases |bits|
  {
    if bits == [] then ones else OnesAfter(bits[1..], OnesAfterBit(bits[0], ones))
  }

  lemma {:induction false} StuffConcat(a: seq<bool>, b: seq<bool>, ones: nat)
    ensures Stuff(a + b, ones) == Stuff(a, ones) + Stuff(b, OnesAfter(a, ones))
    ensures OnesAfter(a + b, ones) == OnesAfter(b, OnesAfter(a, ones))
    decreases |a|
  {
    if a == [] {
      assert a + b == b;
    } else {
      assert (a + b)[1..] == a[1..] + b;
      StuffConcat(a[1..], b, OnesAfterBit(a[0], ones));
    }
  }

  lemma StuffFrom(bits: seq<bool>, i: nat, ones: nat)
    requires i < |bits|
    ensures Stuff(bits[i..], ones) == StuffBit(bits[i], ones) + Stuff(bits[i + 1..], OnesAfterBit(bits[i], ones))
  {
    assert bits[i..][1..] == bits[i + 1..];
  }

  lemma StuffNothing(bits: seq<bool>, ones: nat)
    ensures Stuff(bits[|bits|..], ones) == [] && bits[0..] == bits
  {
  }

  function Ones(n: nat): (s: seq<bool>)
    ensures |s| == n
  {
    if n == 0 then [] else [true] + Ones(n - 1)
  }

  const FLAG_BITS: seq<bool> := [false] + Ones(6) + [false]

  lemma FlagBits()
    ensures LsbFirst(HDLC_FLAG) == FLAG_BITS == [false, true, true, true, true, true, true, false]
  {
    assert Ones(6) == [true] + ([true] + ([true] + ([true] + ([true] + ([true] + Ones(0))))));
  }

  /** Six ones in a row from position `i`. */
  predicate SixOnesAt(s: seq<bool>, i: nat)
    requires i + 6 <= |s|
  {
    s[i] && s[i + 1] && s[i + 2] && s[i + 3] && s[i + 4] && s[i + 5]
  }

  /** No run of ones grows past five, counting `run` ones before `s`. */
  predicate RunsBelowSix(s: seq<bool>, run: nat)
    decreases |s|
  {
    s == [] || (if s[0] then run + 1 <= 5 && RunsBelowSix(s[1..], run + 1) else RunsBelowSix(s[1..], 0))
  }

  lemma {:induction false} StuffedRuns(bits: seq<bool>, ones: nat)
    requires ones <= 4
    ensures RunsBelowSix(Stuff(bits, ones), ones)
    decreases |bits|
  {
    if bits != [] {
      var rest := Stuff(bits[1..], OnesAfterBit(bits[0], ones));
      StuffedRuns(bits[1..], OnesAfterBit(bits[0], ones));
      var s := Stuff(bits, ones);
      if bits[0] && ones == 4 {
        assert s[1..] == [false] + rest && s[1..][1..] == rest;
      } else {
        assert s[1..] == rest;
      }
    }
  }

  lemma {:induction false} NoSixOnes(s: seq<bool>, run: nat, i: nat)
    requires RunsBelowSix(s, run) && i + 6 <= |s|
    ensures !SixOnesAt(s, i)
    decreases |s|
  {
    if i > 0 {
      NoSixOnes(s[1..], if s[0] then run + 1 else 0, i - 1);
    } else if SixOnesAt(s, 0) {
      LeadingOnes(s, run, 6);
    }
  }

  lemma {:induction false} LeadingOnes(s: seq<bool>, run: nat, n: nat)
    requires RunsBelowSix(s, run) && n <= |s|
    requires forall j | 0 <= j < n :: s[j]
    ensures n > 0 ==> run + n <= 5
    decreases n
  {
    if n > 0 {
      LeadingOnes(s[1..], run + 1, n - 1);
    }
  }

  /** Between two flags no payload can imitate a flag or a reset: six ones occur in the flags and nowhere else. */
  lemma FlagsOnlyAtEnds(bits: seq<bool>, i: nat)
    requires i + 6 <= |FLAG_BITS + Stuff(bits, 0) + FLAG_BITS|
    ensures SixOnesAt(FLAG_BITS + Stuff(bits, 0) + FLAG_BITS, i) <==> i == 1 || i == 8 + |Stuff(bits, 0)| + 1
  {
    var body := Stuff(bits, 0);
    var w := FLAG_BITS + body + FLAG_BITS;
    FlagBits();
    StuffedRuns(bits, 0);
    assert !w[0] && !w[7] && !w[8 + |body|] && !w[15 + |body|];
    if 8 <= i && i + 6 <= 8 + |body| {
      NoSixOnes(body, 0, i - 8);
      assert w[i] == body[i - 8] && w[i + 1] == body[i - 7] && w[i + 2] == body[i - 6];
      assert w[i + 3] == body[i - 5] && w[i + 4] == body[i - 4] && w[i + 5] == body[i - 3];
    }
  }

  /** Drop the bit after every five ones. */
  function Destuff(s: seq<bool>, ones: nat): seq<bool>
    decreases |s|
  {
    if s == [] then []
    else if ones == 5 then Destuff(s[1..], 0)
    else [s[0]] + Destuff(s[1..], if s[0] then ones + 1 else 0)
  }

  /** Stuffing is undone by dropping the bit after every five ones, so no two payloads look alike on the air. */
  lemma {:induction false} DestuffStuff(bits: seq<bool>, ones: nat)
    requires ones <= 4
    ensures Destuff(Stuff(bits, ones), ones) == bits
    decreases |bits|
  {
    if bits != [] {
      var rest := Stuff(bits[1..], OnesAfterBit(bits[0], ones));
      var s := Stuff(bits, ones);
      DestuffStuff(bits[1..], OnesAfterBit(bits[0], ones));
      if bits[0] && ones == 4 {
        assert s[1..] == [false] + rest && s[1..][1..] == rest;
        assert Destuff(s[1..], 5) == Destuff(rest, 0);
      } else {
        assert s[1..] == rest;
      }
    }
  }

  /** Stuffing adds at most one bit in five. */
  lemma {:induction false} StuffedLength(bits: seq<bool>, ones: nat)
    requires ones <= 4
    ensures |bits| <= |Stuff(bits, ones)|
    ensures 5 * |Stuff(bits, ones)| <= 6 * |bits| + ones
    decreases |bits|
  {
    if bits != [] {
      StuffedLength(bits[1..], OnesAfterBit(bits[0], ones));
    }
  }

  // --- Receiving side ---

  datatype RxState = RxState(demodBits: bv8, rxStart: bool, currChar: byte, bitIdx: nat)

  const FRESH := RxState(0, false, 0, 0)

  /** The state that every flag leaves behind. */
  const SYNCED := RxState(0x7e, true, 0, 0)

  function ShiftIn(demod: bv8, bit: bool): bv8 {
    if bit then (demod << 1) | 1 else demod << 1
  }

  function RxStep(s: RxState, bit: bool): (RxState, seq<byte>) {
    var demod := ShiftIn(s.demodBits, bit);
    if demod == HDLC_FLAG then
      (RxState(demod, true, 0, 0), [HDLC_FLAG])
    else if demod & HDLC_RESET == HDLC_RESET then
      (RxState(demod, false, s.currChar, s.bitIdx), [])
    else if !s.rxStart then
      (RxState(demod, false, s.currChar, s.bitIdx), [])
    else if demod & 0x3f == 0x3e then
      (RxState(demod, true, s.currChar, s.bitIdx), [])
    else
      var currChar := if demod & 0x01 != 0 then s.currChar | 0x80 else s.currChar;
      if s.bitIdx + 1 >= 8 then
        (RxState(demod, true, 0, 0), EscapeByte(currChar))
      else
        (RxState(demod, true, currChar >> 1, s.bitIdx + 1), [])
  }

  function RxRun(s: RxState, bits: seq<bool>): (RxState, seq<byte>)
    decreases |bits|
  {
    if bits == [] then (s, [])
    else
      var (t, out) := RxStep(s, bits[0]);
      var (u, rest) := RxRun(t, bits[1..]);
      (u, out + rest)
  }

  class Hdlc {
    var demodBits: bv8
    var rxStart: bool
    var currChar: byte
    var bitIdx: nat

    function State(): RxState
      reads this
    {
      RxState(demodBits, rxStart, currChar, bitIdx)
    }

    constructor ()
      ensures State() == FRESH
    {
      demodBits, rxStart, currChar, bitIdx := 0, false, 0, 0;
    }

    method Parse(bit: bool) returns (out: seq<byte>)
      modifies this
      ensures (State(), out) == RxStep(old(State()), bit)
    {
      hide ShiftIn;
      demodBits := ShiftIn(demodBits, bit);

      // HDLC flag
      if demodBits == HDLC_FLAG {
        rxStart := true;
        currChar := 0;
        bitIdx := 0;
        return [HDLC_FLAG];
      }

      // Reset
      if demodBits & HDLC_RESET == HDLC_RESET {
        rxStart := false;
        return [];
      }

      if !rxStart {
        return [];
      }

      // Stuffed bit
      if demodBits & 0x3f == 0x3e {
        return [];
      }

      if demodBits & 0x01 != 0 {
        currChar := currChar | 0x80;
      }

      bitIdx := bitIdx + 1;
      out := [];
      if bitIdx >= 8 {
        if currChar == HDLC_FLAG || currChar == HDLC_RESET || currChar == AX25_ESC {
          out := out + [AX25_ESC];
        }
        out := out + [currChar];
        assert out == EscapeByte(currChar);
        currChar := 0;
        bitIdx := 0;
      } else {
        currChar := currChar >> 1;
      }
    }
  }

  lemma {:induction false} RxConcat(s: RxState, a: seq<bool>, b: seq<bool>)
    ensures var (t, out) := RxRun(s, a);
      var (u, rest) := RxRun(t, b);
      RxRun(s, a + b) == (u, out + rest)
    decreases |a|
  {
    if a == [] {
      assert a + b == b;
      assert [] + RxRun(s, b).1 == RxRun(s, b).1;
    } else {
      assert (a + b)[1..] == a[1..] + b;
      var (t, first) := RxStep(s, a[0]);
      RxConcat(t, a[1..], b);
      var (u, mid) := RxRun(t, a[1..]);
      var rest := RxRun(u, b).1;
      assert first + (mid + rest) == (first + mid) + rest;
    }
  }

  // --- The receiver undoes the stuffing ---

  /** Byte assembly without any framing: what the receiver should do with the unstuffed bits. */
  function Assemble(currChar: byte, idx: nat, bit: bool): (byte, nat, seq<byte>) {
    var c := if bit then currChar | 0x80 else currChar;
    if idx + 1 >= 8 then (0, 0, EscapeByte(c)) else (c >> 1, idx + 1, [])
  }

  function AssembleAll(currChar: byte, idx: nat, bits: seq<bool>): (byte, nat, seq<byte>)
    decreases |bits|
  {
    if bits == [] then (currChar, idx, [])
    else
      var (c, i, out) := Assemble(currChar, idx, bits[0]);
      var (d, j, rest) := AssembleAll(c, i, bits[1..]);
      (d, j, out + rest)
  }

  /** The shift register ends in a zero and exactly `ones` ones. */
  predicate Tail(demod: bv8, ones: nat) {
    match ones
    case 0 => demod & 1 == 0
    case 1 => demod & 3 == 1
    case 2 => demod & 7 == 3
    case 3 => demod & 15 == 7
    case 4 => demod & 31 == 15
    case 5 => demod & 63 == 31
    case 6 => demod & 127 == 63
    case _ => false
  }

  lemma ShiftOne(d: bv8, e: bv8, ones: nat)
    requires Tail(d, ones) && ones <= 5 && e == ShiftIn(d, true)
    ensures Tail(e, ones + 1) && e & 1 != 0
    ensures e != HDLC_FLAG && e & HDLC_RESET != HDLC_RESET && e & 0x3f != 0x3e
  {
  }

  lemma ShiftZero(d: bv8, e: bv8, ones: nat)
    requires Tail(d, ones) && e == ShiftIn(d, false)
    ensures Tail(e, 0) && e & 1 == 0
    ensures e == HDLC_FLAG <==> ones == 6
    ensures e & HDLC_RESET != HDLC_RESET
    ensures e & 0x3f == 0x3e <==> ones >= 5
  {
  }

  lemma RxOneBit(s: RxState, bit: bool)
    ensures RxRun(s, [bit]) == RxStep(s, bit)
  {
    var (t, out) := RxStep(s, bit);
    assert RxRun(t, []) == (t, []);
    assert out + [] == out;
  }

  lemma RxOne(s: RxState, ones: nat)
    requires Tail(s.demodBits, ones) && ones <= 5
    ensures var (t, out) := RxStep(s, true);
      && t.rxStart == s.rxStart && Tail(t.demodBits, ones + 1)
      && (t.currChar, t.bitIdx, out)
         == if !s.rxStart then (s.currChar, s.bitIdx, []) else Assemble(s.currChar, s.bitIdx, true)
  {
    hide ShiftIn, Tail, EscapeByte;
    ShiftOne(s.demodBits, ShiftIn(s.demodBits, true), ones);
  }

  lemma RxZero(s: RxState, ones: nat)
    requires Tail(s.demodBits, ones) && ones <= 5
    ensures var (t, out) := RxStep(s, false);
      && t.rxStart == s.rxStart && Tail(t.demodBits, 0)
      && (t.currChar, t.bitIdx, out)
         == if !s.rxStart || ones == 5 then (s.currChar, s.bitIdx, [])
            else Assemble(s.currChar, s.bitIdx, false)
  {
    hide ShiftIn, Tail, EscapeByte;
    ShiftZero(s.demodBits, ShiftIn(s.demodBits, false), ones);
  }

  /** Any bit after at most four ones is data, and so is the sixth one; a zero after five ones is dropped. */
  lemma RxBit(s: RxState, bit: bool, ones: nat)
    requires Tail(s.demodBits, ones) && ones <= 5
    ensures var (t, out) := RxStep(s, bit);
      && t.rxStart == s.rxStart && Tail(t.demodBits, if bit then ones + 1 else 0)
      && (t.currChar, t.bitIdx, out)
         == if !s.rxStart || (ones == 5 && !bit) then (s.currChar, s.bitIdx, [])
            else Assemble(s.currChar, s.bitIdx, bit)
  {
    hide RxStep, Assemble, Tail;
    if bit {
      RxOne(s, ones);
    } else {
      RxZero(s, ones);
    }
  }

  lemma RxDataBit(s: RxState, bit: bool, ones: nat)
    requires s.rxStart && Tail(s.demodBits, ones) && ones <= 4
    ensures var (t, out) := RxRun(s, StuffBit(bit, ones));
      && t.rxStart && Tail(t.demodBits, OnesAfterBit(bit, ones))
      && (t.currChar, t.bitIdx, out) == Assemble(s.currChar, s.bitIdx, bit)
  {
    RxBit(s, bit, ones);
    RxOneBit(s, bit);
    if bit && ones == 4 {
      var (t, out) := RxStep(s, true);
      RxBit(t, false, 5);
      RxOneBit(t, false);
      assert [true, false] == [true] + [false];
      RxConcat(s, [true], [false]);
      assert out + [] == out;
    }
  }

  /** The receiver drops exactly the stuffed zeros: it sees the unstuffed bits. */
  lemma {:induction false} RxStuffed(s: RxState, bits: seq<bool>, ones: nat)
    requires s.rxStart && Tail(s.demodBits, ones) && ones <= 4
    ensures var (t, out) := RxRun(s, Stuff(bits, ones));
      && t.rxStart && Tail(t.demodBits, OnesAfter(bits, ones))
      && (t.currChar, t.bitIdx, out) == AssembleAll(s.currChar, s.bitIdx, bits)
    decreases |bits|
  {
    if bits != [] {
      var next := OnesAfterBit(bits[0], ones);
      RxDataBit(s, bits[0], ones);
      RxConcat(s, StuffBit(bits[0], ones), Stuff(bits[1..], next));
      RxStuffed(RxRun(s, StuffBit(bits[0], ones)).0, bits[1..], next);
    }
  }

  /** An unsynchronised receiver lets stuffed bits pass in silence. */
  lemma {:induction false} RxDeaf(s: RxState, bits: seq<bool>, ones: nat)
    requires !s.rxStart && Tail(s.demodBits, ones) && ones <= 4
    ensures var (t, out) := RxRun(s, Stuff(bits, ones));
      out == [] && !t.rxStart && Tail(t.demodBits, OnesAfter(bits, ones))
    decreases |bits|
  {
    hide Tail, ShiftIn;
    if bits != [] {
      var next := OnesAfterBit(bits[0], ones);
      var t := RxStep(s, bits[0]).0;
      RxBit(s, bits[0], ones);
      RxOneBit(s, bits[0]);
      if bits[0] && ones == 4 {
        RxBit(t, false, 5);
        RxOneBit(t, false);
        assert [true, false] == [true] + [false];
        RxConcat(s, [true], [false]);
      }
      RxConcat(s, StuffBit(bits[0], ones), Stuff(bits[1..], next));
      RxDeaf(RxRun(s, StuffBit(bits[0], ones)).0, bits[1..], next);
    }
  }

  /** The partly assembled byte after `i` of its bits. */
  function Partial(c: byte, i: nat): byte {
    match i
    case 0 => 0
    case 1 => (c << 7) >> 1
    case 2 => (c << 6) >> 1
    case 3 => (c << 5) >> 1
    case 4 => (c << 4) >> 1
    case 5 => (c << 3) >> 1
    case 6 => (c << 2) >> 1
    case _ => (c << 1) >> 1
  }

  lemma AddBit(c: byte, i: nat)
    requires i < 8
    ensures var p := if Bit(c, i) then Partial(c, i) | 0x80 else Partial(c, i);
      if i == 7 then p == c else p >> 1 == Partial(c, i + 1)
  {
  }

  lemma {:induction false} AssembleRest(c: byte, i: nat)
    requires i < 8
    ensures AssembleAll(Partial(c, i), i, LsbFirst(c)[i..]) == (0, 0, EscapeByte(c))
    decreases 8 - i
  {
    hide Partial, Bit, EscapeByte;
    var b := LsbFirst(c);
    AddBit(c, i);
    assert b[i..][0] == Bit(c, i) && b[i..][1..] == b[i + 1..];
    if i == 7 {
      assert b[8..] == [];
      assert EscapeByte(c) + [] == EscapeByte(c);
    } else {
      AssembleRest(c, i + 1);
      assert [] + EscapeByte(c) == EscapeByte(c);
    }
  }

  lemma {:induction false} AssembleConcat(c: byte, i: nat, a: seq<bool>, b: seq<bool>)
    ensures var (d, j, out) := AssembleAll(c, i, a);
      var (e, k, rest) := AssembleAll(d, j, b);
      AssembleAll(c, i, a + b) == (e, k, out + rest)
    decreases |a|
  {
    if a == [] {
      assert a + b == b;
      assert [] + AssembleAll(c, i, b).2 == AssembleAll(c, i, b).2;
    } else {
      assert (a + b)[1..] == a[1..] + b;
      var (d, j, first) := Assemble(c, i, a[0]);
      AssembleConcat(d, j, a[1..], b);
      var (e, k, mid) := AssembleAll(d, j, a[1..]);
      var rest := AssembleAll(e, k, b).2;
      assert first + (mid + rest) == (first + mid) + rest;
    }
  }

  lemma {:induction false} AssembleMessage(m: seq<byte>)
    ensures AssembleAll(0, 0, MessageBits(true, m)) == (0, 0, Escape(m))
  {
    if m != [] {
      var b := LsbFirst(m[0]);
      assert b[0..] == b;
      AssembleRest(m[0], 0);
      AssembleConcat(0, 0, b, MessageBits(true, m[1..]));
      AssembleMessage(m[1..]);
    }
  }

  /** A stuffed message, received after a flag or after another stuffed message, comes out escaped and nothing else. */
  lemma RxMessage(s: RxState, m: seq<byte>, ones: nat)
    requires s.rxStart && s.currChar == 0 && s.bitIdx == 0
    requires Tail(s.demodBits, ones) && ones <= 4
    ensures var (t, out) := RxRun(s, Stuff(MessageBits(true, m), ones));
      && out == Escape(m)
      && t == RxState(t.demodBits, true, 0, 0) && Tail(t.demodBits, OnesAfter(MessageBits(true, m), ones))
  {
    RxStuffed(s, MessageBits(true, m), ones);
    AssembleMessage(m);
  }

  // --- Flags ---

  function ShiftAll(demod: bv8, bits: seq<bool>): bv8
    decreases |bits|
  {
    if bits == [] then demod else ShiftAll(ShiftIn(demod, bits[0]), bits[1..])
  }

  lemma {:induction false} RxShifts(s: RxState, bits: seq<bool>)
    ensures RxRun(s, bits).0.demodBits == ShiftAll(s.demodBits, bits)
    decreases |bits|
  {
    if bits != [] {
      RxShifts(RxStep(s, bits[0]).0, bits[1..]);
    }
  }

  lemma {:induction false} OnesShift(d: bv8, ones: nat, n: nat)
    requires Tail(d, ones) && ones + n <= 6
    ensures Tail(ShiftAll(d, Ones(n)), ones + n)
    decreases n
  {
    hide Tail, ShiftIn;
    if n > 0 {
      assert Ones(n)[1..] == Ones(n - 1);
      ShiftOne(d, ShiftIn(d, true), ones);
      OnesShift(ShiftIn(d, true), ones + 1, n - 1);
    }
  }

  /** What a receiver in any state emits for a flag before the flag itself. */
  function BeforeFlag(s: RxState): seq<byte> {
    RxRun(s, [false] + Ones(6)).1
  }

  /** From any state at all, eight flag bits force the synchronised state and end in the flag. */
  lemma FlagSyncs(s: RxState)
    ensures RxRun(s, FLAG_BITS) == (SYNCED, BeforeFlag(s) + [HDLC_FLAG])
  {
    var head := [false] + Ones(6);
    var t := RxRun(s, head).0;
    RxConcat(s, head, [false]);
    RxShifts(s, head);
    assert head[1..] == Ones(6);
    assert Tail(ShiftIn(s.demodBits, false), 0);
    OnesShift(ShiftIn(s.demodBits, false), 0, 6);
    ShiftZero(t.demodBits, ShiftIn(t.demodBits, false), 6);
    RxOneBit(t, false);
  }

  /** Ones that do not complete a byte or reach seven in a row are swallowed silently. */
  lemma {:induction false} RxOnes(s: RxState, ones: nat, n: nat)
    requires Tail(s.demodBits, ones) && ones + n <= 6
    requires s.rxStart ==> s.bitIdx + n <= 7
    ensures var (t, out) := RxRun(s, Ones(n));
      out == [] && t.rxStart == s.rxStart && Tail(t.demodBits, ones + n)
    decreases n
  {
    hide Tail, ShiftIn;
    if n > 0 {
      assert Ones(n)[1..] == Ones(n - 1);
      RxBit(s, true, ones);
      RxOnes(RxStep(s, true).0, ones + 1, n - 1);
    }
  }

  /** A flag right after a message, or heard by an unsynchronised receiver, emits nothing but the flag. */
  lemma FlagIsClean(s: RxState, ones: nat)
    requires Tail(s.demodBits, ones) && ones <= 4
    requires s.rxStart ==> s.bitIdx == 0
    ensures RxRun(s, FLAG_BITS) == (SYNCED, [HDLC_FLAG])
  {
    FlagSyncs(s);
    RxBit(s, false, ones);
    var t := RxStep(s, false).0;
    RxOnes(t, 0, 6);
    RxOneBit(s, false);
    RxConcat(s, [false], Ones(6));
    assert RxStep(s, false).1 == [];
    assert BeforeFlag(s) == [];
    assert [] + [HDLC_FLAG] == [HDLC_FLAG];
  }

  /** A flag whose first bit was misread: seven ones and a zero. */
  const LOST_FLAG: seq<bool> := [true] + Ones(6) + [false]

  /** The misread flag is a reset: the receiver goes deaf until the next flag. */
  lemma LostFlagResets(s: RxState)
    ensures var t := RxRun(s, LOST_FLAG).0; !t.rxStart && Tail(t.demodBits, 0)
  {
    var head := [true] + Ones(5);
    var t := RxRun(s, head).0;
    assert LOST_FLAG == head + [true, false];
    RxConcat(s, head, [true, false]);
    RxShifts(s, head);
    assert head[1..] == Ones(5);
    OnesFill(ShiftIn(s.demodBits, true), 1, 5);
    var u := RxStep(t, true).0;
    assert u.demodBits & HDLC_RESET == HDLC_RESET && !u.rxStart;
    assert [true, false][1..] == [false];
    RxOneBit(u, false);
    assert RxStep(u, false).0.demodBits & 3 == 2;
  }

  /** Between frames, and when fresh, the receiver takes the misread flag in silence. */
  lemma LostFlagIsSilent(s: RxState)
    requires Tail(s.demodBits, 0) && (s.rxStart ==> s.bitIdx == 0)
    ensures RxRun(s, LOST_FLAG).1 == []
  {
    var t := RxRun(s, Ones(6)).0;
    assert LOST_FLAG == Ones(6) + ([true] + [false]);
    RxOnes(s, 0, 6);
    RxConcat(s, Ones(6), [true] + [false]);
    RxConcat(t, [true], [false]);
    RxOneBit(t, true);
    var u := RxStep(t, true).0;
    assert u.demodBits == 0x7f;
    RxOneBit(u, false);
    assert RxStep(u, false).0.demodBits == 0xfe;
  }

  lemma OnesAreTrue(n: nat)
    ensures forall i :: 0 <= i < n ==> Ones(n)[i]
  {
    if n > 0 {
      OnesAreTrue(n - 1);
    }
  }

  /** A receiver that has been reset stays deaf for as long as the ones last, and at the zero behind them. */
  lemma {:induction false} DeafOnes(s: RxState, n: nat)
    requires !s.rxStart && s.demodBits & HDLC_RESET == HDLC_RESET
    ensures RxRun(s, Ones(n) + [false]).1 == []
    decreases n
  {
    if n == 0 {
      assert Ones(0) + [false] == [false];
      RxOneBit(s, false);
      assert ShiftIn(s.demodBits, false) == 0xfe;
    } else {
      assert (Ones(n) + [false])[1..] == Ones(n - 1) + [false];
      assert ShiftIn(s.demodBits, true) & HDLC_RESET == HDLC_RESET && ShiftIn(s.demodBits, true) != HDLC_FLAG;
      DeafOnes(RxStep(s, true).0, n - 1);
    }
  }

  /** The same right after a message: the reset comes before the ones make up a byte. */
  lemma LostFlagAfterMessage(s: RxState, ones: nat)
    requires Tail(s.demodBits, ones) && ones <= 4 && s.bitIdx == 0
    ensures RxRun(s, LOST_FLAG).1 == []
  {
    var head, tail := Ones(6 - ones), Ones(ones) + [false];
    var t := RxRun(s, head).0;
    assert LOST_FLAG == head + ([true] + tail) by {
      OnesAreTrue(6);
      OnesAreTrue(ones);
      OnesAreTrue(6 - ones);
    }
    RxOnes(s, ones, 6 - ones);
    RxConcat(s, head, [true] + tail);
    RxConcat(t, [true], tail);
    RxOneBit(t, true);
    var u := RxStep(t, true).0;
    SeventhOne(t.demodBits);
    DeafOnes(u, ones);
  }

  lemma SeventhOne(d: bv8)
    requires Tail(d, 6)
    ensures ShiftIn(d, true) & HDLC_RESET == HDLC_RESET && ShiftIn(d, true) != HDLC_FLAG
  {
  }

  /** The last `n` received bits, at most six, are all ones. */
  predicate EndsInOnes(d: bv8, n: nat) {
    match n
    case 1 => d & 1 == 1
    case 2 => d & 3 == 3
    case 3 => d & 7 == 7
    case 4 => d & 15 == 15
    case 5 => d & 31 == 31
    case 6 => d & 63 == 63
    case _ => false
  }

  lemma FillOne(d: bv8, ones: nat)
    requires EndsInOnes(d, ones) && ones <= 5
    ensures EndsInOnes(ShiftIn(d, true), ones + 1)
  {
  }

  lemma {:induction false} OnesFill(d: bv8, ones: nat, n: nat)
    requires EndsInOnes(d, ones) && ones + n <= 6
    ensures EndsInOnes(ShiftAll(d, Ones(n)), ones + n)
    decreases n
  {
    hide EndsInOnes, ShiftIn;
    if n > 0 {
      assert Ones(n)[1..] == Ones(n - 1);
      FillOne(d, ones);
      OnesFill(ShiftIn(d, true), ones + 1, n - 1);
    }
  }
}
