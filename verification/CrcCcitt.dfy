/**
 The reflected CRC-CCITT shared by the firmware (bertos/algo/crc_ccitt.c) and the ground
 modem (scripts/crc_ccitt.py): table-driven update, its meaning as polynomial division, the
 good-frame residue and the errors it is certain to detect.
 */
module CrcCcitt {
  import opened Bits
  import P = PolyDivision

  const INIT_VAL: bv16 := 0xffff

  /** One of sixteen values: a row of a lookup table. */
  function Pick(k: bv8, v0: bv16, v1: bv16, v2: bv16, v3: bv16, v4: bv16, v5: bv16, v6: bv16, v7: bv16,
                v8: bv16, v9: bv16, va: bv16, vb: bv16, vc: bv16, vd: bv16, ve: bv16, vf: bv16): bv16
  {
    match k
    case 0 => v0 case 1 => v1 case 2 => v2 case 3 => v3
    case 4 => v4 case 5 => v5 case 6 => v6 case 7 => v7
    case 8 => v8 case 9 => v9 case 10 => va case 11 => vb
    case 12 => vc case 13 => vd case 14 => ve case _ => vf
  }

  /** The program's lookup table, sixteen entries a row. */
  function Table(i: bv8): bv16 {
    var k := i & 0x0f;
    match i >> 4
    case 0x0 => Pick(k, 0x0000, 0x1189, 0x2312, 0x329b, 0x4624, 0x57ad, 0x6536, 0x74bf,
                       0x8c48, 0x9dc1, 0xaf5a, 0xbed3, 0xca6c, 0xdbe5, 0xe97e, 0xf8f7)
    case 0x1 => Pick(k, 0x1081, 0x0108, 0x3393, 0x221a, 0x56a5, 0x472c, 0x75b7, 0x643e,
                       0x9cc9, 0x8d40, 0xbfdb, 0xae52, 0xdaed, 0xcb64, 0xf9ff, 0xe876)
    case 0x2 => Pick(k, 0x2102, 0x308b, 0x0210, 0x1399, 0x6726, 0x76af, 0x4434, 0x55bd,
                       0xad4a, 0xbcc3, 0x8e58, 0x9fd1, 0xeb6e, 0xfae7, 0xc87c, 0xd9f5)
    case 0x3 => Pick(k, 0x3183, 0x200a, 0x1291, 0x0318, 0x77a7, 0x662e, 0x54b5, 0x453c,
                       0xbdcb, 0xac42, 0x9ed9, 0x8f50, 0xfbef, 0xea66, 0xd8fd, 0xc974)
    case 0x4 => Pick(k, 0x4204, 0x538d, 0x6116, 0x709f, 0x0420, 0x15a9, 0x2732, 0x36bb,
                       0xce4c, 0xdfc5, 0xed5e, 0xfcd7, 0x8868, 0x99e1, 0xab7a, 0xbaf3)
    case 0x5 => Pick(k, 0x5285, 0x430c, 0x7197, 0x601e, 0x14a1, 0x0528, 0x37b3, 0x263a,
                       0xdecd, 0xcf44, 0xfddf, 0xec56, 0x98e9, 0x8960, 0xbbfb, 0xaa72)
    case 0x6 => Pick(k, 0x6306, 0x728f, 0x4014, 0x519d, 0x2522, 0x34ab, 0x0630, 0x17b9,
                       0xef4e, 0xfec7, 0xcc5c, 0xddd5, 0xa96a, 0xb8e3, 0x8a78, 0x9bf1)
    case 0x7 => Pick(k, 0x7387, 0x620e, 0x5095, 0x411c, 0x35a3, 0x242a, 0x16b1, 0x0738,
                       0xffcf, 0xee46, 0xdcdd, 0xcd54, 0xb9eb, 0xa862, 0x9af9, 0x8b70)
    case 0x8 => Pick(k, 0x8408, 0x9581, 0xa71a, 0xb693, 0xc22c, 0xd3a5, 0xe13e, 0xf0b7,
                       0x0840, 0x19c9, 0x2b52, 0x3adb, 0x4e64, 0x5fed, 0x6d76, 0x7cff)
    case 0x9 => Pick(k, 0x9489, 0x8500, 0xb79b, 0xa612, 0xd2ad, 0xc324, 0xf1bf, 0xe036,
                       0x18c1, 0x0948, 0x3bd3, 0x2a5a, 0x5ee5, 0x4f6c, 0x7df7, 0x6c7e)
    case 0xa => Pick(k, 0xa50a, 0xb483, 0x8618, 0x9791, 0xe32e, 0xf2a7, 0xc03c, 0xd1b5,
                       0x2942, 0x38cb, 0x0a50, 0x1bd9, 0x6f66, 0x7eef, 0x4c74, 0x5dfd)
    case 0xb => Pick(k, 0xb58b, 0xa402, 0x9699, 0x8710, 0xf3af, 0xe226, 0xd0bd, 0xc134,
                       0x39c3, 0x284a, 0x1ad1, 0x0b58, 0x7fe7, 0x6e6e, 0x5cf5, 0x4d7c)
    case 0xc => Pick(k, 0xc60c, 0xd785, 0xe51e, 0xf497, 0x8028, 0x91a1, 0xa33a, 0xb2b3,
                       0x4a44, 0x5bcd, 0x6956, 0x78df, 0x0c60, 0x1de9, 0x2f72, 0x3efb)
    case 0xd => Pick(k, 0xd68d, 0xc704, 0xf59f, 0xe416, 0x90a9, 0x8120, 0xb3bb, 0xa232,
                       0x5ac5, 0x4b4c, 0x79d7, 0x685e, 0x1ce1, 0x0d68, 0x3ff3, 0x2e7a)
    case 0xe => Pick(k, 0xe70e, 0xf687, 0xc41c, 0xd595, 0xa12a, 0xb0a3, 0x8238, 0x93b1,
                       0x6b46, 0x7acf, 0x4854, 0x59dd, 0x2d62, 0x3ceb, 0x0e70, 0x1ff9)
    case _   => Pick(k, 0xf78f, 0xe606, 0xd49d, 0xc514, 0xb1ab, 0xa022, 0x92b9, 0x8330,
                       0x7bc7, 0x6a4e, 0x58d5, 0x495c, 0x3de3, 0x2c6a, 0x1ef1, 0x0f78)
  }

  function Upd(c: byte, crc: bv16): bv16 {
    Fold(crc, Table(Index(c, crc)))
  }

  function Index(c: byte, crc: bv16): bv8 {
    ((crc ^ c as bv16) & 0xff) as bv8
  }

  function Fold(crc: bv16, entry: bv16): bv16 {
    (crc >> 8) ^ entry
  }

  /** The CRC of a buffer, started from `crc`. */
  function CrcOf(crc: bv16, m: seq<byte>): bv16
    decreases |m|
  {
    if m == [] then crc else CrcOf(Upd(m[0], crc), m[1..])
  }

  method Crc(crc: bv16, buffer: array<byte>, len: nat) returns (r: bv16)
    requires len <= buffer.Length
    ensures r == CrcOf(crc, buffer[..len])
  {
    r := crc;
    var i := 0;
    while i < len
      invariant 0 <= i <= len
      invariant CrcOf(crc, buffer[..len]) == CrcOf(r, buffer[i..len])
    {
      assert buffer[i..len][1..] == buffer[i + 1..len];
      r := Upd(buffer[i], r);
      i := i + 1;
    }
  }

  lemma {:induction false} CrcConcat(crc: bv16, a: seq<byte>, b: seq<byte>)
    ensures CrcOf(crc, a + b) == CrcOf(CrcOf(crc, a), b)
    decreases |a|
  {
    if a == [] {
      assert a + b == b;
    } else {
      assert (a + b)[1..] == a[1..] + b;
      CrcConcat(Upd(a[0], crc), a[1..], b);
    }
  }

  // --- A known value ---

  lemma NextByte(crc: bv16, m: seq<byte>, i: nat)
    requires i < |m|
    ensures CrcOf(crc, m[i..]) == CrcOf(Upd(m[i], crc), m[i + 1..])
  {
    hide Upd;
    assert m[i..][1..] == m[i + 1..];
  }

  lemma NoMore(crc: bv16, m: seq<byte>)
    ensures CrcOf(crc, m[|m|..]) == crc && m[0..] == m
  {
  }

  lemma DigitStepsOne()
    ensures Upd(0x31, 0xffff) == 0x2f8d
    ensures Upd(0x32, 0x2f8d) == 0x4d53
    ensures Upd(0x33, 0x4d53) == 0x634b
  {
  }

  lemma DigitStepsTwo()
    ensures Upd(0x34, 0x634b) == 0x8b13
    ensures Upd(0x35, 0x8b13) == 0x44bf
    ensures Upd(0x36, 0x44bf) == 0x198d
  {
  }

  lemma DigitStepsThree()
    ensures Upd(0x37, 0x198d) == 0x1ac8
    ensures Upd(0x38, 0x1ac8) == 0xf795
    ensures Upd(0x39, 0xf795) == 0x6f91
  {
  }

  /** The CRC of the digits one to nine, as the program's own test has it. */
  lemma CheckValue()
    ensures CrcOf(INIT_VAL, [0x31, 0x32, 0x33, 0x34, 0x35, 0x36, 0x37, 0x38, 0x39]) == 0x6f91
  {
    hide Upd, CrcOf;
    var digits := [0x31, 0x32, 0x33, 0x34, 0x35, 0x36, 0x37, 0x38, 0x39];
    DigitStepsOne();
    DigitStepsTwo();
    DigitStepsThree();
    NextByte(0xffff, digits, 0);
    NextByte(0x2f8d, digits, 1);
    NextByte(0x4d53, digits, 2);
    NextByte(0x634b, digits, 3);
    NextByte(0x8b13, digits, 4);
    NextByte(0x44bf, digits, 5);
    NextByte(0x198d, digits, 6);
    NextByte(0x1ac8, digits, 7);
    NextByte(0xf795, digits, 8);
    NoMore(0x6f91, digits);
  }

  // --- The table is eight clocks of the shift register ---

  function BitStep(crc: bv16): bv16 {
    (crc >> 1) ^ ((crc & 1) * 0x8408)
  }

  function Steps(crc: bv16, n: nat): bv16
    decreases n
  {
    if n == 0 then crc else Steps(BitStep(crc), n - 1)
  }

  lemma EightSteps(w: bv16)
    ensures Steps(w, 8) == BitStep(BitStep(BitStep(BitStep(BitStep(BitStep(BitStep(BitStep(w))))))))
  {
  }

  lemma TableStart(i: bv8)
    requires i < 0x08
    ensures Table(i) == Steps(i as bv16, 8)
  {
    hide Steps;
    EightSteps(i as bv16);
    assert i >> 4 == 0;
  }

  lemma TableNext(i: bv8)
    requires i >> 3 == 1
    ensures Table(i) == Steps(i as bv16, 8)
  {
    hide Steps;
    EightSteps(i as bv16);
    assert i >> 4 == 0;
  }

  lemma TableSixteenth1(i: bv8)
    requires i >> 4 == 1
    ensures Table(i) == Steps(i as bv16, 8)
  {
    hide Steps;
    EightSteps(i as bv16);
  }

  lemma TableEighth1(i: bv8)
    requires i >> 5 == 1
    ensures Table(i) == Steps(i as bv16, 8)
  {
    hide Steps;
    EightSteps(i as bv16);
  }

  lemma TableQuarter0(i: bv8)
    requires i < 0x40
    ensures Table(i) == Steps(i as bv16, 8)
  {
    hide Table, Steps;
    if i < 0x08 {
      TableStart(i);
    } else if i < 0x10 {
      TableNext(i);
    } else if i < 0x20 {
      TableSixteenth1(i);
    } else {
      TableEighth1(i);
    }
  }

  lemma TableQuarter1(i: bv8)
    requires i >> 6 == 1
    ensures Table(i) == Steps(i as bv16, 8)
  {
    EightSteps(i as bv16);
  }

  lemma TableQuarter2(i: bv8)
    requires i >> 6 == 2
    ensures Table(i) == Steps(i as bv16, 8)
  {
    EightSteps(i as bv16);
  }

  lemma TableQuarter3(i: bv8)
    requires i >> 6 == 3
    ensures Table(i) == Steps(i as bv16, 8)
  {
    EightSteps(i as bv16);
  }

  /** Every table entry is its index shifted through the register eight times. */
  lemma TableIsSteps(i: bv8)
    ensures Table(i) == Steps(i as bv16, 8)
  {
    match i >> 6 {
      case 0 => TableQuarter0(i);
      case 1 => TableQuarter1(i);
      case 2 => TableQuarter2(i);
      case _ => TableQuarter3(i);
    }
  }

  /** The register word as polynomial coefficients, highest power first: reflected, so from bit 0 up. */
  function RegisterOf(w: bv16): P.Register {
    LsbFirst((w & 0xff) as bv8) + LsbFirst((w >> 8) as bv8)
  }

  predicate Represents(w: bv16, r: P.Register) {
    RepresentsLow(w, r) && RepresentsHigh(w, r)
  }

  predicate RepresentsLow(w: bv16, r: P.Register) {
    && r[0] == (w & 0x0001 != 0) && r[1] == (w & 0x0002 != 0) && r[2] == (w & 0x0004 != 0) && r[3] == (w & 0x0008 != 0)
    && r[4] == (w & 0x0010 != 0) && r[5] == (w & 0x0020 != 0) && r[6] == (w & 0x0040 != 0) && r[7] == (w & 0x0080 != 0)
  }

  predicate RepresentsHigh(w: bv16, r: P.Register) {
    && r[8] == (w & 0x0100 != 0) && r[9] == (w & 0x0200 != 0) && r[10] == (w & 0x0400 != 0) && r[11] == (w & 0x0800 != 0)
    && r[12] == (w & 0x1000 != 0) && r[13] == (w & 0x2000 != 0) && r[14] == (w & 0x4000 != 0) && r[15] == (w & 0x8000 != 0)
  }

  lemma RegisterDetermined(w: bv16, r: P.Register, s: P.Register)
    requires Represents(w, r) && Represents(w, s)
    ensures r == s
  {
  }

  lemma ShiftRight(w: bv16, r: P.Register)
    requires Represents(w, r)
    ensures Represents(w >> 1, r[1..] + [false])
  {
  }

  lemma AddGenerator(w: bv16, r: P.Register)
    requires Represents(w, r)
    ensures Represents(w ^ 0x8408, P.AddPrefix(r, P.GENERATOR))
  {
    P.GeneratorTerms();
  }

  lemma BitStepOdd(w: bv16)
    requires w & 1 == 1
    ensures BitStep(w) == (w >> 1) ^ 0x8408
  {
  }

  lemma BitStepEven(w: bv16)
    requires w & 1 == 0
    ensures BitStep(w) == w >> 1
  {
  }

  lemma ClockOut(w: bv16, x: bv16, r: P.Register)
    requires Represents(w, r)
    requires x == if r[0] then (w >> 1) ^ 0x8408 else w >> 1
    ensures Represents(x, P.Clock(r, false))
  {
    ShiftRight(w, r);
    AddGenerator(w >> 1, r[1..] + [false]);
  }

  /** One shift of the word is one clock of the register. */
  lemma BitStepIsClock(w: bv16, r: P.Register)
    requires Represents(w, r)
    ensures Represents(BitStep(w), P.Clock(r, false))
  {
    if r[0] {
      LowBit(w);
      BitStepOdd(w);
    } else {
      BitStepEven(w);
    }
    ClockOut(w, BitStep(w), r);
  }

  lemma LowBit(w: bv16)
    ensures w & 1 != 0 <==> w & 1 == 1
  {
  }

  lemma {:induction false} StepsAreRun(w: bv16, r: P.Register, n: nat)
    requires Represents(w, r)
    ensures Represents(Steps(w, n), P.Run(r, P.Zeros(n)))
    decreases n
  {
    if n > 0 {
      assert P.Zeros(n)[1..] == P.Zeros(n - 1);
      BitStepIsClock(w, r);
      StepsAreRun(BitStep(w), P.Clock(r, false), n - 1);
    }
  }

  lemma RegisterOfByte(i: byte, s: seq<bool>)
    requires RepresentsByte(i, s)
    ensures Represents(i as bv16, s + P.Zeros(8))
  {
  }

  lemma XorLowBits(v: bv16, w: bv16, x: bv16)
    requires x == v ^ w
    ensures (x & 0x0001 != 0) == ((v & 0x0001 != 0) != (w & 0x0001 != 0))
    ensures (x & 0x0002 != 0) == ((v & 0x0002 != 0) != (w & 0x0002 != 0))
    ensures (x & 0x0004 != 0) == ((v & 0x0004 != 0) != (w & 0x0004 != 0))
    ensures (x & 0x0008 != 0) == ((v & 0x0008 != 0) != (w & 0x0008 != 0))
    ensures (x & 0x0010 != 0) == ((v & 0x0010 != 0) != (w & 0x0010 != 0))
    ensures (x & 0x0020 != 0) == ((v & 0x0020 != 0) != (w & 0x0020 != 0))
    ensures (x & 0x0040 != 0) == ((v & 0x0040 != 0) != (w & 0x0040 != 0))
    ensures (x & 0x0080 != 0) == ((v & 0x0080 != 0) != (w & 0x0080 != 0))
  {
  }

  lemma XorHighBits(v: bv16, w: bv16, x: bv16)
    requires x == v ^ w
    ensures (x & 0x0100 != 0) == ((v & 0x0100 != 0) != (w & 0x0100 != 0))
    ensures (x & 0x0200 != 0) == ((v & 0x0200 != 0) != (w & 0x0200 != 0))
    ensures (x & 0x0400 != 0) == ((v & 0x0400 != 0) != (w & 0x0400 != 0))
    ensures (x & 0x0800 != 0) == ((v & 0x0800 != 0) != (w & 0x0800 != 0))
    ensures (x & 0x1000 != 0) == ((v & 0x1000 != 0) != (w & 0x1000 != 0))
    ensures (x & 0x2000 != 0) == ((v & 0x2000 != 0) != (w & 0x2000 != 0))
    ensures (x & 0x4000 != 0) == ((v & 0x4000 != 0) != (w & 0x4000 != 0))
    ensures (x & 0x8000 != 0) == ((v & 0x8000 != 0) != (w & 0x8000 != 0))
  {
  }

  lemma AddLow(v: bv16, w: bv16, x: bv16, r: P.Register, s: P.Register)
    requires RepresentsLow(v, r) && RepresentsLow(w, s)
    requires x == v ^ w
    ensures RepresentsLow(x, P.AddPrefix(r, s))
  {
    XorLowBits(v, w, x);
  }

  lemma AddHigh(v: bv16, w: bv16, x: bv16, r: P.Register, s: P.Register)
    requires RepresentsHigh(v, r) && RepresentsHigh(w, s)
    requires x == v ^ w
    ensures RepresentsHigh(x, P.AddPrefix(r, s))
  {
    XorHighBits(v, w, x);
  }

  lemma AddWords(v: bv16, w: bv16, x: bv16, r: P.Register, s: P.Register)
    requires Represents(v, r) && Represents(w, s)
    requires x == v ^ w
    ensures Represents(x, P.AddPrefix(r, s))
  {
    AddLow(v, w, x, r, s);
    AddHigh(v, w, x, r, s);
  }

  lemma ShiftByte(w: bv16, r: P.Register)
    requires Represents(w, r)
    ensures Represents(w >> 8, r[8..] + P.Zeros(8))
  {
  }

  lemma IndexBits(crc: bv16, c: byte, r: P.Register, s: seq<bool>)
    requires Represents(crc, r) && RepresentsByte(c, s)
    ensures RepresentsByte(((crc ^ c as bv16) & 0xff) as bv8, P.AddPrefix(s, r[..8]))
  {
  }

  lemma RegisterOfRepresents(w: bv16)
    ensures Represents(w, RegisterOf(w))
  {
    LsbFirstRepresents((w & 0xff) as bv8);
    LsbFirstRepresents((w >> 8) as bv8);
    HalvesRepresent(w, (w & 0xff) as bv8, (w >> 8) as bv8, LsbFirst((w & 0xff) as bv8), LsbFirst((w >> 8) as bv8));
  }

  lemma HalvesRepresent(w: bv16, lo: byte, hi: byte, s: seq<bool>, t: seq<bool>)
    requires lo == (w & 0xff) as bv8 && hi == (w >> 8) as bv8
    requires RepresentsByte(lo, s) && RepresentsByte(hi, t)
    ensures Represents(w, s + t)
  {
  }

  lemma TableIsRun(i: bv8, s: seq<bool>)
    requires RepresentsByte(i, s)
    ensures Represents(Table(i), P.Run(s + P.Zeros(8), P.Zeros(8)))
  {
    RegisterOfByte(i, s);
    StepsAreRun(i as bv16, s + P.Zeros(8), 8);
    TableIsSteps(i);
  }

  lemma FoldTable(crc: bv16, t: bv16, x: bv16, r: P.Register, q: P.Register)
    requires Represents(crc, r) && Represents(t, q)
    requires x == (crc >> 8) ^ t
    ensures Represents(x, P.AddPrefix(r[8..] + P.Zeros(8), q))
  {
    ShiftByte(crc, r);
    AddWords(crc >> 8, t, x, r[8..] + P.Zeros(8), q);
  }

  lemma LookupIsRun(c: byte, crc: bv16, i: bv8, x: bv16, r: P.Register, s: seq<bool>)
    requires Represents(crc, r) && RepresentsByte(c, s)
    requires i == ((crc ^ c as bv16) & 0xff) as bv8
    requires x == (crc >> 8) ^ Table(i)
    ensures Represents(x, P.Run(r, s))
  {
    var t := P.AddPrefix(s, r[..8]);
    IndexBits(crc, c, r, s);
    TableIsRun(i, t);
    FoldTable(crc, Table(i), x, r, P.Run(t + P.Zeros(8), P.Zeros(8)));
    P.RunOfByte(r, s);
  }

  /** The table-driven update clocks the register with the eight bits of the byte. */
  lemma UpdIsRun(c: byte, crc: bv16, r: P.Register)
    requires Represents(crc, r)
    ensures Represents(Upd(c, crc), P.Run(r, LsbFirst(c)))
  {
    LsbFirstRepresents(c);
    LookupIsRun(c, crc, ((crc ^ c as bv16) & 0xff) as bv8, Upd(c, crc), r, LsbFirst(c));
  }

  lemma {:induction false} CrcIsRun(crc: bv16, r: P.Register, m: seq<byte>)
    requires Represents(crc, r)
    ensures Represents(CrcOf(crc, m), P.Run(r, MessageBits(true, m)))
    decreases |m|
  {
    if m != [] {
      UpdIsRun(m[0], crc, r);
      P.RunConcat(r, LsbFirst(m[0]), MessageBits(true, m[1..]));
      CrcIsRun(Upd(m[0], crc), P.Run(r, LsbFirst(m[0])), m[1..]);
    }
  }

  // --- What the CRC means ---

  lemma RegisterOfCrc(crc: bv16, m: seq<byte>)
    ensures RegisterOf(CrcOf(crc, m)) == P.Run(RegisterOf(crc), MessageBits(true, m))
  {
    var r := P.Run(RegisterOf(crc), MessageBits(true, m));
    RegisterOfRepresents(crc);
    RegisterOfRepresents(CrcOf(crc, m));
    CrcIsRun(crc, RegisterOf(crc), m);
    RegisterDetermined(CrcOf(crc, m), RegisterOf(CrcOf(crc, m)), r);
  }

  /** The CRC is the remainder of the message, shifted by sixteen and preset by `crc`, on division by the generator. */
  lemma CrcIsRemainder(crc: bv16, m: seq<byte>)
    ensures RegisterOf(CrcOf(crc, m)) == P.Remainder(P.AddPrefix(MessageBits(true, m) + P.Zeros(16), RegisterOf(crc)))
  {
    RegisterOfCrc(crc, m);
    P.RunIsRemainder(RegisterOf(crc), MessageBits(true, m));
  }

  lemma SameRegister(c: bv16, d: bv16)
    requires RegisterOf(c) == RegisterOf(d)
    ensures c == d
  {
    RegisterOfRepresents(c);
    RegisterOfRepresents(d);
    hide RegisterOf;
    WordDetermined(c, d, RegisterOf(c));
  }

  lemma WordDetermined(c: bv16, d: bv16, r: P.Register)
    requires Represents(c, r) && Represents(d, r)
    ensures c == d
  {
  }

  /** Different starting values stay different over any message. */
  lemma CrcInjective(c: bv16, d: bv16, m: seq<byte>)
    requires CrcOf(c, m) == CrcOf(d, m)
    ensures c == d
  {
    hide CrcOf, RegisterOf;
    RegisterOfCrc(c, m);
    RegisterOfCrc(d, m);
    P.RunInjective(RegisterOf(c), RegisterOf(d), MessageBits(true, m));
    SameRegister(c, d);
  }

  /** Any corruption within sixteen consecutive bits, on a byte boundary or not, changes the CRC. */
  lemma BurstDetected(crc: bv16, f: seq<byte>, g: seq<byte>, k: nat)
    requires |f| == |g| && f != g && k <= 8 * |f|
    requires forall i | 0 <= i < 8 * |f| && !(k <= i < k + 16) :: MessageBits(true, f)[i] == MessageBits(true, g)[i]
    ensures CrcOf(crc, f) != CrcOf(crc, g)
  {
    RegisterOfCrc(crc, f);
    RegisterOfCrc(crc, g);
    if CrcOf(crc, f) == CrcOf(crc, g) {
      P.BurstLocated(RegisterOf(crc), MessageBits(true, f), MessageBits(true, g), k);
      MessageBitsInjective(true, f, g);
    }
  }

  /** Corruption confined to two adjacent bytes always changes the CRC. */
  lemma AdjacentBytesDetected(crc: bv16, f: seq<byte>, g: seq<byte>, j: nat)
    requires |f| == |g| && f != g && j < |f|
    requires forall i | 0 <= i < |f| && i != j && i != j + 1 :: f[i] == g[i]
    ensures CrcOf(crc, f) != CrcOf(crc, g)
  {
    forall i | 0 <= i < 8 * |f| && !(8 * j <= i < 8 * j + 16)
      ensures MessageBits(true, f)[i] == MessageBits(true, g)[i]
    {
      MessageBitsAt(true, f, i / 8, i % 8);
      MessageBitsAt(true, g, i / 8, i % 8);
    }
    BurstDetected(crc, f, g, 8 * j);
  }

  /** Any odd number of flipped bits, anywhere in the message, changes the CRC. */
  lemma OddErrorsDetected(crc: bv16, f: seq<byte>, g: seq<byte>)
    requires |f| == |g|
    requires P.Parity(P.AddPrefix(MessageBits(true, f), MessageBits(true, g)))
    ensures CrcOf(crc, f) != CrcOf(crc, g)
  {
    var r := RegisterOf(crc);
    RegisterOfCrc(crc, f);
    RegisterOfCrc(crc, g);
    P.ParityAdd(MessageBits(true, f), MessageBits(true, g));
    P.RunKeepsParity(r, MessageBits(true, f));
    P.RunKeepsParity(r, MessageBits(true, g));
    assert P.Run(r, MessageBits(true, f)) != P.Run(r, MessageBits(true, g));
  }

  // --- The frame check sequence ---

  const CORRECT: bv16 := 0xf0b8

  function ComplementLow(crc: bv16): byte {
    (crc & 0xff) as bv8 ^ 0xff
  }

  function ComplementHigh(crc: bv16): byte {
    (crc >> 8) as bv8 ^ 0xff
  }

  lemma ResidueOfLow(c: bv16, lo: byte)
    requires lo == ComplementLow(c)
    ensures Upd(lo, c) == (c >> 8) ^ 0x0f78
  {
    assert ((c ^ lo as bv16) & 0xff) as bv8 == 0xff;
  }

  lemma ResidueOfHigh(c: bv16, d: bv16, hi: byte)
    requires d == (c >> 8) ^ 0x0f78 && hi == ComplementHigh(c)
    ensures Upd(hi, d) == CORRECT
  {
    assert ((d ^ hi as bv16) & 0xff) as bv8 == 0x87;
    assert d >> 8 == 0x0f;
  }

  /** Appending the complemented CRC, low byte first, always leaves the good-frame residue. */
  lemma GoodFrameResidue(crc: bv16, m: seq<byte>)
    ensures var c := CrcOf(crc, m);
      CrcOf(crc, m + [ComplementLow(c), ComplementHigh(c)]) == CORRECT
  {
    var c := CrcOf(crc, m);
    var lo, hi := ComplementLow(c), ComplementHigh(c);
    CrcConcat(crc, m, [lo, hi]);
    assert CrcOf(c, [lo, hi]) == CrcOf(Upd(lo, c), [hi]) == Upd(hi, Upd(lo, c));
    ResidueOfLow(c, lo);
    ResidueOfHigh(c, Upd(lo, c), hi);
    assert [lo, hi][1..] == [hi];
  }
}
