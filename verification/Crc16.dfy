/**
 The CRC of the XMODEM protocol (bertos/algo/crc.c, bertos/algo/crc.h): most significant bit
 first. It is the bit reversal of the CRC-CCITT, and so a remainder by the same generator.
 */
module Crc16 {
  import opened Bits
  import C = CrcCcitt
  import P = PolyDivision

  const INIT_VAL: bv16 := 0

  /** The program's lookup table, sixteen entries a row. */
  function Table(i: bv8): bv16 {
    var k := i & 0x0f;
    match i >> 4
    case 0x0 => C.Pick(k, 0x0000, 0x1021, 0x2042, 0x3063, 0x4084, 0x50a5, 0x60c6, 0x70e7,
                         0x8108, 0x9129, 0xa14a, 0xb16b, 0xc18c, 0xd1ad, 0xe1ce, 0xf1ef)
    case 0x1 => C.Pick(k, 0x1231, 0x0210, 0x3273, 0x2252, 0x52b5, 0x4294, 0x72f7, 0x62d6,
                         0x9339, 0x8318, 0xb37b, 0xa35a, 0xd3bd, 0xc39c, 0xf3ff, 0xe3de)
    case 0x2 => C.Pick(k, 0x2462, 0x3443, 0x0420, 0x1401, 0x64e6, 0x74c7, 0x44a4, 0x5485,
                         0xa56a, 0xb54b, 0x8528, 0x9509, 0xe5ee, 0xf5cf, 0xc5ac, 0xd58d)
    case 0x3 => C.Pick(k, 0x3653, 0x2672, 0x1611, 0x0630, 0x76d7, 0x66f6, 0x5695, 0x46b4,
                         0xb75b, 0xa77a, 0x9719, 0x8738, 0xf7df, 0xe7fe, 0xd79d, 0xc7bc)
    case 0x4 => C.Pick(k, 0x48c4, 0x58e5, 0x6886, 0x78a7, 0x0840, 0x1861, 0x2802, 0x3823,
                         0xc9cc, 0xd9ed, 0xe98e, 0xf9af, 0x8948, 0x9969, 0xa90a, 0xb92b)
    case 0x5 => C.Pick(k, 0x5af5, 0x4ad4, 0x7ab7, 0x6a96, 0x1a71, 0x0a50, 0x3a33, 0x2a12,
                         0xdbfd, 0xcbdc, 0xfbbf, 0xeb9e, 0x9b79, 0x8b58, 0xbb3b, 0xab1a)
    case 0x6 => C.Pick(k, 0x6ca6, 0x7c87, 0x4ce4, 0x5cc5, 0x2c22, 0x3c03, 0x0c60, 0x1c41,
                         0xedae, 0xfd8f, 0xcdec, 0xddcd, 0xad2a, 0xbd0b, 0x8d68, 0x9d49)
    case 0x7 => C.Pick(k, 0x7e97, 0x6eb6, 0x5ed5, 0x4ef4, 0x3e13, 0x2e32, 0x1e51, 0x0e70,
                         0xff9f, 0xefbe, 0xdfdd, 0xcffc, 0xbf1b, 0xaf3a, 0x9f59, 0x8f78)
    case 0x8 => C.Pick(k, 0x9188, 0x81a9, 0xb1ca, 0xa1eb, 0xd10c, 0xc12d, 0xf14e, 0xe16f,
                         0x1080, 0x00a1, 0x30c2, 0x20e3, 0x5004, 0x4025, 0x7046, 0x6067)
    case 0x9 => C.Pick(k, 0x83b9, 0x9398, 0xa3fb, 0xb3da, 0xc33d, 0xd31c, 0xe37f, 0xf35e,
                         0x02b1, 0x1290, 0x22f3, 0x32d2, 0x4235, 0x5214, 0x6277, 0x7256)
    case 0xa => C.Pick(k, 0xb5ea, 0xa5cb, 0x95a8, 0x8589, 0xf56e, 0xe54f, 0xd52c, 0xc50d,
                         0x34e2, 0x24c3, 0x14a0, 0x0481, 0x7466, 0x6447, 0x5424, 0x4405)
    case 0xb => C.Pick(k, 0xa7db, 0xb7fa, 0x8799, 0x97b8, 0xe75f, 0xf77e, 0xc71d, 0xd73c,
                         0x26d3, 0x36f2, 0x0691, 0x16b0, 0x6657, 0x7676, 0x4615, 0x5634)
    case 0xc => C.Pick(k, 0xd94c, 0xc96d, 0xf90e, 0xe92f, 0x99c8, 0x89e9, 0xb98a, 0xa9ab,
                         0x5844, 0x4865, 0x7806, 0x6827, 0x18c0, 0x08e1, 0x3882, 0x28a3)
    case 0xd => C.Pick(k, 0xcb7d, 0xdb5c, 0xeb3f, 0xfb1e, 0x8bf9, 0x9bd8, 0xabbb, 0xbb9a,
                         0x4a75, 0x5a54, 0x6a37, 0x7a16, 0x0af1, 0x1ad0, 0x2ab3, 0x3a92)
    case 0xe => C.Pick(k, 0xfd2e, 0xed0f, 0xdd6c, 0xcd4d, 0xbdaa, 0xad8b, 0x9de8, 0x8dc9,
                         0x7c26, 0x6c07, 0x5c64, 0x4c45, 0x3ca2, 0x2c83, 0x1ce0, 0x0cc1)
    case _   => C.Pick(k, 0xef1f, 0xff3e, 0xcf5d, 0xdf7c, 0xaf9b, 0xbfba, 0x8fd9, 0x9ff8,
                         0x6e17, 0x7e36, 0x4e55, 0x5e74, 0x2e93, 0x3eb2, 0x0ed1, 0x1ef0)
  }

  function Upd(c: byte, crc: bv16): bv16 {
    Fold(crc, Table(Index(c, crc)))
  }

  function Index(c: byte, crc: bv16): bv8 {
    (crc >> 8) as bv8 ^ c
  }

  function Fold(crc: bv16, entry: bv16): bv16 {
    entry ^ (crc << 8)
  }

  function CrcOf(crc: bv16, m: seq<byte>): bv16
    decreases |m|
  {
    if m == [] then crc else CrcOf(Upd(m[0], crc), m[1..])
  }

  method Crc(crc: bv16, buffer: array<byte>, len: nat) returns (r: bv16)
    requires len <= buffer.Length
    ensures r == CrcOf(crc, buffer[..len])
  {
    r := crc;
    var i := 0;
    while i < len
      invariant 0 <= i <= len
      invariant CrcOf(crc, buffer[..len]) == CrcOf(r, buffer[i..len])
    {
      assert buffer[i..len][1..] == buffer[i + 1..len];
      r := Upd(buffer[i], r);
      i := i + 1;
    }
  }

  // --- A known value ---

  lemma NextByte(crc: bv16, m: seq<byte>, i: nat)
    requires i < |m|
    ensures CrcOf(crc, m[i..]) == CrcOf(Upd(m[i], crc), m[i + 1..])
  {
    hide Upd;
    assert m[i..][1..] == m[i + 1..];
  }

  lemma NoMore(crc: bv16, m: seq<byte>)
    ensures CrcOf(crc, m[|m|..]) == crc && m[0..] == m
  {
  }

  lemma DigitStepsOne()
    ensures Upd(0x31, 0x0000) == 0x2672
    ensures Upd(0x32, 0x2672) == 0x20b5
    ensures Upd(0x33, 0x20b5) == 0x9752
  {
  }

  lemma DigitStepsTwo()
    ensures Upd(0x34, 0x9752) == 0xd789
    ensures Upd(0x35, 0xd789) == 0x546c
    ensures Upd(0x36, 0x546c) == 0x20e4
  {
  }

  lemma DigitStepsThree()
    ensures Upd(0x37, 0x20e4) == 0x86d6
    ensures Upd(0x38, 0x86d6) == 0x9015
    ensures Upd(0x39, 0x9015) == 0x31c3
  {
  }

  /** The CRC of the digits one to nine, as the program's own test has it. */
  lemma CheckValue()
    ensures CrcOf(INIT_VAL, [0x31, 0x32, 0x33, 0x34, 0x35, 0x36, 0x37, 0x38, 0x39]) == 0x31c3
  {
    hide Upd, CrcOf;
    var digits := [0x31, 0x32, 0x33, 0x34, 0x35, 0x36, 0x37, 0x38, 0x39];
    DigitStepsOne();
    DigitStepsTwo();
    DigitStepsThree();
    NextByte(0x0000, digits, 0);
    NextByte(0x2672, digits, 1);
    NextByte(0x20b5, digits, 2);
    NextByte(0x9752, digits, 3);
    NextByte(0xd789, digits, 4);
    NextByte(0x546c, digits, 5);
    NextByte(0x20e4, digits, 6);
    NextByte(0x86d6, digits, 7);
    NextByte(0x9015, digits, 8);
    NoMore(0x31c3, digits);
  }

  /** The CRC of two buffers one after another is the second started from the first. */
  lemma {:induction false} CrcConcat(crc: bv16, a: seq<byte>, b: seq<byte>)
    ensures CrcOf(crc, a + b) == CrcOf(CrcOf(crc, a), b)
    decreases |a|
  {
    hide Upd;
    if a == [] {
      assert a + b == b;
    } else {
      assert (a + b)[1..] == a[1..] + b;
      CrcConcat(Upd(a[0], crc), a[1..], b);
    }
  }

  // --- Bit reversal ---

  function Reverse8(c: byte): byte {
    var d := (c >> 4) | (c << 4);
    var e := ((d & 0xcc) >> 2) | ((d & 0x33) << 2);
    ((e & 0xaa) >> 1) | ((e & 0x55) << 1)
  }

  function Reverse16(w: bv16): bv16 {
    (Reverse8((w & 0xff) as bv8) as bv16 << 8) | Reverse8((w >> 8) as bv8) as bv16
  }

  lemma TableStart(i: bv8)
    requires i < 0x08
    ensures Table(i) == Reverse16(C.Table(Reverse8(i)))
  {
    assert i >> 4 == 0;
  }

  lemma TableNext(i: bv8)
    requires i >> 3 == 1
    ensures Table(i) == Reverse16(C.Table(Reverse8(i)))
  {
    assert i >> 4 == 0;
  }

  lemma TableSixteenth1(i: bv8)
    requires i >> 4 == 1
    ensures Table(i) == Reverse16(C.Table(Reverse8(i)))
  {
  }

  lemma TableEighth0(i: bv8)
    requires i < 0x20
    ensures Table(i) == Reverse16(C.Table(Reverse8(i)))
  {
    hide Table, C.Table, Reverse8, Reverse16;
    if i < 0x08 {
      TableStart(i);
    } else if i < 0x10 {
      TableNext(i);
    } else {
      TableSixteenth1(i);
    }
  }

  lemma TableEighth1(i: bv8)
    requires i >> 5 == 1
    ensures Table(i) == Reverse16(C.Table(Reverse8(i)))
  {
  }

  lemma TableEighth2(i: bv8)
    requires i >> 5 == 2
    ensures Table(i) == Reverse16(C.Table(Reverse8(i)))
  {
  }

  lemma TableEighth3(i: bv8)
    requires i >> 5 == 3
    ensures Table(i) == Reverse16(C.Table(Reverse8(i)))
  {
  }

  lemma TableEighth4(i: bv8)
    requires i >> 5 == 4
    ensures Table(i) == Reverse16(C.Table(Reverse8(i)))
  {
  }

  lemma TableEighth5(i: bv8)
    requires i >> 5 == 5
    ensures Table(i) == Reverse16(C.Table(Reverse8(i)))
  {
  }

  lemma TableEighth6(i: bv8)
    requires i >> 5 == 6
    ensures Table(i) == Reverse16(C.Table(Reverse8(i)))
  {
  }

  lemma TableEighth7(i: bv8)
    requires i >> 5 == 7
    ensures Table(i) == Reverse16(C.Table(Reverse8(i)))
  {
  }

  /** Entry for entry, the table is the reflected one with index and value reversed. */
  lemma TableIsReversed(i: bv8)
    ensures Table(i) == Reverse16(C.Table(Reverse8(i)))
  {
    match i >> 5 {
      case 0 => TableEighth0(i);
      case 1 => TableEighth1(i);
      case 2 => TableEighth2(i);
      case 3 => TableEighth3(i);
      case 4 => TableEighth4(i);
      case 5 => TableEighth5(i);
      case 6 => TableEighth6(i);
      case _ => TableEighth7(i);
    }
  }

  lemma ReverseIndex(c: byte, crc: bv16)
    ensures C.Index(Reverse8(c), Reverse16(crc)) == Reverse8(Index(c, crc))
  {
  }

  lemma ReverseFold(crc: bv16, t: bv16)
    ensures Fold(crc, Reverse16(t)) == Reverse16(C.Fold(Reverse16(crc), t))
  {
  }

  lemma ReverseInvolution(w: bv16)
    ensures Reverse16(Reverse16(w)) == w
  {
  }

  /** The XMODEM update is the reflected update seen in a mirror. */
  lemma UpdIsReversed(c: byte, crc: bv16)
    ensures Fold(crc, Table(Index(c, crc)))
         == Reverse16(C.Fold(Reverse16(crc), C.Table(C.Index(Reverse8(c), Reverse16(crc)))))
  {
    hide *;
    TableIsReversed(Index(c, crc));
    ReverseIndex(c, crc);
    ReverseFold(crc, C.Table(Reverse8(Index(c, crc))));
  }

  function ReverseAll(m: seq<byte>): seq<byte> {
    if m == [] then [] else [Reverse8(m[0])] + ReverseAll(m[1..])
  }

  /** The two CRCs are one function seen in a mirror: reverse the bits of every byte, of the preset and of the result. */
  lemma {:induction false} CrcIsReversed(crc: bv16, m: seq<byte>)
    ensures CrcOf(crc, m) == Reverse16(C.CrcOf(Reverse16(crc), ReverseAll(m)))
    decreases |m|
  {
    ReverseInvolution(crc);
    if m != [] {
      var u := C.Upd(Reverse8(m[0]), Reverse16(crc));
      UpdIsReversed(m[0], crc);
      ReverseInvolution(u);
      CrcIsReversed(Upd(m[0], crc), m[1..]);
    }
  }

  lemma ReverseBits(c: byte)
    ensures LsbFirst(Reverse8(c)) == MsbFirst(c)
  {
    forall i | 0 <= i < 8
      ensures Bit(Reverse8(c), i) == Bit(c, 7 - i)
    {
    }
  }

  lemma {:induction false} ReverseMessage(m: seq<byte>)
    ensures MessageBits(true, ReverseAll(m)) == MessageBits(false, m)
  {
    if m != [] {
      ReverseBits(m[0]);
      ReverseMessage(m[1..]);
    }
  }

  /** The register word as polynomial coefficients, highest power first: from bit 15 down. */
  function RegisterOf(w: bv16): P.Register {
    MsbFirst((w >> 8) as bv8) + MsbFirst((w & 0xff) as bv8)
  }

  lemma ReverseRegister(w: bv16)
    ensures C.RegisterOf(Reverse16(w)) == RegisterOf(w)
  {
    ReverseBits((w >> 8) as bv8);
    ReverseBits((w & 0xff) as bv8);
    assert (Reverse16(w) & 0xff) as bv8 == Reverse8((w >> 8) as bv8);
    assert (Reverse16(w) >> 8) as bv8 == Reverse8((w & 0xff) as bv8);
  }

  lemma RegisterOfCrc(crc: bv16, m: seq<byte>)
    ensures RegisterOf(CrcOf(crc, m)) == P.Run(RegisterOf(crc), MessageBits(false, m))
  {
    var c := C.CrcOf(Reverse16(crc), ReverseAll(m));
    CrcIsReversed(crc, m);
    ReverseRegister(crc);
    ReverseRegister(CrcOf(crc, m));
    ReverseInvolution(c);
    C.RegisterOfCrc(Reverse16(crc), ReverseAll(m));
    ReverseMessage(m);
  }

  /** Started from zero, the CRC is the remainder of the message times x^16 on division by the generator. */
  lemma CrcIsRemainder(crc: bv16, m: seq<byte>)
    ensures RegisterOf(CrcOf(crc, m)) == P.Remainder(P.AddPrefix(MessageBits(false, m) + P.Zeros(16), RegisterOf(crc)))
    ensures crc == INIT_VAL ==> RegisterOf(CrcOf(crc, m)) == P.Remainder(MessageBits(false, m) + P.Zeros(16))
  {
    RegisterOfCrc(crc, m);
    P.RunIsRemainder(RegisterOf(crc), MessageBits(false, m));
    if crc == INIT_VAL {
      ZeroRegister();
      assert P.AddPrefix(MessageBits(false, m) + P.Zeros(16), P.Zeros(16)) == MessageBits(false, m) + P.Zeros(16);
    }
  }

  lemma ZeroRegister()
    ensures RegisterOf(0) == P.Zeros(16)
  {
    forall i | 0 <= i < 8
      ensures !Bit(0, i)
    {
    }
  }

  /** Any corruption within sixteen consecutive bits changes this CRC too. */
  lemma BurstDetected(crc: bv16, f: seq<byte>, g: seq<byte>, k: nat)
    requires |f| == |g| && f != g && k <= 8 * |f|
    requires forall i | 0 <= i < 8 * |f| && !(k <= i < k + 16) :: MessageBits(false, f)[i] == MessageBits(false, g)[i]
    ensures CrcOf(crc, f) != CrcOf(crc, g)
  {
    RegisterOfCrc(crc, f);
    RegisterOfCrc(crc, g);
    if CrcOf(crc, f) == CrcOf(crc, g) {
      P.BurstLocated(RegisterOf(crc), MessageBits(false, f), MessageBits(false, g), k);
      MessageBitsInjective(false, f, g);
    }
  }
}
