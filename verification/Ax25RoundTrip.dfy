/** What the packet receiver makes of the frames that the packet sender builds, and of damaged ones. */
module Ax25RoundTrip {
  import opened Bits
  import opened Framing
  import opened Wrappers
  import opened Ax25
  import C = CrcCcitt
  import P = PolyDivision

  // --- Calls ---

  /** How a call that can be sent comes back: upper case, surrounding blanks gone, the SSID spelled out. */
  function Canonical(call: text): text
    requires SplitCall(call).Some?
  {
    var (base, ssid) := SplitCall(call).value;
    Strip(base) + [DASH] + Decimal(LowNibble(ssid))
  }

  /** The program raises no error for the call, and its base fits the address field. */
  predicate ValidCall(call: text) {
    match SplitCall(call)
    case None => false
    case Some((base, ssid)) => |base| <= 6 && SevenBit(base)
  }

  lemma {:induction false} ShiftRoundTrip(s: text)
    requires SevenBit(s)
    ensures UnshiftChars(ShiftChars(s)) == s && |ShiftChars(s)| == |s|
  {
    if s != [] {
      assert SevenBit(s[1..]) by {
        assert forall c :: c in s[1..] ==> c in s;
      }
      assert s[0] in s;
      ShiftOne(s[0]);
      ShiftRoundTrip(s[1..]);
    }
  }

  lemma ShiftOne(c: byte)
    requires c < 0x80
    ensures (c << 1) >> 1 == c
  {
  }

  lemma StripRightBlank(s: text)
    ensures StripRight(s + [BLANK]) == StripRight(s)
  {
    assert (s + [BLANK])[..|s|] == s;
  }

  lemma {:induction false} StripBlank(s: text)
    ensures Strip(s + [BLANK]) == Strip(s)
  {
    if s == [] {
      assert s + [BLANK] == [BLANK] && [BLANK][1..] == [];
    } else if IsSpace(s[0]) {
      assert (s + [BLANK])[1..] == s[1..] + [BLANK];
      StripBlank(s[1..]);
    } else {
      StripRightBlank(s);
    }
  }

  lemma {:induction false} PadKeepsStrip(s: text)
    ensures Strip(PadCall(s)) == Strip(s)
    ensures |s| <= 6 ==> |PadCall(s)| == 6
    decreases 6 - |s|
  {
    if |s| < 6 {
      PadKeepsStrip(s + [BLANK]);
      StripBlank(s);
    }
  }

  lemma SsidBits(ssid: nat, last: bool)
    ensures (SsidByte(ssid, last) >> 1) & 0x0f == LowNibble(ssid)
    ensures SsidByte(ssid, last) & 0x01 != 0 <==> last
  {
  }

  /** A sent call decodes to its canonical form, whatever follows. */
  lemma CallRoundTrip(call: text, last: bool, rest: seq<byte>)
    requires ValidCall(call)
    ensures var b := CallBytes(call, last);
      && b.Some? && |b.value| == 7
      && CallText(b.value + rest) == Canonical(call)
      && (b.value[6] & 0x01 != 0 <==> last)
  {
    var (base, ssid) := SplitCall(call).value;
    var b := CallBytes(call, last).value;
    PadSevenBit(base);
    PadKeepsStrip(base);
    ShiftRoundTrip(PadCall(base));
    SsidBits(ssid, last);
    assert (b + rest)[..6] == ShiftChars(PadCall(base));
  }

  // --- Paths ---

  predicate ValidPath(path: seq<text>) {
    forall i | 0 <= i < |path| :: ValidCall(path[i])
  }

  function CanonicalPath(path: seq<text>): (r: seq<text>)
    requires ValidPath(path)
    ensures |r| == |path|
  {
    if path == [] then [] else [Canonical(path[0])] + CanonicalPath(path[1..])
  }

  /** Repeaters are read back up to the address that carries the last-address bit. */
  lemma {:induction false} RptsRoundTrip(ssid: byte, path: seq<text>, rest: seq<byte>)
    requires ValidPath(path)
    requires ssid & 0x01 != 0 <==> path == []
    ensures PathBytes(path).1
    ensures RptsOf([ssid] + PathBytes(path).0 + rest) == Some((CanonicalPath(path), rest))
    decreases |path|
  {
    hide CallText, CallBytes, ValidCall, Canonical;
    if path == [] {
      assert ([ssid] + PathBytes(path).0 + rest)[1..] == rest;
    } else {
      assert ValidCall(path[0]);
      var tail := PathBytes(path[1..]).0 + rest;
      CallRoundTrip(path[0], |path| == 1, tail);
      var b := CallBytes(path[0], |path| == 1).value;
      var buf := [ssid] + PathBytes(path).0 + rest;
      assert buf == [ssid] + (b + tail);
      assert buf[1..] == b + tail;
      assert buf[7..] == [b[6]] + PathBytes(path[1..]).0 + rest;
      RptsRoundTrip(b[6], path[1..], rest);
    }
  }

  lemma DecodeShape(d: seq<byte>, s: seq<byte>, more: seq<byte>, rpts: seq<text>, tail: seq<byte>)
    requires |d| == 7 && |s| == 7
    requires RptsOf([s[6]] + more) == Some((rpts, [CTRL_UI, PID_NOLAYER3] + tail))
    ensures DecodePacket(d + (s + more))
         == Message(Packet(CallText(d + (s + more)), CallText(s + more), rpts, CTRL_UI, PID_NOLAYER3, DropLastTwo(tail)))
  {
    hide CallText;
    var buf := d + (s + more);
    assert buf[7..] == s + more;
    assert buf[13..] == [s[6]] + more;
    assert ([CTRL_UI, PID_NOLAYER3] + tail)[2..] == tail;
  }

  lemma PathSplit(path: seq<text>)
    requires |path| >= 2 && ValidPath(path)
    ensures ValidCall(path[0]) && ValidCall(path[1]) && ValidPath(path[2..])
    ensures CallBytes(path[0], false).Some? && CallBytes(path[1], |path| == 2).Some?
    ensures PathBytes(path[2..]).1
    ensures PathBytes(path) == (CallBytes(path[0], false).value
                                + (CallBytes(path[1], |path| == 2).value + PathBytes(path[2..]).0), true)
  {
    hide ValidCall;
    assert path[1..][0] == path[1] && path[1..][1..] == path[2..];
    CallRoundTrip(path[0], false, []);
    CallRoundTrip(path[1], |path| == 2, []);
    RptsRoundTrip(if |path| == 2 then 1 else 0, path[2..], []);
  }

  lemma FrameParts(d: seq<byte>, s: seq<byte>, r: seq<byte>, data: seq<byte>, fcs: seq<byte>)
    ensures Content(d + (s + r), data) + fcs == d + (s + (r + ([CTRL_UI, PID_NOLAYER3] + (data + fcs))))
  {
  }

  /** The frame of a path of at least two calls decodes to the canonical path and the very payload. */
  lemma PacketRoundTrip(path: seq<text>, data: seq<byte>)
    requires |path| >= 2 && ValidPath(path)
    ensures PathBytes(path).1
    ensures |WithFcs(Content(PathBytes(path).0, data))| >= MIN_FRAME_LEN
    ensures DecodePacket(WithFcs(Content(PathBytes(path).0, data)))
         == Message(Packet(Canonical(path[0]), Canonical(path[1]), CanonicalPath(path[2..]),
                           CTRL_UI, PID_NOLAYER3, data))
  {
    hide CallText, CallBytes, ValidCall, Canonical, C.CrcOf, C.ComplementLow, C.ComplementHigh, DecodePacket;
    PathSplit(path);
    var c := C.CrcOf(C.INIT_VAL, Content(PathBytes(path).0, data));
    var fcs := [C.ComplementLow(c), C.ComplementHigh(c)];
    var tail := data + fcs;
    var rest := [CTRL_UI, PID_NOLAYER3] + tail;
    var d := CallBytes(path[0], false).value;
    var s := CallBytes(path[1], |path| == 2).value;
    var more := PathBytes(path[2..]).0 + rest;
    CallRoundTrip(path[0], false, s + more);
    CallRoundTrip(path[1], |path| == 2, more);
    RptsRoundTrip(s[6], path[2..], rest);
    assert [s[6]] + PathBytes(path[2..]).0 + rest == [s[6]] + more;
    DecodeShape(d, s, more, CanonicalPath(path[2..]), tail);
    FrameParts(d, s, PathBytes(path[2..]).0, data, fcs);
    assert DropLastTwo(tail) == data;
  }

  // --- What canonical means for ordinary calls ---

  /** A base call of printable 7-bit characters without blanks or dashes. */
  predicate PlainBase(s: text) {
    forall i | 0 <= i < |s| :: !IsSpace(s[i]) && s[i] != DASH && s[i] < 0x80
  }

  lemma {:induction false} UpperKeepsPlain(s: text)
    requires PlainBase(s)
    ensures PlainBase(Upper(s))
  {
    if s != [] {
      UpperCharKeepsPlain(s[0]);
      assert PlainBase(s[1..]);
      UpperKeepsPlain(s[1..]);
      assert Upper(s) == [UpperChar(s[0])] + Upper(s[1..]);
    }
  }

  lemma UpperCharKeepsPlain(c: byte)
    requires !IsSpace(c) && c != DASH && c < 0x80
    ensures !IsSpace(UpperChar(c)) && UpperChar(c) != DASH && UpperChar(c) < 0x80
  {
  }

  lemma {:induction false} UpperConcat(a: text, b: text)
    ensures Upper(a + b) == Upper(a) + Upper(b)
  {
    if a == [] {
      assert a + b == b;
    } else {
      assert (a + b)[1..] == a[1..] + b;
      UpperConcat(a[1..], b);
    }
  }

  lemma {:induction false} FindDashAt(a: text, b: text)
    requires DASH !in a
    ensures FindDash(a + [DASH] + b) == |a| && FindDash(a) == |a|
  {
    if a == [] {
      assert a + [DASH] + b == [DASH] + b;
    } else {
      assert (a + [DASH] + b)[1..] == a[1..] + [DASH] + b;
      assert a[0] in a;
      assert DASH !in a[1..] by {
        assert forall c :: c in a[1..] ==> c in a;
      }
      FindDashAt(a[1..], b);
    }
  }

  lemma DecimalValue(n: byte)
    requires n < 16
    ensures DigitsValue(Decimal(n), 0) == Some(n as nat)
  {
    var d := Decimal(n);
    if n >= 10 {
      assert d[1..] == [DIGIT0 + (n - 10)] && d[1..][1..] == [];
      assert (d[1] - DIGIT0) == n - 10;
      assert DigitsValue(d, 0) == DigitsValue(d[1..], 1) == DigitsValue([], 10 + (n - 10) as nat);
    } else {
      assert d[1..] == [] && d[0] - DIGIT0 == n;
    }
  }

  lemma LowNibbleOfByte(n: byte)
    requires n < 16
    ensures LowNibble(n as nat) == n
  {
    assert (n as nat) % 256 == n as nat;
    assert (n as nat) as bv8 == n;
  }

  /** SSIDs 0 to 15 survive being written out and parsed again. */
  lemma DecimalParses(n: byte)
    requires n < 16
    ensures Upper(Decimal(n)) == Decimal(n) && DASH !in Decimal(n)
    ensures ParseInt(Decimal(n)) == Some(n as nat) && LowNibble(n as nat) == n
  {
    var d := Decimal(n);
    DecimalValue(n);
    LowNibbleOfByte(n);
    assert d[1..] == (if n < 10 then [] else [DIGIT0 + (n - 10)]);
    assert forall i | 0 <= i < |d| :: 0x30 <= d[i] <= 0x39;
    assert Strip(d) == d;
    if n >= 10 {
      assert d[1..][1..] == [];
    }
  }

  lemma PlainIsStripped(s: text)
    requires PlainBase(s)
    ensures Strip(s) == s && DASH !in s && SevenBit(s)
  {
    if s != [] {
      assert !IsSpace(s[0]) && !IsSpace(s[|s| - 1]);
    }
  }

  lemma ZeroSsid()
    ensures Decimal(LowNibble(0)) == [DIGIT0]
  {
  }

  /** A plain call without an SSID comes back upper-cased, with SSID 0. */
  lemma CanonicalOfBase(base: text)
    requires PlainBase(base)
    ensures SplitCall(base).Some? && Canonical(base) == Upper(base) + [DASH, DIGIT0]
    ensures |base| <= 6 ==> ValidCall(base)
  {
    hide Strip, LowNibble, Decimal, FindDash, Upper, ParseInt;
    var up := Upper(base);
    UpperKeepsPlain(base);
    PlainIsStripped(up);
    FindDashAt(up, []);
    ZeroSsid();
    assert up + [DASH] + [DIGIT0] == up + [DASH, DIGIT0];
  }

  lemma SplitAtDash(up: text, digits: text)
    requires DASH !in up && DASH !in digits
    ensures var all := up + [DASH] + digits;
      FindDash(all) == |up| < |all| && all[..|up|] == up && all[|up| + 1..] == digits
  {
    FindDashAt(up, digits);
  }

  /** A plain call with an SSID from 0 to 15 comes back upper-cased, with that SSID. */
  lemma CanonicalOfPlainCall(base: text, ssid: byte)
    requires PlainBase(base) && ssid < 16
    ensures var call := base + [DASH] + Decimal(ssid);
      && SplitCall(call).Some? && Canonical(call) == Upper(base) + [DASH] + Decimal(ssid)
      && (|base| <= 6 ==> ValidCall(call))
  {
    hide Strip, LowNibble, Decimal, ParseInt;
    var up := Upper(base);
    UpperKeepsPlain(base);
    PlainIsStripped(up);
    DecimalParses(ssid);
    UpperConcat(base + [DASH], Decimal(ssid));
    UpperConcat(base, [DASH]);
    assert Upper([DASH]) == [DASH] by {
      assert [DASH][1..] == [];
    }
    SplitAtDash(up, Decimal(ssid));
  }

  // --- The byte stream ---

  lemma {:induction false} RxConcat(s: RxState, a: seq<byte>, b: seq<byte>)
    ensures var (t, o) := RxRun(s, a);
      var (u, p) := RxRun(t, b);
      RxRun(s, a + b) == (u, o + p)
    decreases |a|
  {
    hide RxStep;
    if a == [] {
      assert a + b == b;
      assert [] + RxRun(s, b).1 == RxRun(s, b).1;
    } else {
      assert (a + b)[1..] == a[1..] + b;
      var (t, o) := RxStep(s, a[0]);
      RxConcat(t, a[1..], b);
      var first := if o == Nothing then [] else [o];
      var (u, mid) := RxRun(t, a[1..]);
      assert first + (mid + RxRun(u, b).1) == (first + mid) + RxRun(u, b).1;
    }
  }

  /** Escaped data reaches the buffer and the CRC of a synchronised receiver byte for byte, and no other receiver. */
  lemma {:induction false} RxEscaped(s: RxState, data: seq<byte>)
    requires !s.escape
    ensures RxRun(s, Escape(data)) == (if s.sync then s.(crc := C.CrcOf(s.crc, data), buf := s.buf + data) else s, [])
    decreases |data|
  {
    hide C.Upd, EscapeByte, RxStep;
    if data == [] {
      assert s.buf + [] == s.buf;
    } else {
      var c := data[0];
      var t := if s.sync then s.(crc := C.Upd(c, s.crc), buf := s.buf + [c]) else s;
      RxEscapedByte(s, c);
      RxConcat(s, EscapeByte(c), Escape(data[1..]));
      RxEscaped(t, data[1..]);
      assert (s.buf + [c]) + data[1..] == s.buf + data;
    }
  }

  lemma RxOneByte(s: RxState, c: byte)
    ensures var (t, o) := RxStep(s, c);
      RxRun(s, [c]) == (t, if o == Nothing then [] else [o])
  {
    hide RxStep;
    var (t, o) := RxStep(s, c);
    assert [c][1..] == [] && RxRun(t, []) == (t, []);
    assert (if o == Nothing then [] else [o]) + [] == if o == Nothing then [] else [o];
  }

  lemma RxEscapedByte(s: RxState, c: byte)
    requires !s.escape
    ensures RxRun(s, EscapeByte(c)) == (if s.sync then s.(crc := C.Upd(c, s.crc), buf := s.buf + [c]) else s, [])
  {
    hide C.Upd, RxRun;
    if IsControl(c) {
      assert [AX25_ESC, c] == [AX25_ESC] + [c];
      RxConcat(s, [AX25_ESC], [c]);
      RxOneByte(s, AX25_ESC);
      RxOneByte(s.(escape := true), c);
      var none: seq<Outcome> := [];
      assert none + none == none;
    } else {
      RxOneByte(s, c);
    }
  }

  /**
   A frame between flags yields its packet exactly when it is long enough and its CRC is good; an error in the
   decoder leaves the CRC behind.
   */
  lemma RxFrame(f: seq<byte>)
    ensures var good := |f| >= MIN_FRAME_LEN && C.CrcOf(C.INIT_VAL, f) == C.CORRECT;
      var o := if good then DecodePacket(f) else Nothing;
      && RxRun(SYNCED, Escape(f) + [HDLC_FLAG]).1 == (if o == Nothing then [] else [o])
      && RxRun(SYNCED, Escape(f) + [HDLC_FLAG]).0 == (if o == IndexError then SYNCED.(crc := C.CORRECT) else SYNCED)
  {
    hide DecodePacket, C.CrcOf, Escape, RxRun;
    RxEscaped(SYNCED, f);
    assert [] + f == f;
    var t := SYNCED.(crc := C.CrcOf(C.INIT_VAL, f), buf := f);
    RxConcat(SYNCED, Escape(f), [HDLC_FLAG]);
    RxOneByte(t, HDLC_FLAG);
  }

  /** What a frame carries, as it is received. */
  function Received(path: seq<text>, data: seq<byte>): Packet
    requires |path| >= 2 && ValidPath(path)
  {
    Packet(Canonical(path[0]), Canonical(path[1]), CanonicalPath(path[2..]), CTRL_UI, PID_NOLAYER3, data)
  }

  /** A sent frame, heard between flags, is received as exactly one packet. */
  lemma FrameRoundTrip(path: seq<text>, data: seq<byte>)
    requires |path| >= 2 && ValidPath(path)
    ensures RxRun(SYNCED, Escape(WithFcs(Content(PathBytes(path).0, data))) + [HDLC_FLAG])
         == (SYNCED, [Message(Received(path, data))])
  {
    hide C.CrcOf, DecodePacket, Canonical, ValidCall, Content;
    var content := Content(PathBytes(path).0, data);
    PacketRoundTrip(path, data);
    C.GoodFrameResidue(C.INIT_VAL, content);
    RxFrame(WithFcs(content));
  }

  /** A frame damaged within sixteen consecutive bits, or in an odd number of bits, is never delivered. */
  lemma DamagedFrameIsDropped(f: seq<byte>, g: seq<byte>, k: nat)
    requires |g| == |f| && g != f
    requires || (k <= 8 * |f| && forall i | 0 <= i < 8 * |f| && !(k <= i < k + 16) ::
                   MessageBits(true, f)[i] == MessageBits(true, g)[i])
             || P.Parity(P.AddPrefix(MessageBits(true, f), MessageBits(true, g)))
    ensures C.CrcOf(C.INIT_VAL, f) == C.CORRECT ==> RxRun(SYNCED, Escape(g) + [HDLC_FLAG]) == (SYNCED, [])
  {
    hide DecodePacket, C.CrcOf;
    RxFrame(g);
    if P.Parity(P.AddPrefix(MessageBits(true, f), MessageBits(true, g))) {
      C.OddErrorsDetected(C.INIT_VAL, f, g);
    } else {
      C.BurstDetected(C.INIT_VAL, f, g, k);
    }
  }
}
