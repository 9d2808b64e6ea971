/**
 The packet layer of scripts/ax25.py: building an AX.25 UI frame from a path of calls and a
 payload, and the byte-level receiver that unescapes, checks the CRC and decodes the addresses.
 */
module Ax25 {
  import opened Bits
  import opened Framing
  import opened Wrappers
  import C = CrcCcitt

  type text = seq<byte>

  const MIN_FRAME_LEN := 18
  const CTRL_UI: byte := 0x03
  const PID_NOLAYER3: byte := 0xf0

  const BLANK: byte := 0x20
  const DASH: byte := 0x2d
  const PLUS: byte := 0x2b
  const DIGIT0: byte := 0x30

  // --- Text operations of the host language ---

  function UpperChar(c: byte): byte {
    if 0x61 <= c <= 0x7a then c - 0x20 else c
  }

  function Upper(s: text): (r: text)
    ensures |r| == |s|
  {
    if s == [] then [] else [UpperChar(s[0])] + Upper(s[1..])
  }

  predicate IsSpace(c: byte) {
    c == BLANK || 0x09 <= c <= 0x0d
  }

  function StripRight(s: text): text {
    if s != [] && IsSpace(s[|s| - 1]) then StripRight(s[..|s| - 1]) else s
  }

  function StripLeft(s: text): text {
    if s != [] && IsSpace(s[0]) then StripLeft(s[1..]) else s
  }

  function Strip(s: text): text {
    StripRight(StripLeft(s))
  }

  function DigitsValue(s: text, acc: nat): Option<nat>
    decreases |s|
  {
    if s == [] then Some(acc)
    else if 0x30 <= s[0] <= 0x39 then DigitsValue(s[1..], 10 * acc + (s[0] - DIGIT0) as nat)
    else None
  }

  /** The value of a decimal numeral, blanks around it and a plus sign allowed. */
  function ParseInt(s: text): Option<nat> {
    var t := Strip(s);
    var digits := if t != [] && t[0] == PLUS then t[1..] else t;
    if digits == [] then None else DigitsValue(digits, 0)
  }

  /** Position of the first dash, or the length. */
  function FindDash(s: text): (i: nat)
    ensures i <= |s| && DASH !in s[..i]
    ensures i < |s| ==> s[i] == DASH
  {
    if s == [] then 0 else if s[0] == DASH then 0 else 1 + FindDash(s[1..])
  }

  function PadCall(s: text): text
    decreases 6 - |s|
  {
    if |s| >= 6 then s else PadCall(s + [BLANK])
  }

  // --- Addresses ---

  /** The base call, upper-cased, and the SSID value of a call; None where the program raises an error. */
  function SplitCall(call: text): Option<(text, nat)> {
    var up := Upper(call);
    var i := FindDash(up);
    if i == |up| then Some((up, 0))
    else if DASH in up[i + 1..] then None
    else match ParseInt(up[i + 1..])
      case None => None
      case Some(ssid) => Some((up[..i], ssid))
  }

  function ShiftChars(s: text): text {
    if s == [] then [] else [s[0] << 1] + ShiftChars(s[1..])
  }

  function LowNibble(n: nat): byte {
    (n % 256) as bv8 & 0x0f
  }

  function SsidByte(ssid: nat, last: bool): byte {
    0x60 | (LowNibble(ssid) << 1) | (if last then 1 else 0)
  }

  predicate SevenBit(s: text) {
    forall c | c in s :: c < 0x80
  }

  /** The address bytes of one call; None where the program raises an error. */
  function CallBytes(call: text, last: bool): Option<seq<byte>> {
    match SplitCall(call)
    case None => None
    case Some((base, ssid)) =>
      if !SevenBit(base) then None else Some(ShiftChars(PadCall(base)) + [SsidByte(ssid, last)])
  }

  /** The addresses of a path up to the first call that raises an error, and whether there was none. */
  function PathBytes(path: seq<text>): (seq<byte>, bool)
  {
    if path == [] then ([], true)
    else match CallBytes(path[0], |path| == 1)
      case None => ([], false)
      case Some(b) => var (rest, ok) := PathBytes(path[1..]); (b + rest, ok)
  }

  /** A frame's content between the flags: addresses, control, protocol, payload and check sequence. */
  function Content(addresses: seq<byte>, data: seq<byte>): seq<byte> {
    addresses + [CTRL_UI, PID_NOLAYER3] + data
  }

  function WithFcs(content: seq<byte>): seq<byte> {
    var c := C.CrcOf(C.INIT_VAL, content);
    content + [C.ComplementLow(c), C.ComplementHigh(c)]
  }

  // --- Decoding ---

  datatype Packet = Packet(dst: text, src: text, rpts: seq<text>, ctrl: byte, pid: byte, data: seq<byte>)

  /** What one received byte leads to. */
  datatype Outcome = Nothing | Message(packet: Packet) | IndexError

  function Decimal(n: byte): text {
    if n < 10 then [DIGIT0 + n] else [DIGIT0 + 1, DIGIT0 + (n - 10)]
  }

  function UnshiftChars(s: seq<byte>): text {
    if s == [] then [] else [s[0] >> 1] + UnshiftChars(s[1..])
  }

  /** The call at the front of the buffer, of which the SSID byte is left in place. */
  function CallText(buf: seq<byte>): text
    requires |buf| >= 7
  {
    Strip(UnshiftChars(buf[..6])) + [DASH] + Decimal((buf[6] >> 1) & 0x0f)
  }

  /** Repeaters and the rest of the buffer after the last address, starting at an SSID byte. */
  function RptsOf(buf: seq<byte>): Option<(seq<text>, seq<byte>)>
    decreases |buf|
  {
    if buf == [] then None
    else if buf[0] & 0x01 != 0 then Some(([], buf[1..]))
    else if |buf| < 8 then None
    else match RptsOf(buf[7..])
      case None => None
      case Some((rpts, rest)) => Some(([CallText(buf[1..])] + rpts, rest))
  }

  function DecodePacket(buf: seq<byte>): Outcome {
    if |buf| < 14 then IndexError
    else match RptsOf(buf[13..])
      case None => IndexError
      case Some((rpts, rest)) =>
        if rest == [] then IndexError
        else if rest[0] != CTRL_UI then Nothing
        else if |rest| < 2 then IndexError
        else if rest[1] != PID_NOLAYER3 then Nothing
        else Message(Packet(CallText(buf), CallText(buf[7..]), rpts, rest[0], rest[1], DropLastTwo(rest[2..])))
  }

  function DropLastTwo(s: seq<byte>): seq<byte> {
    if |s| >= 2 then s[..|s| - 2] else []
  }

  /** Six characters off the front of the buffer, then the SSID byte that stays; None where the buffer runs out. */
  method DecodeCall(input: seq<byte>) returns (r: Option<(text, seq<byte>)>)
    ensures r == if |input| < 7 then None else Some((CallText(input), input[6..]))
  {
    var buf := input;
    var addr: text := [];
    for i := 0 to 6
      invariant i <= |input| && buf == input[i..]
      invariant addr == UnshiftChars(input[..i])
    {
      if buf == [] {
        return None;
      }
      UnshiftAppend(input[..i], input[i]);
      assert input[..i] + [input[i]] == input[..i + 1];
      addr := addr + [buf[0] >> 1];
      buf := buf[1..];
    }
    if buf == [] {
      return None;
    }
    return Some((Strip(addr) + [DASH] + Decimal((buf[0] >> 1) & 0x0f), buf));
  }

  lemma {:induction false} UnshiftAppend(s: seq<byte>, c: byte)
    ensures UnshiftChars(s + [c]) == UnshiftChars(s) + [c >> 1]
  {
    if s == [] {
      assert s + [c] == [c];
    } else {
      assert (s + [c])[1..] == s[1..] + [c];
      UnshiftAppend(s[1..], c);
    }
  }

  method Decode(input: seq<byte>) returns (o: Outcome)
    ensures o == DecodePacket(input)
  {
    var d := DecodeCall(input);
    if d.None? {
      return IndexError;
    }
    var buf := d.value.1[1..];
    assert buf == input[7..];
    var s := DecodeCall(buf);
    if s.None? {
      return IndexError;
    }
    buf := s.value.1;
    assert buf == input[13..];
    var rpts: seq<text> := [];
    while true
      invariant buf != []
      invariant match RptsOf(input[13..])
        case None => RptsOf(buf).None?
        case Some((all, rest)) => RptsOf(buf).Some? && RptsOf(buf).value.1 == rest && all == rpts + RptsOf(buf).value.0
      decreases |buf|
    {
      var ssid := buf[0];
      if ssid & 0x01 != 0 {
        break;
      }
      var r := DecodeCall(buf[1..]);
      if r.None? {
        return IndexError;
      }
      rpts := rpts + [r.value.0];
      assert buf[1..][6..] == buf[7..];
      buf := r.value.1;
    }
    buf := buf[1..];
    if buf == [] {
      return IndexError;
    }
    if buf[0] != CTRL_UI {
      return Nothing;
    }
    if |buf| < 2 {
      return IndexError;
    }
    if buf[1] != PID_NOLAYER3 {
      return Nothing;
    }
    assert rpts + [] == rpts;
    return Message(Packet(d.value.0, s.value.0, rpts, buf[0], buf[1], DropLastTwo(buf[2..])));
  }

  // --- The byte-level receiver ---

  datatype RxState = RxState(escape: bool, sync: bool, crc: bv16, buf: seq<byte>)

  const FRESH := RxState(false, false, C.INIT_VAL, [])

  /** The receiver right after a flag. */
  const SYNCED := RxState(false, true, C.INIT_VAL, [])

  function RxStep(s: RxState, c: byte): (RxState, Outcome) {
    if c == HDLC_FLAG && !s.escape then
      var o := if |s.buf| >= MIN_FRAME_LEN && s.crc == C.CORRECT then DecodePacket(s.buf) else Nothing;
      (if o == IndexError then s.(buf := []) else SYNCED, o)
    else if c == HDLC_RESET && !s.escape then
      (s.(sync := false), Nothing)
    else if c == AX25_ESC && !s.escape then
      (s.(escape := true), Nothing)
    else if s.sync then
      (RxState(false, true, C.Upd(c, s.crc), s.buf + [c]), Nothing)
    else
      (s.(escape := false), Nothing)
  }

  /** What a byte stream leads to, uneventful bytes left out. */
  function RxRun(s: RxState, bytes: seq<byte>): (RxState, seq<Outcome>)
    decreases |bytes|
  {
    if bytes == [] then (s, [])
    else
      var (t, o) := RxStep(s, bytes[0]);
      var (u, rest) := RxRun(t, bytes[1..]);
      (u, (if o == Nothing then [] else [o]) + rest)
  }

  /** The stream bytes of one frame; None with what was queued so far where the program raises an error. */
  function FrameStream(path: seq<text>, data: seq<byte>): (seq<byte>, bool) {
    var (addresses, ok) := PathBytes(path);
    if ok then ([HDLC_FLAG] + Escape(WithFcs(Content(addresses, data))) + [HDLC_FLAG], true)
    else ([HDLC_FLAG] + Escape(addresses), false)
  }

  class Ax25 {
    var escape: bool
    var sync: bool
    var crcIn: bv16
    var buf: seq<byte>
    var outbuf: seq<byte>
    var crcOut: bv16

    function Rx(): RxState
      reads this
    {
      RxState(escape, sync, crcIn, buf)
    }

    constructor ()
      ensures Rx() == FRESH && outbuf == []
    {
      escape := false;
      crcIn := C.INIT_VAL;
      sync := false;
      buf := [];
      outbuf := [];
      crcOut := C.INIT_VAL;
    }

    /** Queues data bytes, escaping control bytes, and adds them to the running CRC. */
    method QueueEscaped(data: seq<byte>)
      modifies `outbuf, `crcOut
      ensures outbuf == old(outbuf) + Escape(data)
      ensures crcOut == C.CrcOf(old(crcOut), data)
    {
      hide C.Upd, C.CrcOf, Escape;
      assert data[0..] == data;
      var i := 0;
      while i < |data|
        invariant 0 <= i <= |data|
        invariant outbuf + Escape(data[i..]) == old(outbuf) + Escape(data)
        invariant C.CrcOf(crcOut, data[i..]) == C.CrcOf(old(crcOut), data)
      {
        var c := data[i];
        ghost var before := outbuf;
        assert data[i..][1..] == data[i + 1..];
        DataNext(outbuf, crcOut, data[i..]);
        if c == HDLC_FLAG || c == HDLC_RESET || c == AX25_ESC {
          outbuf := outbuf + [AX25_ESC];
        }
        crcOut := C.Upd(c, crcOut);
        outbuf := outbuf + [c];
        assert outbuf == before + EscapeByte(c);
        i := i + 1;
      }
      assert data[i..] == [];
      NothingQueued(outbuf, crcOut);
    }

    method SendCall(call: text, last: bool) returns (ok: bool)
      modifies `outbuf, `crcOut
      ensures ok == CallBytes(call, last).Some?
      ensures outbuf == old(outbuf) + (if ok then Escape(CallBytes(call, last).value) else [])
      ensures crcOut == if ok then C.CrcOf(old(crcOut), CallBytes(call, last).value) else old(crcOut)
    {
      hide Escape, C.CrcOf, ParseInt, SsidByte;
      var up := Upper(call);
      var base, ssidValue := up, 0;
      var i := FindDash(up);
      if i < |up| {
        if DASH in up[i + 1..] {
          return false;
        }
        base := up[..i];
      }
      var padded := PadCall(base);
      PadSevenBit(base);
      if exists c | c in padded :: c >= 0x80 {
        return false;
      }
      if i < |up| {
        var v := ParseInt(up[i + 1..]);
        if v.None? {
          return false;
        }
        ssidValue := v.value;
      }
      QueueEscaped(ShiftChars(padded) + [SsidByte(ssidValue, last)]);
      return true;
    }

    /** The addresses of a frame, in order; stops at a call that raises an error. */
    method QueuePath(path: seq<text>) returns (ok: bool)
      modifies `outbuf, `crcOut
      ensures ok == PathBytes(path).1
      ensures outbuf == old(outbuf) + Escape(PathBytes(path).0)
      ensures crcOut == C.CrcOf(old(crcOut), PathBytes(path).0)
    {
      hide CallBytes, C.CrcOf, PathBytes, Escape;
      assert path[0..] == path;
      var i := 0;
      while i < |path|
        invariant 0 <= i <= |path|
        invariant PathBytes(path[i..]).1 == PathBytes(path).1
        invariant outbuf + Escape(PathBytes(path[i..]).0) == old(outbuf) + Escape(PathBytes(path).0)
        invariant C.CrcOf(crcOut, PathBytes(path[i..]).0) == C.CrcOf(old(crcOut), PathBytes(path).0)
      {
        assert path[i..][1..] == path[i + 1..];
        PathStep(path[i..]);
        ghost var rest := PathBytes(path[i + 1..]).0;
        ghost var before, crc := outbuf, crcOut;
        ok := SendCall(path[i], i == |path| - 1);
        if !ok {
          NothingQueued(outbuf, crcOut);
          return false;
        }
        QueueMore(before, crc, CallBytes(path[i], i == |path| - 1).value, rest);
        i := i + 1;
      }
      assert path[i..] == [];
      NoPath();
      NothingQueued(outbuf, crcOut);
      return true;
    }

    /** Control, protocol, payload and the complemented CRC of all of it. */
    method QueueContent(ghost addresses: seq<byte>, data: seq<byte>)
      requires crcOut == C.CrcOf(C.INIT_VAL, addresses)
      modifies `outbuf, `crcOut
      ensures outbuf == old(outbuf) + Escape(WithFcs(Content(addresses, data))[|addresses|..])
    {
      hide C.CrcOf, C.ComplementLow, C.ComplementHigh;
      ghost var before, crc := outbuf, crcOut;
      QueueEscaped([CTRL_UI]);
      QueueEscaped([PID_NOLAYER3]);
      QueueEscaped(data);
      QueueMore(before, crc, [CTRL_UI], [PID_NOLAYER3]);
      QueueMore(before, crc, [CTRL_UI] + [PID_NOLAYER3], data);
      ghost var body := [CTRL_UI] + [PID_NOLAYER3] + data;
      assert Content(addresses, data) == addresses + body;
      C.CrcConcat(C.INIT_VAL, addresses, body);
      var crcl := C.ComplementLow(crcOut);
      var crch := C.ComplementHigh(crcOut);
      QueueMore(before, crc, body, [crcl]);
      QueueMore(before, crc, body + [crcl], [crch]);
      assert WithFcs(Content(addresses, data))[|addresses|..] == body + [crcl] + [crch];
      QueueEscaped([crcl]);
      QueueEscaped([crch]);
    }

    /** Builds a frame and hands it to the modem; None where a call of the path raises an error. */
    method Send(path: seq<text>, data: seq<byte>) returns (r: Option<seq<byte>>)
      modifies `outbuf, `crcOut
      ensures var (stream, ok) := FrameStream(path, data);
        if ok then r == Some(old(outbuf) + stream) && outbuf == []
        else r == None && outbuf == old(outbuf) + stream
    {
      hide C.CrcOf, WithFcs, Content, CallBytes, Escape;
      crcOut := C.INIT_VAL;
      outbuf := outbuf + [HDLC_FLAG];
      var ok := QueuePath(path);
      ghost var addresses := PathBytes(path).0;
      if !ok {
        assert outbuf == old(outbuf) + ([HDLC_FLAG] + Escape(addresses));
        return None;
      }
      ghost var all := WithFcs(Content(addresses, data));
      assert all == addresses + all[|addresses|..] by { FcsKeepsContent(addresses, data); }
      EscapeConcat(addresses, all[|addresses|..]);
      QueueContent(addresses, data);
      assert outbuf == old(outbuf) + [HDLC_FLAG] + Escape(all);
      outbuf := outbuf + [HDLC_FLAG];
      assert outbuf == old(outbuf) + ([HDLC_FLAG] + Escape(all) + [HDLC_FLAG]);
      r := Some(outbuf);
      outbuf := [];
    }

    /** One byte from the modem. */
    method Process(c: byte) returns (o: Outcome)
      modifies `escape, `sync, `crcIn, `buf
      ensures (Rx(), o) == RxStep(old(Rx()), c)
    {
      hide C.Upd, DecodePacket;
      if !escape && c == HDLC_FLAG {
        o := Nothing;
        if |buf| >= MIN_FRAME_LEN {
          if crcIn == C.CORRECT {
            o := Decode(buf);
            if o.IndexError? {
              buf := [];
              return;
            }
          }
        }
        sync := true;
        crcIn := C.INIT_VAL;
        buf := [];
        return;
      }
      if !escape && c == HDLC_RESET {
        sync := false;
        return Nothing;
      }
      if !escape && c == AX25_ESC {
        escape := true;
        return Nothing;
      }
      if sync {
        buf := buf + [c];
        crcIn := C.Upd(c, crcIn);
      }
      escape := false;
      return Nothing;
    }
  }

  lemma FcsKeepsContent(addresses: seq<byte>, data: seq<byte>)
    ensures var all := WithFcs(Content(addresses, data));
      |addresses| <= |all| && all == addresses + all[|addresses|..]
  {
  }

  lemma PathStep(path: seq<text>)
    requires path != []
    ensures match CallBytes(path[0], |path| == 1)
      case None => PathBytes(path) == ([], false)
      case Some(b) => PathBytes(path) == (b + PathBytes(path[1..]).0, PathBytes(path[1..]).1)
  {
    hide CallBytes;
  }

  lemma NoPath()
    ensures PathBytes([]) == ([], true)
  {
  }

  lemma NothingQueued(before: seq<byte>, crc: bv16)
    ensures before + Escape([]) == before && C.CrcOf(crc, []) == crc
  {
    assert before + [] == before;
  }

  lemma DataNext(before: seq<byte>, crc: bv16, data: seq<byte>)
    requires data != []
    ensures before + Escape(data) == before + EscapeByte(data[0]) + Escape(data[1..])
    ensures C.CrcOf(crc, data) == C.CrcOf(C.Upd(data[0], crc), data[1..])
  {
    hide C.Upd;
    assert before + (EscapeByte(data[0]) + Escape(data[1..])) == before + EscapeByte(data[0]) + Escape(data[1..]);
  }

  lemma QueueMore(before: seq<byte>, crc: bv16, done: seq<byte>, more: seq<byte>)
    ensures before + Escape(done + more) == before + Escape(done) + Escape(more)
    ensures C.CrcOf(crc, done + more) == C.CrcOf(C.CrcOf(crc, done), more)
  {
    EscapeConcat(done, more);
    C.CrcConcat(crc, done, more);
  }

  lemma PadSevenBit(s: text)
    ensures SevenBit(PadCall(s)) <==> SevenBit(s)
    decreases 6 - |s|
  {
    assert forall c :: c in s + [BLANK] <==> c in s || c == BLANK;
  }
}
