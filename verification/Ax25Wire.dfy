/** What is on the wire, in plain numbers: calls, address bytes, frames, and what the receiver takes and rejects. */
module Ax25Wire {
  import opened Bits
  import opened Framing
  import opened Wrappers
  import opened Ax25
  import opened Ax25RoundTrip
  import C = CrcCcitt

  // --- Calls ---

  predicate SmallLetter(c: byte) {
    0x61 <= c <= 0x7a
  }

  /** Each character, small letters replaced by the capital 0x20 below; so that no small letter is left. */
  lemma {:induction false} UpperAt(s: text, i: nat)
    requires i < |s|
    ensures Upper(s)[i] == (if SmallLetter(s[i]) then s[i] - 0x20 else s[i]) && !SmallLetter(Upper(s)[i])
    decreases i
  {
    if i > 0 {
      UpperAt(s[1..], i - 1);
    }
  }

  /** Equal but for the case of letters. */
  predicate SameButCase(a: text, b: text) {
    |a| == |b| && forall i | 0 <= i < |a| ::
      a[i] == b[i] || (SmallLetter(a[i]) && b[i] == a[i] - 0x20) || (SmallLetter(b[i]) && a[i] == b[i] - 0x20)
  }

  lemma SameUpper(a: text, b: text)
    requires SameButCase(a, b)
    ensures Upper(a) == Upper(b)
  {
    hide Upper;
    forall i | 0 <= i < |a|
      ensures Upper(a)[i] == Upper(b)[i]
    {
      UpperAt(a, i);
      UpperAt(b, i);
    }
  }

  /** The case of letters makes no difference to what is sent. */
  lemma CaseDoesNotMatter(a: text, b: text, last: bool)
    requires SameButCase(a, b)
    ensures CallBytes(a, last) == CallBytes(b, last)
  {
    hide Upper, FindDash, ParseInt;
    SameUpper(a, b);
  }

  /** A plain call without small letters comes back as itself, with its SSID. */
  lemma CapitalsComeBack(base: text, ssid: byte)
    requires PlainBase(base) && ssid < 16 && forall i | 0 <= i < |base| :: !SmallLetter(base[i])
    ensures var call := base + [DASH] + Decimal(ssid);
      SplitCall(call).Some? && Canonical(call) == call
  {
    hide Upper, Canonical, SplitCall, Decimal;
    CanonicalOfPlainCall(base, ssid);
    forall i | 0 <= i < |base|
      ensures Upper(base)[i] == base[i]
    {
      UpperAt(base, i);
    }
    assert Upper(base) == base;
  }

  /** Blank, tab, line feed, vertical tab, form feed and carriage return. */
  const BLANKS: set<byte> := {0x20, 0x09, 0x0a, 0x0b, 0x0c, 0x0d}

  predicate AllBlank(s: text) {
    forall i | 0 <= i < |s| :: s[i] in BLANKS
  }

  lemma SliceOfRest(s: text, n: nat, k: nat)
    requires n + k <= |s|
    ensures s[n..][..k] == s[n..n + k] && s[n..][k..] == s[n + k..] && s[..n] + s[n..][..k] == s[..n + k]
  {
  }

  lemma BlankConcat(a: text, b: text)
    requires AllBlank(a) && AllBlank(b)
    ensures AllBlank(a + b)
  {
  }

  /** What is left, and that there were only blanks in front of it. */
  lemma {:induction false} StripLeftTrims(s: text)
    ensures var n := |s| - |StripLeft(s)|; n >= 0 && StripLeft(s) == s[n..] && AllBlank(s[..n])
    ensures StripLeft(s) != [] ==> StripLeft(s)[0] !in BLANKS
  {
    if s != [] && IsSpace(s[0]) {
      var n := |s[1..]| - |StripLeft(s[1..])|;
      StripLeftTrims(s[1..]);
      assert AllBlank(s[..1]);
      hide AllBlank, StripLeft;
      SliceOfRest(s, 1, n);
      BlankConcat(s[..1], s[1..][..n]);
    } else {
      assert s[0..] == s && AllBlank(s[..0]);
    }
  }

  lemma {:induction false} StripRightTrims(s: text)
    ensures var n := |StripRight(s)|; n <= |s| && StripRight(s) == s[..n] && AllBlank(s[n..])
    ensures StripRight(s) != [] ==> StripRight(s)[|StripRight(s)| - 1] !in BLANKS
  {
    var m := |s| - 1;
    if s != [] && IsSpace(s[m]) {
      var n := |StripRight(s[..m])|;
      StripRightTrims(s[..m]);
      assert AllBlank(s[m..]);
      hide AllBlank, StripRight;
      assert s[n..] == s[..m][n..] + s[m..] && s[..m][..n] == s[..n];
      BlankConcat(s[..m][n..], s[m..]);
    } else {
      assert s[..|s|] == s && AllBlank(s[|s|..]);
    }
  }

  /** The text r is what is left of s without blanks in front of n and from m on. */
  predicate Trims(s: text, r: text, n: nat, m: nat) {
    n <= m <= |s| && r == s[n..m] && AllBlank(s[..n]) && AllBlank(s[m..])
  }

  /** Stripping takes exactly the blanks at both ends. */
  lemma StripTrims(s: text)
    ensures exists n, m :: Trims(s, Strip(s), n, m)
    ensures Strip(s) != [] ==> Strip(s)[0] !in BLANKS && Strip(s)[|Strip(s)| - 1] !in BLANKS
  {
    hide StripLeft, StripRight, AllBlank;
    var t := StripLeft(s);
    StripLeftTrims(s);
    StripRightTrims(t);
    var n, k := |s| - |t|, |StripRight(t)|;
    SliceOfRest(s, n, k);
    assert Trims(s, Strip(s), n, n + k);
  }

  // --- Numbers ---

  lemma {:induction false} DigitsAppend(s: text, d: byte, acc: nat)
    requires 0x30 <= d <= 0x39 && DigitsValue(s, acc).Some?
    ensures DigitsValue(s + [d], acc) == Some(10 * DigitsValue(s, acc).value + (d - 0x30) as nat)
    decreases |s|
  {
    if s == [] {
      assert [] + [d] == [d] && [d][1..] == [];
    } else {
      assert (s + [d])[1..] == s[1..] + [d];
      DigitsAppend(s[1..], d, 10 * acc + (s[0] - DIGIT0) as nat);
    }
  }

  predicate AllDigits(s: text) {
    forall i | 0 <= i < |s| :: 0x30 <= s[i] <= 0x39
  }

  lemma {:induction false} DigitsOnly(s: text, acc: nat)
    ensures DigitsValue(s, acc).Some? <==> AllDigits(s)
    decreases |s|
  {
    if s != [] {
      DigitsOnly(s[1..], 10 * acc + (if s[0] >= 0x30 then (s[0] - 0x30) as nat else 0));
      assert AllDigits(s) <==> 0x30 <= s[0] <= 0x39 && AllDigits(s[1..]) by {
        if 0x30 <= s[0] <= 0x39 && AllDigits(s[1..]) {
          assert forall i | 1 <= i < |s| :: s[i] == s[1..][i - 1];
        }
      }
    }
  }

  lemma {:induction false} StripFront(pre: text, t: text)
    requires AllBlank(pre) && t != [] && t[0] !in BLANKS
    ensures StripLeft(pre + t) == t
    decreases |pre|
  {
    if pre == [] {
      assert pre + t == t;
    } else {
      assert (pre + t)[1..] == pre[1..] + t;
      StripFront(pre[1..], t);
    }
  }

  lemma {:induction false} StripBack(t: text, post: text)
    requires AllBlank(post) && t != [] && t[|t| - 1] !in BLANKS
    ensures StripRight(t + post) == t
    decreases |post|
  {
    if post == [] {
      assert t + post == t;
    } else {
      var n := |post| - 1;
      assert (t + post)[..|t| + n] == t + post[..n];
      StripBack(t, post[..n]);
    }
  }

  /** A decimal numeral, with a plus sign or without, has its value whatever blanks there are around it. */
  lemma NumeralsParse(pre: text, plus: bool, digits: text, post: text)
    requires AllBlank(pre) && AllBlank(post) && digits != [] && AllDigits(digits)
    ensures DigitsValue(digits, 0).Some?
    ensures ParseInt(pre + (if plus then [0x2b] else []) + digits + post) == DigitsValue(digits, 0)
  {
    var t := (if plus then [0x2b] else []) + digits;
    DigitsOnly(digits, 0);
    assert t != [] && t[0] !in BLANKS && t[|t| - 1] == digits[|digits| - 1] && t[|t| - 1] !in BLANKS;
    hide StripLeft, StripRight, DigitsValue;
    assert pre + (if plus then [0x2b] else []) + digits + post == pre + (t + post);
    StripFront(pre, t + post);
    StripBack(t, post);
    assert Strip(pre + (t + post)) == t;
    if plus {
      assert t[1..] == digits;
    } else {
      assert t == digits;
    }
  }

  predicate Numeral(s: text, pre: text, plus: bool, digits: text, post: text) {
    && AllBlank(pre) && AllBlank(post) && digits != [] && AllDigits(digits)
    && s == pre + (if plus then [0x2b] else []) + digits + post
  }

  lemma ParsedDigits(t: text, digits: text, plus: bool)
    requires plus == (t != [] && t[0] == 0x2b) && digits == if plus then t[1..] else t
    requires DigitsValue(digits, 0).Some?
    ensures AllDigits(digits) && t == (if plus then [0x2b] else []) + digits
  {
    DigitsOnly(digits, 0);
  }

  lemma NumeralAt(s: text, n: nat, m: nat, plus: bool, digits: text)
    requires n <= m <= |s| && s[n..m] == (if plus then [0x2b] else []) + digits
    requires AllBlank(s[..n]) && AllBlank(s[m..]) && digits != [] && AllDigits(digits)
    ensures Numeral(s, s[..n], plus, digits, s[m..])
  {
    hide AllBlank, AllDigits;
    assert s == s[..n] + s[n..m] + s[m..];
    var sign := if plus then [0x2b] else [];
    assert s[..n] + (sign + digits) + s[m..] == s[..n] + sign + digits + s[m..];
  }

  /** Nothing else has a value. */
  lemma OnlyNumeralsParse(s: text)
    requires ParseInt(s).Some?
    ensures exists pre, plus, digits, post :: Numeral(s, pre, plus, digits, post)
  {
    hide Strip, AllBlank, AllDigits, DigitsValue, Numeral;
    var t := Strip(s);
    var plus := t != [] && t[0] == 0x2b;
    var digits := if plus then t[1..] else t;
    ParsedDigits(t, digits, plus);
    StripTrims(s);
    var n: nat, m: nat :| Trims(s, t, n, m);
    NumeralAt(s, n, m, plus, digits);
  }

  /** SSIDs are spelled with one digit or two, without a leading zero. */
  lemma DecimalDigits(n: byte)
    requires n < 16
    ensures Decimal(n) == if n < 10 then [0x30 + n] else [0x31, 0x30 + (n - 10)]
  {
  }

  // --- Addresses ---

  lemma {:induction false} ShiftCharsAt(s: text, i: nat)
    requires i < |s|
    ensures |ShiftChars(s)| == |s| && ShiftChars(s)[i] == s[i] << 1
    decreases |s|
  {
    if |s| > 1 {
      ShiftCharsAt(s[1..], if i > 0 then i - 1 else 0);
    } else {
      assert s[1..] == [];
    }
  }

  /** A short call is filled up with blanks, a long one left as it is. */
  lemma {:induction false} PadFills(s: text)
    ensures s <= PadCall(s) && |PadCall(s)| == (if |s| < 6 then 6 else |s|)
    ensures forall i | |s| <= i < |PadCall(s)| :: PadCall(s)[i] == 0x20
    decreases 6 - |s|
  {
    if |s| < 6 {
      PadFills(s + [BLANK]);
    }
  }

  /** The SSID byte: bits 7 to 5 are 011, then four bits of the SSID, then whether the address is the last one. */
  lemma SsidLayout(ssid: nat, last: bool)
    ensures var b := SsidByte(ssid, last);
      b & 0xe0 == 0x60 && (b >> 1) & 0x0f == LowNibble(ssid) && (b & 0x01 != 0 <==> last)
  {
    SsidBits(ssid, last);
    var n := LowNibble(ssid);
    assert n & 0xf0 == 0;
  }

  lemma NibbleValue(n: byte)
    requires n < 16
    ensures LowNibble(n as nat) == n && LowNibble(n as nat + 16) == n
  {
    LowNibbleOfByte(n);
    var m: byte := n + 16;
    assert (n as nat + 16) as bv8 == m;
  }

  // --- Frames ---

  /** Escape bytes go in front of three byte values and no others. */
  lemma EscapedBytes(c: byte)
    ensures EscapeByte(c) == if c == 0x1b || c == 0x7e || c == 0x7f then [0x1b, c] else [c]
  {
  }

  lemma ComplementIs(crc: bv16)
    ensures C.ComplementLow(crc) == ((crc & 0xff) ^ 0xff) as bv8 && C.ComplementHigh(crc) == ((crc >> 8) ^ 0xff) as bv8
  {
  }

  /** A frame: flag, addresses, control and protocol, payload, complemented CRC with the low byte first, flag. */
  lemma FrameLayout(path: seq<text>, data: seq<byte>)
    requires PathBytes(path).1
    ensures var content := PathBytes(path).0 + [0x03, 0xf0] + data;
      var crc := C.CrcOf(0xffff, content);
      FrameStream(path, data)
      == ([0x7e] + Escape(content + [((crc & 0xff) ^ 0xff) as bv8, ((crc >> 8) ^ 0xff) as bv8]) + [0x7e], true)
  {
    hide C.CrcOf, Escape, PathBytes, C.ComplementLow, C.ComplementHigh;
    ComplementIs(C.CrcOf(0xffff, PathBytes(path).0 + [0x03, 0xf0] + data));
  }

  /** Between two flags a packet is decoded if and only if there are eighteen bytes and the CRC comes to 0xf0b8. */
  lemma ReceiverGate(f: seq<byte>)
    ensures var good := |f| >= 18 && C.CrcOf(0xffff, f) == 0xf0b8;
      var o := if good then DecodePacket(f) else Nothing;
      RxRun(SYNCED, Escape(f) + [0x7e]).1 == if o == Nothing then [] else [o]
  {
    hide C.CrcOf, Escape, DecodePacket, RxRun;
    RxFrame(f);
  }

  /** After a reset byte nothing is collected up to the next flag. */
  lemma ResetIgnoresRest(f: seq<byte>, g: seq<byte>)
    ensures RxRun(SYNCED, Escape(f) + [0x7f] + (Escape(g) + [0x7e])) == RxRun(SYNCED, Escape(f) + [0x7f] + [0x7e])
  {
    hide C.CrcOf, Escape, DecodePacket, RxRun;
    var head := Escape(f) + [0x7f];
    RxEscaped(SYNCED, f);
    RxConcat(SYNCED, Escape(f), [0x7f]);
    var s := RxRun(SYNCED, Escape(f)).0;
    RxOneByte(s, 0x7f);
    var t := RxRun(SYNCED, head).0;
    assert !t.sync && !t.escape;
    RxEscaped(t, g);
    RxConcat(t, Escape(g), [0x7e]);
    RxConcat(SYNCED, head, Escape(g) + [0x7e]);
    RxConcat(SYNCED, head, [0x7e]);
    var o := RxRun(t, [0x7e]).1;
    assert [] + o == o;
  }

  // --- Broken frames ---

  /** A good check sequence over too few bytes for two addresses ends in an index error. */
  lemma NoRoomForAddresses(f: seq<byte>)
    requires |f| < 14
    ensures DecodePacket(f) == IndexError
  {
  }

  lemma {:induction false} RptsRunOut(f: seq<byte>)
    requires forall j: nat | 7 * j < |f| :: f[7 * j] & 0x01 == 0
    ensures RptsOf(f).None?
    decreases |f|
  {
    if |f| >= 8 {
      assert f[7 * 0] & 0x01 == 0;
      forall j: nat | 7 * j < |f[7..]|
        ensures f[7..][7 * j] & 0x01 == 0
      {
        assert f[7..][7 * j] == f[7 * (j + 1)];
      }
      RptsRunOut(f[7..]);
    } else if f != [] {
      assert f[7 * 0] & 0x01 == 0;
    }
  }

  /** So does a frame none of whose addresses is marked as the last one. */
  lemma NoLastAddress(f: seq<byte>)
    requires |f| >= 14 && forall j: nat | 13 + 7 * j < |f| :: f[13 + 7 * j] & 0x01 == 0
    ensures DecodePacket(f) == IndexError
  {
    forall j: nat | 7 * j < |f[13..]|
      ensures f[13..][7 * j] & 0x01 == 0
    {
      assert f[13..][7 * j] == f[13 + 7 * j];
    }
    RptsRunOut(f[13..]);
  }

  lemma ShortShape(d: seq<byte>, s: seq<byte>, more: seq<byte>, rpts: seq<text>, rest: seq<byte>)
    requires |d| == 7 && |s| == 7 && |rest| < 2 && RptsOf([s[6]] + more) == Some((rpts, rest))
    ensures DecodePacket(d + (s + more)) == if rest == [] || rest[0] == 0x03 then IndexError else Nothing
  {
    hide CallText, RptsOf;
    assert (d + (s + more))[13..] == [s[6]] + more;
  }

  /** A frame that ends behind its addresses, or behind the control byte. */
  lemma ShortContent(path: seq<text>, ctrl: byte)
    requires |path| >= 2 && ValidPath(path)
    ensures PathBytes(path).1 && DecodePacket(PathBytes(path).0) == IndexError
    ensures DecodePacket(PathBytes(path).0 + [ctrl]) == if ctrl == 0x03 then IndexError else Nothing
  {
    hide PathBytes, CallBytes, ValidCall, Canonical, CallText, RptsOf, DecodePacket;
    PathSplit(path);
    var d, s, r := CallBytes(path[0], false).value, CallBytes(path[1], |path| == 2).value, PathBytes(path[2..]).0;
    CallRoundTrip(path[0], false, []);
    CallRoundTrip(path[1], |path| == 2, []);
    RptsRoundTrip(s[6], path[2..], []);
    RptsRoundTrip(s[6], path[2..], [ctrl]);
    assert [s[6]] + r + [] == [s[6]] + r && [s[6]] + r + [ctrl] == [s[6]] + (r + [ctrl]);
    ShortShape(d, s, r, CanonicalPath(path[2..]), []);
    ShortShape(d, s, r + [ctrl], CanonicalPath(path[2..]), [ctrl]);
    assert PathBytes(path).0 + [ctrl] == d + (s + (r + [ctrl]));
  }

  lemma RejectShape(d: seq<byte>, s: seq<byte>, more: seq<byte>, rpts: seq<text>, ctrl: byte, pid: byte, rest: seq<byte>)
    requires |d| == 7 && |s| == 7
    requires RptsOf([s[6]] + more) == Some((rpts, [ctrl, pid] + rest))
    ensures ctrl == 0x03 && pid == 0xf0 ==> DecodePacket(d + (s + more)).Message?
    ensures ctrl != 0x03 || pid != 0xf0 ==> DecodePacket(d + (s + more)) == Nothing
  {
    hide CallText, RptsOf;
    var buf := d + (s + more);
    assert buf[13..] == [s[6]] + more;
  }

  /** Of frames with any path, only those with control byte 0x03 and protocol byte 0xf0 are taken. */
  lemma OtherFramesAreRejected(path: seq<text>, ctrl: byte, pid: byte, rest: seq<byte>)
    requires |path| >= 2 && ValidPath(path)
    ensures PathBytes(path).1
    ensures DecodePacket(PathBytes(path).0 + [ctrl, pid] + rest).Message? <==> ctrl == 0x03 && pid == 0xf0
    ensures ctrl != 0x03 || pid != 0xf0 ==> DecodePacket(PathBytes(path).0 + [ctrl, pid] + rest) == Nothing
  {
    hide PathBytes, CallBytes, ValidCall, Canonical, CallText, RptsOf, DecodePacket;
    PathSplit(path);
    var d, s, r := CallBytes(path[0], false).value, CallBytes(path[1], |path| == 2).value, PathBytes(path[2..]).0;
    CallRoundTrip(path[0], false, []);
    CallRoundTrip(path[1], |path| == 2, []);
    assert d + [] == d && s + [] == s;
    var tail := [ctrl, pid] + rest;
    RptsRoundTrip(s[6], path[2..], tail);
    var all := PathBytes(path).0 + [ctrl, pid] + rest;
    assert all == d + (s + (r + tail));
    assert [s[6]] + r + tail == [s[6]] + (r + tail);
    RejectShape(d, s, r + tail, CanonicalPath(path[2..]), ctrl, pid, rest);
  }
}
