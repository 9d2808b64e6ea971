/**
 The whole radio link: packet sender, modulator, tones, demodulator, packet receiver. What one
 station sends is what the other one receives, from any receiver state and with either polarity.
 */
module RadioLink {
  import opened Bits
  import opened Framing
  import C = CrcCcitt
  import H = Hdlc
  import M = Afsk
  import A = Ax25
  import R = Ax25RoundTrip

  // --- The transmitter sends flags, the stuffed frame, and flags ---

  lemma {:induction false} TxConcat(cfg: M.Config, s: M.TxState, a: seq<byte>, b: seq<byte>)
    ensures var (t, first) := M.TxAll(cfg, s, a);
      var (u, rest) := M.TxAll(cfg, t, b);
      M.TxAll(cfg, s, a + b) == (u, first + rest)
    decreases |a|
  {
    hide M.TxByte;
    if a == [] {
      assert a + b == b;
      assert [] + M.TxAll(cfg, s, b).1 == M.TxAll(cfg, s, b).1;
    } else {
      assert (a + b)[1..] == a[1..] + b;
      var (t, from, bits) := M.TxByte(cfg, s, a[0]);
      TxConcat(cfg, t, a[1..], b);
      var (u, mid) := M.TxAll(cfg, t, a[1..]);
      var rest := M.TxAll(cfg, u, b).1;
      assert M.Modulate(from, bits) + (mid + rest) == (M.Modulate(from, bits) + mid) + rest;
    }
  }

  lemma TxOneByte(cfg: M.Config, s: M.TxState, c: byte)
    ensures var (t, from, bits) := M.TxByte(cfg, s, c);
      M.TxAll(cfg, s, [c]) == (t, M.Modulate(from, bits))
  {
    hide M.TxByte;
    var (t, from, bits) := M.TxByte(cfg, s, c);
    assert [c][1..] == [] && M.TxAll(cfg, t, []) == (t, []);
    assert M.Modulate(from, bits) + [] == M.Modulate(from, bits);
  }

  /** The state after sending stuffed data bits. */
  function AfterData(s: M.TxState, bits: seq<bool>): M.TxState {
    M.TxState(M.LastTone(s.tone, H.Stuff(bits, s.stuffCnt)), H.OnesAfter(bits, s.stuffCnt), false, s.sending)
  }

  lemma TxEscapedByte(cfg: M.Config, s: M.TxState, c: byte)
    requires !s.escape
    ensures M.TxAll(cfg, s, EscapeByte(c))
         == (AfterData(s, LsbFirst(c)), M.Modulate(s.tone, H.Stuff(LsbFirst(c), s.stuffCnt)))
  {
    hide M.TxAll, LsbFirst;
    if IsControl(c) {
      assert [AX25_ESC, c] == [AX25_ESC] + [c];
      TxConcat(cfg, s, [AX25_ESC], [c]);
      TxOneByte(cfg, s, AX25_ESC);
      TxOneByte(cfg, s.(escape := true), c);
      var tones := M.Modulate(s.tone, H.Stuff(LsbFirst(c), s.stuffCnt));
      assert M.Modulate(s.tone, []) + tones == tones;
    } else {
      TxOneByte(cfg, s, c);
    }
  }

  /** Escaped data is sent as its plain bits, stuffed, with one running count of ones. */
  lemma {:induction false} TxEscaped(cfg: M.Config, s: M.TxState, f: seq<byte>)
    requires !s.escape
    ensures M.TxAll(cfg, s, Escape(f))
         == (AfterData(s, MessageBits(true, f)), M.Modulate(s.tone, H.Stuff(MessageBits(true, f), s.stuffCnt)))
    decreases |f|
  {
    hide LsbFirst;
    if f != [] {
      var b := LsbFirst(f[0]);
      var rest := MessageBits(true, f[1..]);
      var t := AfterData(s, b);
      TxEscapedByte(cfg, s, f[0]);
      TxConcat(cfg, s, EscapeByte(f[0]), Escape(f[1..]));
      TxEscaped(cfg, t, f[1..]);
      H.StuffConcat(b, rest, s.stuffCnt);
      M.ModulateConcat(s.tone, H.Stuff(b, s.stuffCnt), H.Stuff(rest, t.stuffCnt));
    }
  }

  /** The bits of a frame on the air. */
  function FrameBits(cfg: M.Config, f: seq<byte>): seq<bool> {
    Repeat(cfg.preamble, H.FLAG_BITS) + H.Stuff(MessageBits(true, f), 0) + Repeat(cfg.trailer, H.FLAG_BITS)
  }

  /** Between writes the transmitter is neither inside a frame nor after an escape byte. */
  predicate TxIdle(s: M.TxState) {
    !s.escape && !s.sending
  }

  lemma TxFrame(cfg: M.Config, s: M.TxState, f: seq<byte>)
    requires TxIdle(s)
    ensures var (t, tones) := M.TxAll(cfg, s, [HDLC_FLAG] + Escape(f) + [HDLC_FLAG]);
      TxIdle(t) && tones == M.Modulate(M.Mark, FrameBits(cfg, f))
  {
    hide M.TxAll;
    var pre, post := Repeat(cfg.preamble, H.FLAG_BITS), Repeat(cfg.trailer, H.FLAG_BITS);
    var body := H.Stuff(MessageBits(true, f), 0);
    var s1 := M.TxState(M.LastTone(M.Mark, pre), 0, false, true);
    TxOneByte(cfg, s, HDLC_FLAG);
    TxEscaped(cfg, s1, f);
    var s2 := AfterData(s1, MessageBits(true, f));
    TxOneByte(cfg, s2, HDLC_FLAG);
    TxConcat(cfg, s, [HDLC_FLAG], Escape(f));
    TxConcat(cfg, s, [HDLC_FLAG] + Escape(f), [HDLC_FLAG]);
    M.ModulateConcat(M.Mark, pre, body);
    M.ModulateConcat(M.Mark, pre + body, post);
  }

  // --- The receiver ---

  /** Bit receiver and packet receiver, one feeding the other. */
  datatype Station = Station(h: H.RxState, a: A.RxState)

  const FRESH := Station(H.FRESH, A.FRESH)
  const SYNCED := Station(H.SYNCED, A.SYNCED)

  function Receive(s: Station, bits: seq<bool>): (Station, seq<A.Outcome>) {
    var (h, bytes) := H.RxRun(s.h, bits);
    var (a, o) := A.RxRun(s.a, bytes);
    (Station(h, a), o)
  }

  lemma ReceiveConcat(s: Station, x: seq<bool>, y: seq<bool>)
    ensures var (t, o) := Receive(s, x);
      var (u, p) := Receive(t, y);
      Receive(s, x + y) == (u, o + p)
  {
    H.RxConcat(s.h, x, y);
    R.RxConcat(s.a, H.RxRun(s.h, x).1, H.RxRun(H.RxRun(s.h, x).0, y).1);
  }

  /** Nothing half received: true of a fresh station and after every flag. */
  predicate Quiet(s: Station) {
    && H.Tail(s.h.demodBits, 0) && (s.h.rxStart ==> s.h.bitIdx == 0)
    && !s.a.escape && s.a.buf == []
  }

  lemma ReceiveFlag(s: Station)
    requires Quiet(s)
    ensures Receive(s, H.FLAG_BITS) == (SYNCED, [])
  {
    H.FlagIsClean(s.h, 0);
    R.RxOneByte(s.a, HDLC_FLAG);
  }

  lemma {:induction false} ReceiveFlags(s: Station, n: nat)
    requires Quiet(s) && n >= 1
    ensures Receive(s, Repeat(n, H.FLAG_BITS)) == (SYNCED, [])
    decreases n
  {
    hide Receive;
    ReceiveFlag(s);
    var none: seq<A.Outcome> := [];
    assert none + none == none;
    if n == 1 {
      assert Repeat(n, H.FLAG_BITS) == H.FLAG_BITS + Repeat(0, H.FLAG_BITS) == H.FLAG_BITS;
    } else {
      ReceiveConcat(s, H.FLAG_BITS, Repeat(n - 1, H.FLAG_BITS));
      ReceiveFlags(SYNCED, n - 1);
    }
  }

  /** Stuffed frame bits and the flag after them, heard after a flag. */
  lemma ReceiveBody(f: seq<byte>)
    ensures Receive(SYNCED, H.Stuff(MessageBits(true, f), 0) + H.FLAG_BITS)
         == var (a, o) := A.RxRun(A.SYNCED, Escape(f) + [HDLC_FLAG]);
            (Station(H.SYNCED, a), o)
  {
    var body := H.Stuff(MessageBits(true, f), 0);
    H.RxMessage(H.SYNCED, f, 0);
    var h := H.RxRun(H.SYNCED, body).0;
    H.FlagIsClean(h, H.OnesAfter(MessageBits(true, f), 0));
    H.RxConcat(H.SYNCED, body, H.FLAG_BITS);
  }

  /** Stuffed frame bits between runs of flags come down to the escaped frame and one flag. */
  lemma ReceiveFrameBits(cfg: M.Config, s: Station, f: seq<byte>)
    requires Quiet(s) && cfg.preamble >= 1 && cfg.trailer >= 1
    requires A.RxRun(A.SYNCED, Escape(f) + [HDLC_FLAG]).0 == A.SYNCED
    ensures Receive(s, FrameBits(cfg, f)) == (SYNCED, A.RxRun(A.SYNCED, Escape(f) + [HDLC_FLAG]).1)
  {
    hide Receive, A.RxRun, H.Stuff, MessageBits, Escape;
    var pre, post := Repeat(cfg.preamble, H.FLAG_BITS), Repeat(cfg.trailer - 1, H.FLAG_BITS);
    var body := H.Stuff(MessageBits(true, f), 0);
    var o := A.RxRun(A.SYNCED, Escape(f) + [HDLC_FLAG]).1;
    assert FrameBits(cfg, f) == pre + (body + H.FLAG_BITS) + post;
    ReceiveFlags(s, cfg.preamble);
    ReceiveBody(f);
    ReceiveConcat(s, pre, body + H.FLAG_BITS);
    ReceiveConcat(s, pre + (body + H.FLAG_BITS), post);
    assert [] + o == o && o + [] == o;
    if cfg.trailer > 1 {
      ReceiveFlags(SYNCED, cfg.trailer - 1);
    } else {
      ReceiveNothing(SYNCED);
    }
  }

  lemma ReceiveNothing(s: Station)
    ensures Receive(s, []) == (s, [])
  {
  }

  // --- Sending and receiving ---

  datatype Frame = Frame(path: seq<A.text>, data: seq<byte>)

  /** A frame that can be sent: at least two calls, all accepted by the sender. */
  predicate Sendable(fr: Frame) {
    |fr.path| >= 2 && R.ValidPath(fr.path)
  }

  /** What is between the flags of a frame, before escaping and stuffing. */
  function Bytes(fr: Frame): seq<byte> {
    A.WithFcs(A.Content(A.PathBytes(fr.path).0, fr.data))
  }

  function Delivered(fr: Frame): A.Outcome
    requires Sendable(fr)
  {
    A.Message(R.Received(fr.path, fr.data))
  }

  lemma StreamOfFrame(fr: Frame)
    requires Sendable(fr)
    ensures A.FrameStream(fr.path, fr.data) == ([HDLC_FLAG] + Escape(Bytes(fr)) + [HDLC_FLAG], true)
    ensures A.RxRun(A.SYNCED, Escape(Bytes(fr)) + [HDLC_FLAG]) == (A.SYNCED, [Delivered(fr)])
  {
    R.PacketRoundTrip(fr.path, fr.data);
    R.FrameRoundTrip(fr.path, fr.data);
  }

  /** A frame heard by a quiet station is delivered, once, and leaves it synchronised. */
  lemma FrameIsDelivered(cfg: M.Config, s: Station, fr: Frame)
    requires Quiet(s) && Sendable(fr) && cfg.preamble >= 1 && cfg.trailer >= 1
    ensures Receive(s, FrameBits(cfg, Bytes(fr))) == (SYNCED, [Delivered(fr)])
  {
    StreamOfFrame(fr);
    ReceiveFrameBits(cfg, s, Bytes(fr));
  }

  /** A station that hears bits but has found no flag among them. */
  predicate Deaf(s: Station) {
    Quiet(s) && !s.h.rxStart
  }

  /** Without an opening flag nothing is heard, without a closing one nothing is delivered. */
  lemma BothFlagsNeeded(cfg: M.Config, s: Station, fr: Frame)
    requires Sendable(fr) && Deaf(s)
    ensures Receive(s, FrameBits(cfg, Bytes(fr))).1 == [Delivered(fr)] <==> cfg.preamble >= 1 && cfg.trailer >= 1
  {
    hide Receive, FrameBits, Bytes;
    if cfg.preamble >= 1 && cfg.trailer >= 1 {
      FrameIsDelivered(cfg, s, fr);
    } else if cfg.trailer == 0 {
      UnclosedFrame(cfg, s, Bytes(fr));
    } else {
      UnopenedFrame(cfg, s, Bytes(fr));
    }
  }

  lemma ReceiveDeaf(s: Station, bits: seq<bool>) returns (u: Station)
    requires Deaf(s)
    ensures Receive(s, H.Stuff(bits, 0)) == (u, [])
    ensures Receive(u, H.FLAG_BITS) == (SYNCED, [])
  {
    H.RxDeaf(s.h, bits, 0);
    u := Station(H.RxRun(s.h, H.Stuff(bits, 0)).0, s.a);
    H.FlagIsClean(u.h, H.OnesAfter(bits, 0));
    R.RxOneByte(s.a, HDLC_FLAG);
  }

  lemma UnopenedFrame(cfg: M.Config, s: Station, f: seq<byte>)
    requires cfg.preamble == 0 && Deaf(s)
    ensures Receive(s, FrameBits(cfg, f)).1 == []
  {
    hide Receive, H.RxRun, Quiet;
    var bits := MessageBits(true, f);
    var body, post := H.Stuff(bits, 0), Repeat(cfg.trailer, H.FLAG_BITS);
    var u := ReceiveDeaf(s, bits);
    assert FrameBits(cfg, f) == body + post;
    ReceiveConcat(s, body, post);
    var none: seq<A.Outcome> := [];
    assert none + none == none;
    if cfg.trailer > 0 {
      ReceiveConcat(u, H.FLAG_BITS, Repeat(cfg.trailer - 1, H.FLAG_BITS));
      assert Quiet(SYNCED) by {
        SyncedIsQuiet();
      }
      FlagsAreQuiet(SYNCED, cfg.trailer - 1);
    } else {
      ReceiveNothing(u);
    }
  }

  lemma SyncedIsQuiet()
    ensures Quiet(SYNCED)
  {
  }

  lemma FlagsAreQuiet(s: Station, n: nat)
    requires Quiet(s)
    ensures Receive(s, Repeat(n, H.FLAG_BITS)) == (if n == 0 then s else SYNCED, [])
  {
    if n == 0 {
      ReceiveNothing(s);
    } else {
      ReceiveFlags(s, n);
    }
  }

  lemma UnclosedFrame(cfg: M.Config, s: Station, f: seq<byte>)
    requires cfg.trailer == 0 && Deaf(s)
    ensures Receive(s, FrameBits(cfg, f)).1 == []
  {
    var pre, body := Repeat(cfg.preamble, H.FLAG_BITS), H.Stuff(MessageBits(true, f), 0);
    assert FrameBits(cfg, f) == pre + body;
    FlagsAreQuiet(s, cfg.preamble);
    ReceiveConcat(s, pre, body);
    if cfg.preamble == 0 {
      H.RxDeaf(s.h, MessageBits(true, f), 0);
    } else {
      H.RxMessage(H.SYNCED, f, 0);
      R.RxEscaped(A.SYNCED, f);
    }
  }

  // --- Tones, polarity, any number of frames ---

  /** The levels of a transmission as a receiver hears them, `prev` being the level before. */
  function Hear(prev: bool, inverted: bool, s: Station, tones: seq<M.Tone>): (Station, seq<A.Outcome>) {
    Receive(s, M.Demodulate(prev, M.Levels(tones, inverted)))
  }

  /** The tones of a sequence of frames, each written on its own by one transmitter. */
  function SendAll(cfg: M.Config, s: M.TxState, frames: seq<Frame>): seq<M.Tone>
    decreases |frames|
  {
    if frames == [] then []
    else
      var (t, tones) := M.TxAll(cfg, s, A.FrameStream(frames[0].path, frames[0].data).0);
      tones + SendAll(cfg, t, frames[1..])
  }

  function AllDelivered(frames: seq<Frame>): seq<A.Outcome>
    requires forall i | 0 <= i < |frames| :: Sendable(frames[i])
  {
    if frames == [] then [] else [Delivered(frames[0])] + AllDelivered(frames[1..])
  }

  lemma FirstBitOf(cfg: M.Config, f: seq<byte>)
    requires cfg.preamble >= 1
    ensures var bits, rest := FrameBits(cfg, f), FrameBits(cfg.(preamble := cfg.preamble - 1), f);
      && bits != [] && !bits[0] && bits == H.FLAG_BITS + rest && [false] + bits[1..] == bits
      && [true] + bits[1..] == H.LOST_FLAG + rest
  {
    hide FrameBits;
    FrameOpens(cfg, f);
    H.FlagBits();
  }

  lemma FrameOpens(cfg: M.Config, f: seq<byte>)
    requires cfg.preamble >= 1
    ensures FrameBits(cfg, f) == H.FLAG_BITS + FrameBits(cfg.(preamble := cfg.preamble - 1), f)
  {
    hide H.Stuff, MessageBits;
  }

  /** The first bit of a transmission may be misread; with two opening flags nothing else suffers. */
  lemma FirstFlagMayBeLost(cfg: M.Config, s: Station, f: seq<byte>)
    requires Quiet(s) && cfg.preamble >= 2 && cfg.trailer >= 1
    requires A.RxRun(A.SYNCED, Escape(f) + [HDLC_FLAG]).0 == A.SYNCED
    ensures FrameBits(cfg, f) != [] && !FrameBits(cfg, f)[0]
    ensures Receive(s, [true] + FrameBits(cfg, f)[1..]) == Receive(s, FrameBits(cfg, f))
  {
    hide Receive, A.RxRun, FrameBits, Escape;
    var rest := FrameBits(cfg.(preamble := cfg.preamble - 1), f);
    FirstBitOf(cfg, f);
    ReceiveConcat(s, H.LOST_FLAG, rest);
    ReceiveLostFlag(s);
    ReceiveFrameBits(cfg, s, f);
    ReceiveFrameBits(cfg.(preamble := cfg.preamble - 1), Receive(s, H.LOST_FLAG).0, f);
    var o := A.RxRun(A.SYNCED, Escape(f) + [HDLC_FLAG]).1;
    assert [] + o == o;
  }

  lemma ReceiveLostFlag(s: Station)
    requires Quiet(s)
    ensures var (t, o) := Receive(s, H.LOST_FLAG); Deaf(t) && o == []
  {
    H.LostFlagResets(s.h);
    H.LostFlagIsSilent(s.h);
  }

  /** With a wrong reference level a fresh station needs two opening flags, with the right one it needs one. */
  lemma OpeningFlagsNeeded(cfg: M.Config, prev: bool, inverted: bool, fr: Frame)
    requires Sendable(fr) && cfg.preamble >= 1
    ensures Hear(prev, inverted, FRESH, M.Modulate(M.Mark, FrameBits(cfg, Bytes(fr)))).1 == [Delivered(fr)]
       <==> cfg.trailer >= 1 && (cfg.preamble >= 2 || prev == M.Level(M.Mark, inverted))
  {
    hide Receive, Bytes, FrameBits, M.Modulate, M.Levels, M.Demodulate, M.Level;
    var bits := FrameBits(cfg, Bytes(fr));
    var fewer := cfg.(preamble := cfg.preamble - 1);
    FirstBitOf(cfg, Bytes(fr));
    M.FirstBitMayFlip(prev, M.Mark, bits, inverted);
    if prev == M.Level(M.Mark, inverted) {
      BothFlagsNeeded(cfg, FRESH, fr);
    } else {
      ReceiveConcat(FRESH, H.LOST_FLAG, FrameBits(fewer, Bytes(fr)));
      ReceiveLostFlag(FRESH);
      BothFlagsNeeded(fewer, Receive(FRESH, H.LOST_FLAG).0, fr);
      var o := Receive(Receive(FRESH, H.LOST_FLAG).0, FrameBits(fewer, Bytes(fr))).1;
      assert [] + o == o;
    }
  }

  lemma HearFrame(cfg: M.Config, prev: bool, inverted: bool, s: Station, fr: Frame)
    requires Quiet(s) && Sendable(fr) && cfg.preamble >= 2 && cfg.trailer >= 1
    ensures Hear(prev, inverted, s, M.Modulate(M.Mark, FrameBits(cfg, Bytes(fr)))) == (SYNCED, [Delivered(fr)])
  {
    hide Receive, Bytes, FrameBits, Quiet, A.RxRun, M.Modulate, M.Levels, M.Demodulate, M.Level;
    var bits := FrameBits(cfg, Bytes(fr));
    StreamOfFrame(fr);
    FrameIsDelivered(cfg, s, fr);
    FirstFlagMayBeLost(cfg, s, Bytes(fr));
    FirstBitOf(cfg, Bytes(fr));
    M.FirstBitMayFlip(prev, M.Mark, bits, inverted);
  }

  /**
   Everything a station sends is received, in order and once, by a quiet receiver with any reference
   level and either polarity, when frames open with two flags and close with one.
   */
  lemma {:induction false} EveryFrameIsDelivered(cfg: M.Config, t: M.TxState, prev: bool, inverted: bool, s: Station,
                                                 frames: seq<Frame>)
    requires TxIdle(t) && Quiet(s) && cfg.preamble >= 2 && cfg.trailer >= 1
    requires forall i | 0 <= i < |frames| :: Sendable(frames[i])
    ensures Hear(prev, inverted, s, SendAll(cfg, t, frames)).1 == AllDelivered(frames)
    decreases |frames|
  {
    if frames == [] {
      ReceiveNothing(s);
    } else {
      var fr := frames[0];
      StreamOfFrame(fr);
      TxFrame(cfg, t, Bytes(fr));
      var (u, tones) := M.TxAll(cfg, t, A.FrameStream(fr.path, fr.data).0);
      var rest := SendAll(cfg, u, frames[1..]);
      HearFrame(cfg, prev, inverted, s, fr);
      HearConcat(prev, inverted, s, tones, rest);
      var last := LastLevel(prev, M.Levels(tones, inverted));
      EveryFrameIsDelivered(cfg, u, last, inverted, SYNCED, frames[1..]);
    }
  }

  function LastLevel(prev: bool, levels: seq<bool>): bool {
    if levels == [] then prev else levels[|levels| - 1]
  }

  lemma HearConcat(prev: bool, inverted: bool, s: Station, x: seq<M.Tone>, y: seq<M.Tone>)
    ensures var (t, o) := Hear(prev, inverted, s, x);
      var (u, p) := Hear(LastLevel(prev, M.Levels(x, inverted)), inverted, t, y);
      Hear(prev, inverted, s, x + y) == (u, o + p)
  {
    hide Receive;
    var a, b := M.Levels(x, inverted), M.Levels(y, inverted);
    M.LevelsConcat(x, y, inverted);
    M.DemodulateConcat(prev, a, b);
    ReceiveConcat(s, M.Demodulate(prev, a), M.Demodulate(LastLevel(prev, a), b));
  }

  // --- Receivers caught in any state ---

  /** The bit receiver hands over whole escape sequences only. */
  lemma {:induction false} EscapesComeWhole(h: H.RxState, a: A.RxState, bits: seq<bool>)
    requires !a.escape
    ensures !A.RxRun(a, H.RxRun(h, bits).1).0.escape
    decreases |bits|
  {
    if bits != [] {
      var (t, out) := H.RxStep(h, bits[0]);
      StepIsWhole(h, a, bits[0]);
      var rest := H.RxRun(t, bits[1..]).1;
      R.RxConcat(a, out, rest);
      EscapesComeWhole(t, A.RxRun(a, out).0, bits[1..]);
    }
  }

  lemma StepIsWhole(h: H.RxState, a: A.RxState, bit: bool)
    requires !a.escape
    ensures !A.RxRun(a, H.RxStep(h, bit).1).0.escape
  {
    var out := H.RxStep(h, bit).1;
    if out != [] {
      if out == [HDLC_FLAG] {
        R.RxOneByte(a, HDLC_FLAG);
      } else {
        R.RxEscapedByte(a, out[|out| - 1]);
      }
    }
  }

  /** After one flag any station is quiet, and synchronised unless a decoding error left the check sequence behind. */
  lemma FlagQuietens(s: Station)
    requires !s.a.escape
    ensures var t := Receive(s, H.FLAG_BITS).0; Quiet(t) && t.h == H.SYNCED && (t == SYNCED || t.a.crc == C.CORRECT)
  {
    hide H.BeforeFlag;
    H.FlagSyncs(s.h);
    EscapesComeWhole(s.h, s.a, [false] + H.Ones(6));
    assert H.BeforeFlag(s.h) == H.RxRun(s.h, [false] + H.Ones(6)).1 by {
      BeforeFlagIs(s.h);
    }
    var a := A.RxRun(s.a, H.BeforeFlag(s.h)).0;
    R.RxConcat(s.a, H.BeforeFlag(s.h), [HDLC_FLAG]);
    R.RxOneByte(a, HDLC_FLAG);
  }

  lemma BeforeFlagIs(h: H.RxState)
    ensures H.BeforeFlag(h) == H.RxRun(h, [false] + H.Ones(6)).1
  {
  }

  /** A receiver whose check sequence was not reset takes no frame at the next flag. */
  lemma StaleCrcDropsFrame(a: A.RxState, f: seq<byte>)
    requires !a.escape && a.buf == [] && a.crc == C.CORRECT
    ensures C.CrcOf(C.INIT_VAL, f) == C.CORRECT ==> A.RxRun(a, Escape(f) + [HDLC_FLAG]) == (A.SYNCED, [])
  {
    hide C.CrcOf, A.RxRun, A.DecodePacket, Escape;
    if C.CrcOf(C.CORRECT, f) == C.CORRECT == C.CrcOf(C.INIT_VAL, f) {
      C.CrcInjective(C.CORRECT, C.INIT_VAL, f);
    }
    R.RxEscaped(a, f);
    assert [] + f == f;
    R.RxConcat(a, Escape(f), [HDLC_FLAG]);
    R.RxOneByte(A.RxRun(a, Escape(f)).0, HDLC_FLAG);
    var none: seq<A.Outcome> := [];
    assert none + none == none;
  }

  lemma StaleStationDropsFrame(cfg: M.Config, s: Station, f: seq<byte>)
    requires Quiet(s) && s.h == H.SYNCED && s.a.crc == C.CORRECT && C.CrcOf(C.INIT_VAL, f) == C.CORRECT
    requires cfg.preamble == 0 && cfg.trailer >= 1
    ensures Receive(s, FrameBits(cfg, f)).1 == []
  {
    hide C.CrcOf, A.RxRun, H.Stuff, MessageBits, Escape, H.RxRun;
    var bits := MessageBits(true, f);
    var body, post := H.Stuff(bits, 0), Repeat(cfg.trailer - 1, H.FLAG_BITS);
    assert FrameBits(cfg, f) == (body + H.FLAG_BITS) + post;
    H.RxMessage(H.SYNCED, f, 0);
    var h := H.RxRun(H.SYNCED, body).0;
    H.FlagIsClean(h, H.OnesAfter(bits, 0));
    H.RxConcat(H.SYNCED, body, H.FLAG_BITS);
    StaleCrcDropsFrame(s.a, f);
    ReceiveConcat(s, body + H.FLAG_BITS, post);
    SyncedIsQuiet();
    FlagsAreQuiet(SYNCED, cfg.trailer - 1);
  }

  /**
   A station in the middle of anything receives the frame after what the first flag stirs up, if and only if there
   are two opening flags or that flag has left it synchronised.
   */
  lemma AnyStationHears(cfg: M.Config, s: Station, fr: Frame)
    requires !s.a.escape && Sendable(fr) && cfg.preamble >= 1 && cfg.trailer >= 1
    ensures var (t, o) := Receive(s, H.FLAG_BITS);
      var (u, p) := Receive(s, FrameBits(cfg, Bytes(fr)));
      && (p == o + [Delivered(fr)] <==> cfg.preamble >= 2 || t == SYNCED)
      && (cfg.preamble >= 2 || t == SYNCED ==> u == SYNCED)
  {
    hide Receive, Bytes, FrameBits, Quiet, C.CrcOf;
    var (t, o) := Receive(s, H.FLAG_BITS);
    var fewer := cfg.(preamble := cfg.preamble - 1);
    var rest := FrameBits(fewer, Bytes(fr));
    FlagQuietens(s);
    FirstBitOf(cfg, Bytes(fr));
    ReceiveConcat(s, H.FLAG_BITS, rest);
    if cfg.preamble >= 2 {
      FrameIsDelivered(fewer, t, fr);
    } else if t == SYNCED {
      FrameIsDelivered(cfg, SYNCED, fr);
      ReceiveFlag(SYNCED);
      ReceiveConcat(SYNCED, H.FLAG_BITS, rest);
      var q := Receive(SYNCED, rest).1;
      assert [] + q == q;
    } else {
      GoodBytes(fr);
      StaleStationDropsFrame(fewer, t, Bytes(fr));
      assert o + [] == o;
    }
  }

  lemma GoodBytes(fr: Frame)
    ensures C.CrcOf(C.INIT_VAL, Bytes(fr)) == C.CORRECT
  {
    hide C.CrcOf;
    C.GoodFrameResidue(C.INIT_VAL, A.Content(A.PathBytes(fr.path).0, fr.data));
  }

  /** The same on the air: a wrong reference level takes one more flag, and what the misread one stirs up. */
  lemma AnyStationHearsTones(cfg: M.Config, prev: bool, inverted: bool, s: Station, fr: Frame)
    requires !s.a.escape && Sendable(fr) && cfg.trailer >= 1
    requires cfg.preamble >= if prev == M.Level(M.Mark, inverted) then 1 else 2
    ensures var right := prev == M.Level(M.Mark, inverted);
      var (t, o) := Receive(s, if right then H.FLAG_BITS else H.LOST_FLAG + H.FLAG_BITS);
      var (u, p) := Hear(prev, inverted, s, M.Modulate(M.Mark, FrameBits(cfg, Bytes(fr))));
      && (p == o + [Delivered(fr)] <==> cfg.preamble >= (if right then 2 else 3) || t == SYNCED)
      && (cfg.preamble >= (if right then 2 else 3) || t == SYNCED ==> u == SYNCED)
  {
    hide Receive, Bytes, FrameBits, M.Modulate, M.Levels, M.Demodulate, M.Level, H.RxRun;
    var bits := FrameBits(cfg, Bytes(fr));
    FirstBitOf(cfg, Bytes(fr));
    M.FirstBitMayFlip(prev, M.Mark, bits, inverted);
    if prev == M.Level(M.Mark, inverted) {
      AnyStationHears(cfg, s, fr);
    } else {
      var fewer := cfg.(preamble := cfg.preamble - 1);
      var (t, o) := Receive(s, H.LOST_FLAG);
      ReceiveConcat(s, H.LOST_FLAG, FrameBits(fewer, Bytes(fr)));
      ReceiveConcat(s, H.LOST_FLAG, H.FLAG_BITS);
      NotEscaped(s, H.LOST_FLAG);
      AnyStationHears(fewer, t, fr);
      var p, q := Receive(t, H.FLAG_BITS).1, Receive(t, FrameBits(fewer, Bytes(fr))).1;
      assert (o + p) + [Delivered(fr)] == o + (p + [Delivered(fr)]);
      SamePrefix(o, q, p + [Delivered(fr)]);
    }
  }

  lemma SamePrefix<T>(a: seq<T>, b: seq<T>, c: seq<T>)
    ensures a + b == a + c <==> b == c
  {
    assert (a + b)[|a|..] == b && (a + c)[|a|..] == c;
  }

  lemma NotEscaped(s: Station, bits: seq<bool>)
    requires !s.a.escape
    ensures !Receive(s, bits).0.a.escape
  {
    EscapesComeWhole(s.h, s.a, bits);
  }
}
