/**
 * Sending with failures: a request that raises an error leaves the beginning of a frame in the buffer, which goes out
 * in front of the next frame and turns preambles into trailers and back from then on.
 */
module RadioRequests {
  import opened Bits
  import opened Framing
  import opened RadioLink
  import opened Wrappers
  import C = CrcCcitt
  import H = Hdlc
  import M = Afsk
  import A = Ax25
  import R = Ax25RoundTrip

  // --- What is handed to the modem ---

  predicate Fails(fr: Frame) {
    !A.PathBytes(fr.path).1
  }

  /** The bytes handed over in all, given what is left in the buffer. */
  function Handed(pending: seq<byte>, requests: seq<Frame>): seq<byte>
    decreases |requests|
  {
    if requests == [] then [] else
    var (stream, ok) := A.FrameStream(requests[0].path, requests[0].data);
    if ok then pending + stream + Handed([], requests[1..]) else Handed(pending + stream, requests[1..])
  }

  function Joined(requests: seq<Frame>): seq<byte>
    decreases |requests|
  {
    if requests == [] then []
    else A.FrameStream(requests[0].path, requests[0].data).0 + Joined(requests[1..])
  }

  /** Nothing is left over if there are no requests or the last one succeeds. */
  predicate EndsWell(requests: seq<Frame>) {
    requests != [] ==> !Fails(requests[|requests| - 1])
  }

  lemma {:induction false} HandedIsJoined(pending: seq<byte>, requests: seq<Frame>)
    requires EndsWell(requests) && (requests == [] ==> pending == [])
    ensures Handed(pending, requests) == pending + Joined(requests)
    decreases |requests|
  {
    hide A.FrameStream, Fails;
    if requests != [] {
      var (stream, ok) := A.FrameStream(requests[0].path, requests[0].data);
      FailsIs(requests[0]);
      HandedIsJoined(if ok then [] else pending + stream, requests[1..]);
      assert pending + (stream + Joined(requests[1..])) == pending + stream + Joined(requests[1..]);
    }
  }

  // --- The receiver between flags ---

  /** After so many flags the station is in the given state, with the outcome; one lost flag before them is no matter. */
  predicate Turns(s: Station, flags: nat, x: Station, o: seq<A.Outcome>) {
    && Receive(s, Repeat(flags, H.FLAG_BITS)) == (x, o)
    && var (t, lost) := Receive(s, H.LOST_FLAG); lost == [] && Receive(t, Repeat(flags, H.FLAG_BITS)) == (x, o)
  }

  lemma OneFlag()
    ensures Repeat(1, H.FLAG_BITS) == H.FLAG_BITS
  {
    assert Repeat(0, H.FLAG_BITS) == [] && H.FLAG_BITS + [] == H.FLAG_BITS;
  }

  lemma QuietTurns(s: Station)
    requires Quiet(s)
    ensures Turns(s, 1, SYNCED, [])
  {
    OneFlag();
    ReceiveFlag(s);
    ReceiveLostFlag(s);
    ReceiveFlag(Receive(s, H.LOST_FLAG).0);
  }

  /** What a receiver makes of escaped bytes and a flag. */
  function HeardFrom(a: A.RxState, f: seq<byte>): (A.RxState, seq<A.Outcome>) {
    A.RxRun(a, Escape(f) + [HDLC_FLAG])
  }

  function Heard(f: seq<byte>): (A.RxState, seq<A.Outcome>) {
    HeardFrom(A.SYNCED, f)
  }

  /** The station after the stuffed bits of f, heard after a flag. */
  function Loaded(a: A.RxState, f: seq<byte>): Station {
    Receive(Station(H.SYNCED, a), H.Stuff(MessageBits(true, f), 0)).0
  }

  lemma LoadedTurns(a: A.RxState, f: seq<byte>)
    requires !a.escape
    ensures Receive(Station(H.SYNCED, a), H.Stuff(MessageBits(true, f), 0)).1 == [] && !Loaded(a, f).a.escape
    ensures Turns(Loaded(a, f), 1, Station(H.SYNCED, HeardFrom(a, f).0), HeardFrom(a, f).1)
  {
    hide H.RxRun, A.RxRun, A.RxStep, C.CrcOf, MessageBits, H.Stuff, Escape, Repeat;
    var bits := MessageBits(true, f);
    var s := Loaded(a, f);
    OneFlag();
    H.RxMessage(H.SYNCED, f, 0);
    R.RxEscaped(a, f);
    R.RxConcat(a, Escape(f), [HDLC_FLAG]);
    H.FlagIsClean(s.h, H.OnesAfter(bits, 0));
    H.LostFlagAfterMessage(s.h, H.OnesAfter(bits, 0));
    H.LostFlagResets(s.h);
    var t := H.RxRun(s.h, H.LOST_FLAG).0;
    H.FlagIsClean(t, 0);
    assert A.RxRun(s.a, []) == (s.a, []) by {
      NoBytes(s.a);
    }
    var o := A.RxRun(s.a, [HDLC_FLAG]).1;
    assert [] + o == o;
  }

  lemma NoBytes(a: A.RxState)
    ensures A.RxRun(a, []) == (a, [])
  {
  }

  /** One flag leaves any station quiet, so that a second one synchronises it. */
  lemma SecondFlagSyncs(s: Station, x: Station, o: seq<A.Outcome>)
    requires !s.a.escape && Turns(s, 1, x, o)
    ensures Quiet(x) && (x == SYNCED || x.a.crc == C.CORRECT)
    ensures Turns(s, 2, SYNCED, o)
  {
    hide Receive, Quiet;
    OneFlag();
    FlagQuietens(s);
    FlagsEnd(s, x, o, 1, 2);
    FlagsEnd(Receive(s, H.LOST_FLAG).0, x, o, 1, 2);
  }

  lemma RepeatSplit(n: nat, k: nat)
    requires k <= n
    ensures Repeat(n, H.FLAG_BITS) == Repeat(k, H.FLAG_BITS) + Repeat(n - k, H.FLAG_BITS)
    decreases k
  {
    if k == 0 {
      assert [] + Repeat(n, H.FLAG_BITS) == Repeat(n, H.FLAG_BITS);
    } else {
      RepeatSplit(n - 1, k - 1);
      var a, b := Repeat(k - 1, H.FLAG_BITS), Repeat(n - k, H.FLAG_BITS);
      assert H.FLAG_BITS + (a + b) == (H.FLAG_BITS + a) + b;
    }
  }

  /** More flags than are needed leave a quiet station synchronised. */
  lemma FlagsEnd(s: Station, x: Station, o: seq<A.Outcome>, k: nat, n: nat)
    requires k <= n && Receive(s, Repeat(k, H.FLAG_BITS)) == (x, o) && Quiet(x)
    ensures Receive(s, Repeat(n, H.FLAG_BITS)) == (if n == k then x else SYNCED, o)
  {
    hide Receive, Quiet;
    RepeatSplit(n, k);
    FlagsAreQuiet(x, n - k);
    ReceiveConcat(s, Repeat(k, H.FLAG_BITS), Repeat(n - k, H.FLAG_BITS));
    assert o + [] == o;
  }

  /** Flags of which the first bit may be misread; a misread one does not count. */
  lemma MisreadFlags(n: nat, right: bool)
    requires n >= 1
    ensures Repeat(n, H.FLAG_BITS) != [] && !Repeat(n, H.FLAG_BITS)[0]
    ensures [!right] + Repeat(n, H.FLAG_BITS)[1..]
         == if right then Repeat(n, H.FLAG_BITS) else H.LOST_FLAG + Repeat(n - 1, H.FLAG_BITS)
  {
    var rest := Repeat(n - 1, H.FLAG_BITS);
    assert Repeat(n, H.FLAG_BITS) == H.FLAG_BITS + rest;
    assert H.FLAG_BITS == [false] + H.FLAG_BITS[1..] && H.LOST_FLAG == [true] + H.FLAG_BITS[1..];
    assert (H.FLAG_BITS + rest)[1..] == H.FLAG_BITS[1..] + rest;
  }

  lemma MisreadFlagsEnd(s: Station, x: Station, o: seq<A.Outcome>, k: nat, n: nat, right: bool)
    requires Turns(s, k, x, o) && Quiet(x) && 1 <= k <= if right then n else n - 1
    ensures Repeat(n, H.FLAG_BITS) != [] && !Repeat(n, H.FLAG_BITS)[0]
    ensures Receive(s, [!right] + Repeat(n, H.FLAG_BITS)[1..])
         == (if k == if right then n else n - 1 then x else SYNCED, o)
  {
    hide Receive, Quiet, Repeat;
    MisreadFlags(n, right);
    if right {
      FlagsEnd(s, x, o, k, n);
    } else {
      ReceiveConcat(s, H.LOST_FLAG, Repeat(n - 1, H.FLAG_BITS));
      FlagsEnd(Receive(s, H.LOST_FLAG).0, x, o, k, n - 1);
      assert [] + o == o;
    }
  }

  // --- Levels ---

  lemma {:induction false} LevelAfter(t: M.Tone, bits: seq<bool>, inverted: bool)
    ensures LastLevel(M.Level(t, inverted), M.Levels(M.Modulate(t, bits), inverted))
         == M.Level(M.LastTone(t, bits), inverted)
    decreases |bits|
  {
    if bits != [] {
      var next := if bits[0] then t else M.Switch(t);
      var rest := M.Levels(M.Modulate(next, bits[1..]), inverted);
      LevelAfter(next, bits[1..], inverted);
      assert M.Levels(M.Modulate(t, bits), inverted) == [M.Level(next, inverted)] + rest;
    }
  }

  lemma LevelAfterAny(prev: bool, t: M.Tone, bits: seq<bool>, inverted: bool)
    requires bits != []
    ensures LastLevel(prev, M.Levels(M.Modulate(t, bits), inverted)) == M.Level(M.LastTone(t, bits), inverted)
  {
    LevelAfter(t, bits, inverted);
  }

  // --- Sending ---

  /** The flags a receiver gets to see for a flag byte: all of a trailer, of a preamble one less at a wrong level. */
  function FlagsHeard(cfg: M.Config, t: M.TxState, prev: bool, inverted: bool): int {
    if t.sending then cfg.trailer else if prev == M.Level(M.Mark, inverted) then cfg.preamble else cfg.preamble - 1
  }

  /** A flag byte ends what the station has received, whether it is sent as a preamble or as a trailer. */
  lemma FlagArrives(cfg: M.Config, t: M.TxState, prev: bool, inverted: bool, s: Station, x: Station,
                    o: seq<A.Outcome>, k: nat)
    requires !t.escape && Turns(s, k, x, o) && Quiet(x) && 1 <= k <= FlagsHeard(cfg, t, prev, inverted)
    requires t.sending ==> prev == M.Level(t.tone, inverted)
    ensures var (u, tones) := M.TxAll(cfg, t, [HDLC_FLAG]);
      && u.stuffCnt == 0 && !u.escape && u.sending == !t.sending
      && Hear(prev, inverted, s, tones) == (if k == FlagsHeard(cfg, t, prev, inverted) then x else SYNCED, o)
      && LastLevel(prev, M.Levels(tones, inverted)) == M.Level(u.tone, inverted)
  {
    hide Receive, Turns, Repeat, Quiet, M.Modulate, M.Levels, M.Demodulate, M.Level, M.LastTone, M.TxAll;
    var n := if t.sending then cfg.trailer else cfg.preamble;
    var from := if t.sending then t.tone else M.Mark;
    var bits := Repeat(n, H.FLAG_BITS);
    var right := prev == M.Level(from, inverted);
    TxOneByte(cfg, t, HDLC_FLAG);
    MisreadFlagsEnd(s, x, o, k, n, right);
    M.FirstBitMayFlip(prev, from, bits, inverted);
    LevelAfterAny(prev, from, bits, inverted);
  }

  /** Escaped bytes between flags load the station. */
  lemma ChunkArrives(cfg: M.Config, t: M.TxState, inverted: bool, a: A.RxState, f: seq<byte>)
    requires !t.escape && t.stuffCnt == 0 && !a.escape
    ensures var prev, (u, tones) := M.Level(t.tone, inverted), M.TxAll(cfg, t, Escape(f));
      && !u.escape && u.sending == t.sending
      && Hear(prev, inverted, Station(H.SYNCED, a), tones) == (Loaded(a, f), [])
      && LastLevel(prev, M.Levels(tones, inverted)) == M.Level(u.tone, inverted)
  {
    hide Receive, M.Modulate, M.Levels, M.Demodulate, M.Level, M.LastTone, M.TxAll, H.Stuff, MessageBits, Escape,
         A.RxRun, Turns;
    var bits := H.Stuff(MessageBits(true, f), 0);
    TxEscaped(cfg, t, f);
    M.DemodulateModulate(t.tone, bits, inverted);
    LevelAfter(t.tone, bits, inverted);
    LoadedTurns(a, f);
  }

  // --- Any requests ---

  /** What goes out between the opening flag of a request and the next flag. */
  function Chunk(fr: Frame): seq<byte> {
    if Fails(fr) then A.PathBytes(fr.path).0 else Bytes(fr)
  }

  /** A request that fails, or one whose frame can be decoded. */
  predicate Regular(fr: Frame) {
    Fails(fr) || Sendable(fr)
  }

  /** The message of a request that succeeds, or what a receiver makes of the leftover of one that fails. */
  function Arrival(fr: Frame): seq<A.Outcome>
    requires Regular(fr)
  {
    if Fails(fr) then Heard(Chunk(fr)).1 else [Delivered(fr)]
  }

  predicate AllRegular(requests: seq<Frame>) {
    forall i | 0 <= i < |requests| :: Regular(requests[i])
  }

  function Arrivals(requests: seq<Frame>): seq<A.Outcome>
    requires AllRegular(requests)
  {
    if requests == [] then [] else Arrival(requests[0]) + Arrivals(requests[1..])
  }

  /** The leftover of the request passes for a frame, and decoding it raises an error. */
  predicate Breaks(fr: Frame) {
    && Fails(fr) && |Chunk(fr)| >= A.MIN_FRAME_LEN && C.CrcOf(C.INIT_VAL, Chunk(fr)) == C.CORRECT
    && A.DecodePacket(Chunk(fr)) == A.IndexError
  }

  /** The flags it takes to be done with the request. */
  function FlagsAfter(fr: Frame): nat {
    if Breaks(fr) then 2 else 1
  }

  lemma BreaksLeavesCrc(fr: Frame)
    requires Regular(fr)
    ensures Heard(Chunk(fr)) == (if Breaks(fr) then A.SYNCED.(crc := C.CORRECT) else A.SYNCED, Arrival(fr))
    ensures Breaks(fr) ==> Arrival(fr) == [A.IndexError]
  {
    hide A.RxRun, C.CrcOf, Escape, A.PathBytes, A.DecodePacket, Bytes;
    if Fails(fr) {
      R.RxFrame(Chunk(fr));
    } else {
      StreamOfFrame(fr);
    }
  }

  /** A leftover that is too short for a frame, or has a wrong CRC, is not reported. */
  lemma LeftoverIsSilent(fr: Frame)
    requires Fails(fr) && (|Chunk(fr)| < A.MIN_FRAME_LEN || C.CrcOf(C.INIT_VAL, Chunk(fr)) != C.CORRECT)
    ensures !Breaks(fr) && Arrival(fr) == []
  {
    hide A.RxRun, C.CrcOf, Escape, A.PathBytes;
    R.RxFrame(Chunk(fr));
  }

  lemma StreamIsChunk(fr: Frame)
    requires Regular(fr)
    ensures A.FrameStream(fr.path, fr.data).0
         == [HDLC_FLAG] + Escape(Chunk(fr)) + if Fails(fr) then [] else [HDLC_FLAG]
  {
    hide A.RxRun, C.CrcOf, Escape, A.PathBytes, Bytes;
    if !Fails(fr) {
      StreamOfFrame(fr);
    }
  }

  /** The station after the chunk of a request turns to its arrival with the flags it takes, at most two. */
  lemma ChunkTurns(fr: Frame)
    requires Regular(fr)
    ensures var s := Loaded(A.SYNCED, Chunk(fr));
      Turns(s, FlagsAfter(fr), SYNCED, Arrival(fr))
  {
    hide Receive, A.RxRun, C.CrcOf, Escape, Chunk, Breaks, Turns, Arrival, Quiet;
    LoadedTurns(A.SYNCED, Chunk(fr));
    BreaksLeavesCrc(fr);
    SecondFlagSyncs(Loaded(A.SYNCED, Chunk(fr)), Station(H.SYNCED, Heard(Chunk(fr)).0), Heard(Chunk(fr)).1);
  }

  /** A flag and the chunk after it. */
  lemma OpeningArrives(cfg: M.Config, t: M.TxState, prev: bool, inverted: bool, s: Station, x: A.RxState,
                       o: seq<A.Outcome>, k: nat, f: seq<byte>)
    requires !t.escape && Turns(s, k, Station(H.SYNCED, x), o) && Quiet(Station(H.SYNCED, x))
    requires 1 <= k <= FlagsHeard(cfg, t, prev, inverted)
    requires t.sending ==> prev == M.Level(t.tone, inverted)
    ensures var (u, tones) := M.TxAll(cfg, t, [HDLC_FLAG] + Escape(f));
      && !u.escape && u.sending == !t.sending
      && Hear(prev, inverted, s, tones)
         == (Loaded(if k == FlagsHeard(cfg, t, prev, inverted) then x else A.SYNCED, f), o)
      && LastLevel(prev, M.Levels(tones, inverted)) == M.Level(u.tone, inverted)
  {
    var a := if k == FlagsHeard(cfg, t, prev, inverted) then x else A.SYNCED;
    hide Receive, Hear, Turns, Escape, M.TxAll, M.Levels, M.Level, Loaded;
    FlagArrives(cfg, t, prev, inverted, s, Station(H.SYNCED, x), o, k);
    hide FlagsHeard;
    var (u, first) := M.TxAll(cfg, t, [HDLC_FLAG]);
    ChunkArrives(cfg, u, inverted, a, f);
    var rest := M.TxAll(cfg, u, Escape(f)).1;
    TxConcat(cfg, t, [HDLC_FLAG], Escape(f));
    HearConcat(prev, inverted, s, first, rest);
    LastLevelConcat(prev, inverted, first, rest);
    assert o + [] == o;
  }

  lemma LastLevelConcat(prev: bool, inverted: bool, x: seq<M.Tone>, y: seq<M.Tone>)
    ensures LastLevel(prev, M.Levels(x + y, inverted))
         == LastLevel(LastLevel(prev, M.Levels(x, inverted)), M.Levels(y, inverted))
  {
    M.LevelsConcat(x, y, inverted);
  }

  /** After a request the station has its message, or awaits what its leftover comes to. */
  lemma RequestArrives(cfg: M.Config, t: M.TxState, prev: bool, inverted: bool, s: Station, o: seq<A.Outcome>, k: nat,
                       fr: Frame)
    returns (u: M.TxState, v: Station, now: seq<A.Outcome>, later: seq<A.Outcome>)
    requires cfg.preamble >= 2 && cfg.trailer >= 1 && Regular(fr)
    requires !t.escape && Turns(s, k, SYNCED, o) && 1 <= k <= FlagsHeard(cfg, t, prev, inverted)
    requires t.sending ==> prev == M.Level(t.tone, inverted)
    ensures var stream := A.FrameStream(fr.path, fr.data).0;
      && M.TxAll(cfg, t, stream).0 == u && !u.escape
      && Hear(prev, inverted, s, M.TxAll(cfg, t, stream).1) == (v, now)
      && LastLevel(prev, M.Levels(M.TxAll(cfg, t, stream).1, inverted)) == M.Level(u.tone, inverted)
    ensures Turns(v, if Fails(fr) then FlagsAfter(fr) else 1, SYNCED, later)
    ensures now + later == o + Arrival(fr) && (!Fails(fr) ==> later == [])
  {
    hide Receive, Hear, Turns, Escape, M.TxAll, M.Levels, M.Level, Loaded, Chunk, Arrival, A.FrameStream, Quiet, Breaks,
         Fails, Regular;
    var f := Chunk(fr);
    var opening := [HDLC_FLAG] + Escape(f);
    StreamIsChunk(fr);
    ChunkTurns(fr);
    SyncedIsQuiet();
    OpeningArrives(cfg, t, prev, inverted, s, A.SYNCED, o, k, f);
    var (w, first) := M.TxAll(cfg, t, opening);
    if Fails(fr) {
      assert opening + [] == opening;
      u, v, now, later := w, Loaded(A.SYNCED, f), o, Arrival(fr);
    } else {
      SucceedsWithoutBreaking(fr);
      FlagArrives(cfg, w, M.Level(w.tone, inverted), inverted, Loaded(A.SYNCED, f), SYNCED, Arrival(fr), 1);
      var second := M.TxAll(cfg, w, [HDLC_FLAG]).1;
      TxConcat(cfg, t, opening, [HDLC_FLAG]);
      HearConcat(prev, inverted, s, first, second);
      LastLevelConcat(prev, inverted, first, second);
      QuietTurns(SYNCED);
      u, v, now, later := M.TxAll(cfg, w, [HDLC_FLAG]).0, SYNCED, o + Arrival(fr), [];
    }
  }

  lemma SucceedsWithoutBreaking(fr: Frame)
    ensures !Fails(fr) ==> FlagsAfter(fr) == 1
  {
  }

  /** Enough flags for every request: one more where one of the leftovers breaks the decoder. */
  predicate EnoughFlags(cfg: M.Config, requests: seq<Frame>) {
    && cfg.preamble >= 2 && cfg.trailer >= 1
    && ((cfg.preamble >= 3 && cfg.trailer >= 2) || forall i | 0 <= i < |requests| :: !Breaks(requests[i]))
  }

  lemma {:induction false} RequestsArrive(cfg: M.Config, t: M.TxState, prev: bool, inverted: bool, s: Station,
                                          o: seq<A.Outcome>, k: nat, requests: seq<Frame>)
    requires EnoughFlags(cfg, requests) && !t.escape && Turns(s, k, SYNCED, o) && 1 <= k < cfg.preamble && k <= cfg.trailer
    requires t.sending ==> prev == M.Level(t.tone, inverted)
    requires AllRegular(requests) && EndsWell(requests) && (requests == [] ==> o == [])
    ensures Hear(prev, inverted, s, M.TxAll(cfg, t, Joined(requests)).1).1 == o + Arrivals(requests)
    decreases |requests|
  {
    hide Receive, Hear, Turns, M.TxAll, M.Levels, M.Level, Arrival, A.FrameStream, Regular, LastLevel, Fails, Breaks;
    if requests == [] {
      NothingHeard(cfg, t, prev, inverted, s);
    } else {
      var fr, rest := requests[0], requests[1..];
      assert Regular(fr);
      var stream := A.FrameStream(fr.path, fr.data).0;
      var u, v, now, later := RequestArrives(cfg, t, prev, inverted, s, o, k, fr);
      assert Breaks(fr) ==> cfg.preamble >= 3 && cfg.trailer >= 2;
      RequestsArrive(cfg, u, M.Level(u.tone, inverted), inverted, v, later, if Fails(fr) then FlagsAfter(fr) else 1, rest);
      TxConcat(cfg, t, stream, Joined(rest));
      HearConcat(prev, inverted, s, M.TxAll(cfg, t, stream).1, M.TxAll(cfg, u, Joined(rest)).1);
      assert now + (later + Arrivals(rest)) == (now + later) + Arrivals(rest);
      assert o + (Arrival(fr) + Arrivals(rest)) == (o + Arrival(fr)) + Arrivals(rest);
    }
  }

  lemma NothingHeard(cfg: M.Config, t: M.TxState, prev: bool, inverted: bool, s: Station)
    ensures Hear(prev, inverted, s, M.TxAll(cfg, t, []).1) == (s, [])
  {
    ReceiveNothing(s);
  }

  /**
   * Everything a station sends is received in order and once, also in between and after requests that fail: a quiet
   * receiver obtains the messages of those that succeed and what it makes of the leftovers. Three flags in a preamble
   * and two in a trailer are enough for any requests.
   */
  lemma EveryRequestArrives(cfg: M.Config, t: M.TxState, prev: bool, inverted: bool, s: Station, requests: seq<Frame>)
    requires TxIdle(t) && Quiet(s) && AllRegular(requests) && EndsWell(requests) && EnoughFlags(cfg, requests)
    ensures Hear(prev, inverted, s, M.TxAll(cfg, t, Handed([], requests)).1).1 == Arrivals(requests)
  {
    hide Receive, Hear, Turns, M.TxAll, Regular, Breaks;
    HandedIsJoined([], requests);
    assert [] + Joined(requests) == Joined(requests);
    QuietTurns(s);
    RequestsArrive(cfg, t, prev, inverted, s, [], 1, requests);
    assert [] + Arrivals(requests) == Arrivals(requests);
  }

  // --- When a frame is lost ---

  /** A frame heard by a station that is between flags, or that a decoding error has left with the wrong check sequence. */
  lemma GoodFrameTurns(a: A.RxState, good: Frame)
    requires Sendable(good) && (a == A.SYNCED || (!a.escape && a.buf == [] && a.crc == C.CORRECT))
    ensures Turns(Loaded(a, Bytes(good)), 1, SYNCED, if a == A.SYNCED then [Delivered(good)] else [])
  {
    hide A.RxRun, C.CrcOf, Escape, Receive, Loaded, Turns, Bytes;
    LoadedTurns(a, Bytes(good));
    if a == A.SYNCED {
      StreamOfFrame(good);
    } else {
      GoodBytes(good);
      StaleCrcDropsFrame(a, Bytes(good));
    }
  }

  /**
   * After a leftover the next frame arrives if and only if the receiver gets to see two flags before it or the
   * leftover does not break the decoder. Frames after that one are safe either way.
   */
  lemma FrameAfterLeftover(cfg: M.Config, t: M.TxState, inverted: bool, bad: Frame, good: Frame)
    requires cfg.preamble >= 2 && cfg.trailer >= 1 && !t.escape && Fails(bad) && Sendable(good)
    ensures var prev := M.Level(t.tone, inverted);
      var (x, o) := Hear(prev, inverted, Loaded(A.SYNCED, Chunk(bad)),
                         M.TxAll(cfg, t, A.FrameStream(good.path, good.data).0).1);
      && x == SYNCED && (o == Arrival(bad) || o == Arrival(bad) + [Delivered(good)])
      && (o == Arrival(bad) + [Delivered(good)] <==> FlagsHeard(cfg, t, prev, inverted) >= 2 || !Breaks(bad))
  {
    hide Receive, Hear, Turns, Escape, M.TxAll, M.Levels, M.Level, Loaded, Chunk, Arrival, A.FrameStream, Quiet, Breaks,
         Fails, Bytes, A.RxRun, C.CrcOf;
    var prev, n := M.Level(t.tone, inverted), FlagsHeard(cfg, t, M.Level(t.tone, inverted), inverted);
    var s, f := Loaded(A.SYNCED, Chunk(bad)), Bytes(good);
    var all := n >= 2 || !Breaks(bad);
    ChunkTurns(bad);
    LoadedTurns(A.SYNCED, Chunk(bad));
    BreaksLeavesCrc(bad);
    SecondFlagSyncs(s, Station(H.SYNCED, Heard(Chunk(bad)).0), Heard(Chunk(bad)).1);
    SyncedIsQuiet();
    var a := if all then A.SYNCED else Heard(Chunk(bad)).0;
    OpeningArrives(cfg, t, prev, inverted, s, a, Arrival(bad), if all then FlagsAfter(bad) else 1, f);
    GoodChunk(good);
    QuietCrc(a);
    GoodFrameTurns(a, good);
    var opening := [HDLC_FLAG] + Escape(f);
    var (w, first) := M.TxAll(cfg, t, opening);
    var second := M.TxAll(cfg, w, [HDLC_FLAG]).1;
    var o := if all then [Delivered(good)] else [];
    FlagArrives(cfg, w, M.Level(w.tone, inverted), inverted, Loaded(a, f), SYNCED, o, 1);
    TxConcat(cfg, t, opening, [HDLC_FLAG]);
    HearConcat(prev, inverted, s, first, second);
    assert Arrival(bad) + [] == Arrival(bad);
  }

  lemma GoodChunk(good: Frame)
    requires Sendable(good)
    ensures !Fails(good) && Chunk(good) == Bytes(good)
    ensures A.FrameStream(good.path, good.data).0 == [HDLC_FLAG] + Escape(Bytes(good)) + [HDLC_FLAG]
  {
    hide A.RxRun, C.CrcOf, Escape, A.PathBytes, Bytes;
    StreamOfFrame(good);
  }

  lemma QuietCrc(a: A.RxState)
    requires Quiet(Station(H.SYNCED, a))
    ensures !a.escape && a.buf == []
  {
  }

  /** A station that has not failed before loses the frame after a failure exactly if trailers are one flag long. */
  lemma FrameAfterFailure(cfg: M.Config, t: M.TxState, prev: bool, inverted: bool, s: Station, bad: Frame, good: Frame)
    requires cfg.preamble >= 2 && cfg.trailer >= 1 && TxIdle(t) && Quiet(s) && Fails(bad) && Sendable(good)
    ensures var o := Hear(prev, inverted, s, M.TxAll(cfg, t, Handed([], [bad, good])).1).1;
      && (o == Arrival(bad) || o == Arrival(bad) + [Delivered(good)])
      && (o == Arrival(bad) + [Delivered(good)] <==> cfg.trailer >= 2 || !Breaks(bad))
  {
    hide Receive, Hear, Turns, Escape, M.TxAll, M.Levels, M.Level, Loaded, Chunk, Arrival, A.FrameStream, Quiet, Breaks,
         Fails;
    var first, second := A.FrameStream(bad.path, bad.data).0, A.FrameStream(good.path, good.data).0;
    TwoRequests(bad, good);
    StreamIsChunk(bad);
    QuietTurns(s);
    SyncedIsQuiet();
    assert first == [HDLC_FLAG] + Escape(Chunk(bad)) by {
      assert [HDLC_FLAG] + Escape(Chunk(bad)) + [] == [HDLC_FLAG] + Escape(Chunk(bad));
    }
    OpeningArrives(cfg, t, prev, inverted, s, A.SYNCED, [], 1, Chunk(bad));
    var (u, tones) := M.TxAll(cfg, t, first);
    FrameAfterLeftover(cfg, u, inverted, bad, good);
    TxConcat(cfg, t, first, second);
    HearConcat(prev, inverted, s, tones, M.TxAll(cfg, u, second).1);
    var o := Hear(M.Level(u.tone, inverted), inverted, Loaded(A.SYNCED, Chunk(bad)), M.TxAll(cfg, u, second).1).1;
    assert [] + o == o;
  }

  lemma TwoRequests(bad: Frame, good: Frame)
    requires Fails(bad) && Sendable(good)
    ensures Handed([], [bad, good])
         == A.FrameStream(bad.path, bad.data).0 + A.FrameStream(good.path, good.data).0
  {
    hide A.PathBytes, Escape, A.WithFcs, A.Content, A.FrameStream;
    GoodChunk(good);
    var a, b := A.FrameStream(bad.path, bad.data).0, A.FrameStream(good.path, good.data).0;
    FailsIs(bad);
    FailsIs(good);
    assert [bad, good][1..] == [good] && [good][1..] == [];
    assert Handed([], [bad, good]) == Handed([] + a, [good]);
    assert [] + a == a;
    assert Handed(a, [good]) == a + b + Handed([], []);
    assert a + b + [] == a + b;
  }

  lemma FailsIs(fr: Frame)
    ensures A.FrameStream(fr.path, fr.data).1 == !Fails(fr)
  {
    hide A.WithFcs, Escape;
  }

  // --- What breaks the decoder ---

  /** Whole addresses, none of them marked as the last one. */
  predicate OpenAddresses(b: seq<byte>)
    decreases |b|
  {
    b == [] || (|b| >= 7 && b[6] & 0x01 == 0 && OpenAddresses(b[7..]))
  }

  /** Every call that the sender accepts fits the address field. */
  predicate ShortCalls(path: seq<A.text>) {
    forall i | 0 <= i < |path| :: A.SplitCall(path[i]).Some? ==> |A.SplitCall(path[i]).value.0| <= 6
  }

  lemma {:induction false} LeftoverIsOpen(path: seq<A.text>)
    requires !A.PathBytes(path).1 && ShortCalls(path)
    ensures OpenAddresses(A.PathBytes(path).0)
    decreases |path|
  {
    hide A.CallBytes, A.SplitCall;
    var last := |path| == 1;
    assert ShortCalls(path[1..]);
    if A.CallBytes(path[0], last).Some? {
      LeftoverIsOpen(path[1..]);
      var b, rest := A.CallBytes(path[0], last).value, A.PathBytes(path[1..]).0;
      AcceptedCall(path[0], last);
      R.CallRoundTrip(path[0], last, []);
      assert (b + rest)[7..] == rest;
    }
  }

  lemma AcceptedCall(call: A.text, last: bool)
    requires A.CallBytes(call, last).Some? && (A.SplitCall(call).Some? ==> |A.SplitCall(call).value.0| <= 6)
    ensures R.ValidCall(call)
  {
    hide A.SplitCall;
  }

  lemma {:induction false} OpenAddressesRunOut(c: byte, b: seq<byte>)
    requires c & 0x01 == 0 && OpenAddresses(b)
    ensures A.RptsOf([c] + b) == None
    decreases |b|
  {
    if b != [] {
      assert ([c] + b)[7..] == [b[6]] + b[7..];
      OpenAddressesRunOut(b[6], b[7..]);
    }
  }

  /** With calls of at most six characters, a leftover breaks the decoder exactly if it is long enough and its CRC good. */
  lemma LeftoverBreaks(fr: Frame)
    requires Fails(fr) && ShortCalls(fr.path)
    ensures Breaks(fr) <==> |Chunk(fr)| >= A.MIN_FRAME_LEN && C.CrcOf(C.INIT_VAL, Chunk(fr)) == C.CORRECT
  {
    hide C.CrcOf, A.PathBytes, A.RptsOf;
    var b := Chunk(fr);
    LeftoverIsOpen(fr.path);
    if |b| >= 14 {
      assert b[7..][7..] == b[14..] && b[7..][6] == b[13];
      assert b[13..] == [b[13]] + b[14..];
      OpenAddressesRunOut(b[13], b[14..]);
    }
  }

  // --- A leftover that breaks the decoder ---

  /** The addresses of APZBRT, IZ5ABC and WXACHK-13. */
  const FIRST_CALL: seq<byte> := [0x82, 0xa0, 0xb4, 0x84, 0xa4, 0xa8, 0x60]
  const SECOND_CALL: seq<byte> := [0x92, 0xb4, 0x6a, 0x82, 0x84, 0x86, 0x60]
  const THIRD_CALL: seq<byte> := [0xae, 0xb0, 0x82, 0x86, 0x90, 0x96, 0x7a]

  lemma LosingSteps0First()
    ensures C.Upd(0x82, 0xffff) == 0xa89d
    ensures C.Upd(0xa0, 0xa89d) == 0xeace
    ensures C.Upd(0xb4, 0xeace) == 0xdc37
    ensures C.Upd(0x84, 0xdc37) == 0x87cc
  {
  }

  lemma LosingSteps0Then()
    ensures C.Upd(0xa4, 0x87cc) == 0xefc9
    ensures C.Upd(0xa8, 0xefc9) == 0x7260
    ensures C.Upd(0x60, 0x7260) == 0x0072
  {
  }

  lemma LosingCrc0()
    ensures C.CrcOf(0xffff, FIRST_CALL) == 0x0072
  {
    hide C.Upd, C.CrcOf;
    LosingSteps0First();
    LosingSteps0Then();
    C.NextByte(0xffff, FIRST_CALL, 0);
    C.NextByte(0xa89d, FIRST_CALL, 1);
    C.NextByte(0xeace, FIRST_CALL, 2);
    C.NextByte(0xdc37, FIRST_CALL, 3);
    C.NextByte(0x87cc, FIRST_CALL, 4);
    C.NextByte(0xefc9, FIRST_CALL, 5);
    C.NextByte(0x7260, FIRST_CALL, 6);
    C.NoMore(0x0072, FIRST_CALL);
  }

  lemma LosingSteps1First()
    ensures C.Upd(0x92, 0x0072) == 0xe70e
    ensures C.Upd(0xb4, 0xe70e) == 0x1a36
    ensures C.Upd(0x6a, 0x1a36) == 0x98f3
    ensures C.Upd(0x82, 0x98f3) == 0x6296
  {
  }

  lemma LosingSteps1Then()
    ensures C.Upd(0x84, 0x6296) == 0x33f1
    ensures C.Upd(0x86, 0x33f1) == 0x070b
    ensures C.Upd(0x60, 0x070b) == 0xddd2
  {
  }

  lemma LosingCrc1()
    ensures C.CrcOf(0x0072, SECOND_CALL) == 0xddd2
  {
    hide C.Upd, C.CrcOf;
    LosingSteps1First();
    LosingSteps1Then();
    C.NextByte(0x0072, SECOND_CALL, 0);
    C.NextByte(0xe70e, SECOND_CALL, 1);
    C.NextByte(0x1a36, SECOND_CALL, 2);
    C.NextByte(0x98f3, SECOND_CALL, 3);
    C.NextByte(0x6296, SECOND_CALL, 4);
    C.NextByte(0x33f1, SECOND_CALL, 5);
    C.NextByte(0x070b, SECOND_CALL, 6);
    C.NoMore(0xddd2, SECOND_CALL);
  }

  lemma LosingSteps2First()
    ensures C.Upd(0xae, 0xddd2) == 0xb936
    ensures C.Upd(0xb0, 0xb936) == 0xe187
    ensures C.Upd(0x82, 0xe187) == 0x574c
    ensures C.Upd(0x86, 0x574c) == 0x6901
  {
  }

  lemma LosingSteps2Then()
    ensures C.Upd(0x90, 0x6901) == 0x8569
    ensures C.Upd(0x96, 0x8569) == 0x0ffd
    ensures C.Upd(0x7a, 0x0ffd) == 0xf0b8
  {
  }

  lemma LosingCrc2()
    ensures C.CrcOf(0xddd2, THIRD_CALL) == 0xf0b8
  {
    hide C.Upd, C.CrcOf;
    LosingSteps2First();
    LosingSteps2Then();
    C.NextByte(0xddd2, THIRD_CALL, 0);
    C.NextByte(0xb936, THIRD_CALL, 1);
    C.NextByte(0xe187, THIRD_CALL, 2);
    C.NextByte(0x574c, THIRD_CALL, 3);
    C.NextByte(0x6901, THIRD_CALL, 4);
    C.NextByte(0x8569, THIRD_CALL, 5);
    C.NextByte(0x0ffd, THIRD_CALL, 6);
    C.NoMore(0xf0b8, THIRD_CALL);
  }

  lemma LosingCrc()
    ensures C.CrcOf(C.INIT_VAL, FIRST_CALL + (SECOND_CALL + THIRD_CALL)) == C.CORRECT
  {
    hide C.CrcOf;
    LosingCrc0();
    LosingCrc1();
    LosingCrc2();
    C.CrcConcat(C.INIT_VAL, FIRST_CALL, SECOND_CALL + THIRD_CALL);
    C.CrcConcat(0x0072, SECOND_CALL, THIRD_CALL);
  }

  /** The address bytes of a call that is six plain characters, upper-case already, with or without an SSID. */
  lemma SixCharacters(base: A.text, shifted: seq<byte>, ssid: byte)
    requires |base| == |shifted| == 6 && ssid < 16 && R.PlainBase(base)
    requires forall i :: 0 <= i < 6 ==> A.UpperChar(base[i]) == base[i] && shifted[i] == base[i] << 1
    ensures A.CallBytes(base, false) == Some(shifted + [0x60])
    ensures A.CallBytes(base + [A.DASH] + A.Decimal(ssid), false) == Some(shifted + [A.SsidByte(ssid as nat, false)])
  {
    hide A.Strip, A.ParseInt, A.Decimal, A.FindDash, A.Upper;
    UpperUnchanged(base);
    ShiftedIs(base, shifted);
    R.PlainIsStripped(base);
    R.FindDashAt(base, []);
    assert A.SsidByte(0, false) == 0x60;
    R.DecimalParses(ssid);
    R.UpperConcat(base + [A.DASH], A.Decimal(ssid));
    R.UpperConcat(base, [A.DASH]);
    UpperUnchanged([A.DASH]);
    R.SplitAtDash(base, A.Decimal(ssid));
  }

  lemma {:induction false} UpperUnchanged(s: A.text)
    requires forall i :: 0 <= i < |s| ==> A.UpperChar(s[i]) == s[i]
    ensures A.Upper(s) == s
    decreases |s|
  {
    hide A.UpperChar;
    if s != [] {
      UpperUnchanged(s[1..]);
    }
  }

  lemma {:induction false} ShiftedIs(s: A.text, shifted: seq<byte>)
    requires |s| == |shifted| && forall i :: 0 <= i < |s| ==> shifted[i] == s[i] << 1
    ensures A.ShiftChars(s) == shifted
    decreases |s|
  {
    if s != [] {
      ShiftedIs(s[1..], shifted[1..]);
    }
  }

  const LOSING_PATH: seq<A.text> :=
    [[0x41, 0x50, 0x5a, 0x42, 0x52, 0x54], [0x49, 0x5a, 0x35, 0x41, 0x42, 0x43],
     [0x57, 0x58, 0x41, 0x43, 0x48, 0x4b] + [A.DASH, 0x31, 0x33], [A.DASH, A.DASH]]

  lemma LosingCalls()
    ensures A.CallBytes(LOSING_PATH[0], false) == Some(FIRST_CALL)
    ensures A.CallBytes(LOSING_PATH[1], false) == Some(SECOND_CALL)
    ensures A.CallBytes(LOSING_PATH[2], false) == Some(THIRD_CALL)
  {
    hide A.CallBytes;
    SixCharacters([0x41, 0x50, 0x5a, 0x42, 0x52, 0x54], FIRST_CALL[..6], 0);
    SixCharacters([0x49, 0x5a, 0x35, 0x41, 0x42, 0x43], SECOND_CALL[..6], 0);
    SixCharacters([0x57, 0x58, 0x41, 0x43, 0x48, 0x4b], THIRD_CALL[..6], 13);
    assert A.Decimal(13) == [0x31, 0x33] && A.SsidByte(13, false) == 0x7a;
    assert FIRST_CALL[..6] + [0x60] == FIRST_CALL && SECOND_CALL[..6] + [0x60] == SECOND_CALL;
    assert THIRD_CALL[..6] + [0x7a] == THIRD_CALL;
    assert [0x57, 0x58, 0x41, 0x43, 0x48, 0x4b] + [A.DASH] + [0x31, 0x33] == LOSING_PATH[2];
  }

  lemma TwoDashes(last: bool)
    ensures A.SplitCall([A.DASH, A.DASH]) == None && A.CallBytes([A.DASH, A.DASH], last) == None
  {
    var call := [A.DASH, A.DASH];
    assert call[1..] == [A.DASH] && call[1..][1..] == [];
    assert A.Upper(call) == call;
    assert A.FindDash(call) == 0 && A.DASH in call[0 + 1..];
  }

  lemma LosingShort()
    ensures ShortCalls(LOSING_PATH)
  {
    hide A.SplitCall;
    LosingCalls();
    TwoDashes(true);
    SixAtMost(LOSING_PATH[0]);
    SixAtMost(LOSING_PATH[1]);
    SixAtMost(LOSING_PATH[2]);
  }

  lemma SixAtMost(call: A.text)
    requires A.CallBytes(call, false).Some? && |A.CallBytes(call, false).value| == 7
    ensures A.SplitCall(call).Some? ==> |A.SplitCall(call).value.0| <= 6
  {
    hide A.SplitCall;
    if A.SplitCall(call).Some? {
      PaddedLength(A.SplitCall(call).value.0);
      ShiftedLength(A.PadCall(A.SplitCall(call).value.0));
    }
  }

  lemma {:induction false} PaddedLength(s: A.text)
    ensures |A.PadCall(s)| >= |s|
    decreases 6 - |s|
  {
    if |s| < 6 {
      PaddedLength(s + [A.BLANK]);
    }
  }

  lemma {:induction false} ShiftedLength(s: A.text)
    ensures |A.ShiftChars(s)| == |s|
    decreases |s|
  {
    if s != [] {
      ShiftedLength(s[1..]);
    }
  }

  /** A path whose fourth call raises an error behind three that happen to end in a good check sequence. */
  lemma LosingRequest(data: seq<byte>)
    ensures Breaks(Frame(LOSING_PATH, data))
  {
    hide A.CallBytes, C.CrcOf, A.DecodePacket, A.PathBytes;
    var p := LOSING_PATH;
    LosingCalls();
    TwoDashes(true);
    A.PathStep(p);
    A.PathStep(p[1..]);
    A.PathStep(p[1..][1..]);
    A.PathStep(p[1..][1..][1..]);
    assert p[1..][0] == p[1] && p[1..][1..][0] == p[2] && p[1..][1..][1..] == [p[3]];
    assert A.PathBytes([p[3]]) == ([], false);
    assert THIRD_CALL + [] == THIRD_CALL;
    assert A.PathBytes(p) == (FIRST_CALL + (SECOND_CALL + THIRD_CALL), false);
    LosingCrc();
    LosingShort();
    LeftoverBreaks(Frame(p, data));
  }

  /** With one flag in a trailer, the frame after such a request is lost. */
  lemma NextFrameIsLost(preamble: nat, t: M.TxState, prev: bool, inverted: bool, s: Station, data: seq<byte>, good: Frame)
    requires preamble >= 2 && TxIdle(t) && Quiet(s) && Sendable(good)
    ensures var cfg, requests := M.Config(preamble, 1), [Frame(LOSING_PATH, data), good];
      Hear(prev, inverted, s, M.TxAll(cfg, t, Handed([], requests)).1).1 == [A.IndexError]
  {
    hide Receive, Hear, M.TxAll, Breaks, Handed, Chunk, Quiet, Sendable;
    var bad := Frame(LOSING_PATH, data);
    LosingRequest(data);
    BreakingFails(bad);
    BreaksLeavesCrc(bad);
    FrameAfterFailure(M.Config(preamble, 1), t, prev, inverted, s, bad, good);
  }

  lemma BreakingFails(fr: Frame)
    requires Breaks(fr)
    ensures Fails(fr)
  {
  }

  // --- A failure ---

  /** A second dash makes the sender raise an error after the opening flag. */
  lemma FailingRequest(data: seq<byte>)
    ensures var fr := Frame([[A.DASH, A.DASH]], data);
      && Fails(fr) && A.FrameStream(fr.path, fr.data) == ([HDLC_FLAG], false)
      && !Breaks(fr) && Arrival(fr) == []
  {
    var call := [A.DASH, A.DASH];
    TwoDashes(true);
    assert [call][0] == call;
    assert A.PathBytes([call]) == ([], false);
    assert Escape([]) == [] && [HDLC_FLAG] + [] == [HDLC_FLAG];
    LeftoverIsSilent(Frame([call], data));
  }

  /** After a send that fails, the next one hands over the leftover in front of its own frame. */
  method SendAfterFailure(sender: A.Ax25, bad: Frame, good: Frame) returns (r: Option<seq<byte>>)
    requires Fails(bad) && !Fails(good)
    modifies sender
    ensures r == Some(Handed(old(sender.outbuf), [bad, good])) && sender.outbuf == []
  {
    ghost var before := sender.outbuf;
    ghost var left := A.FrameStream(bad.path, bad.data).0;
    r := sender.Send(bad.path, bad.data);
    r := sender.Send(good.path, good.data);
    assert [bad, good][1..] == [good] && [good][1..] == [];
    assert Handed(before, [bad, good]) == Handed(before + left, [good]);
    ghost var stream := A.FrameStream(good.path, good.data).0;
    assert Handed(before + left, [good]) == before + left + stream + Handed([], []);
    assert before + left + stream + [] == before + left + stream;
  }
}
