/**
 The ground modem of scripts/afsk.py above the level of samples: the transmitter turns an escaped
 byte stream into flags, stuffed bits and tones; the receiver turns tones back into bits.
 */
module Afsk {
  import opened Bits
  import opened Framing
  import opened Hdlc

  const BITRATE := 1200

  /** One of the two tones, held for one bit time. */
  datatype Tone = Mark | Space

  function Switch(t: Tone): Tone {
    if t == Space then Mark else Space
  }

  /** Tones of a bit string: a zero switches the tone, a one keeps it. */
  function Modulate(t: Tone, bits: seq<bool>): seq<Tone>
    decreases |bits|
  {
    if bits == [] then []
    else
      var next := if bits[0] then t else Switch(t);
      [next] + Modulate(next, bits[1..])
  }

  function LastTone(t: Tone, bits: seq<bool>): Tone
    decreases |bits|
  {
    if bits == [] then t else LastTone(if bits[0] then t else Switch(t), bits[1..])
  }

  lemma {:induction false} ModulateConcat(t: Tone, a: seq<bool>, b: seq<bool>)
    ensures Modulate(t, a + b) == Modulate(t, a) + Modulate(LastTone(t, a), b)
    ensures LastTone(t, a + b) == LastTone(LastTone(t, a), b)
    decreases |a|
  {
    if a == [] {
      assert a + b == b;
    } else {
      assert (a + b)[1..] == a[1..] + b;
      ModulateConcat(if a[0] then t else Switch(t), a[1..], b);
    }
  }

  lemma ModulateNothing(t: Tone)
    ensures Modulate(t, []) == [] && LastTone(t, []) == t
  {
  }

  // --- Transmitter ---

  datatype TxState = TxState(tone: Tone, stuffCnt: nat, escape: bool, sending: bool)

  /** Number of flags a frame begins and ends with. */
  datatype Config = Config(preamble: nat, trailer: nat)

  /** How many flags a preamble or trailer of so many milliseconds has. */
  function FlagsOfLength(milliseconds: nat): nat {
    (milliseconds * BITRATE + 4000) / 8000
  }

  /** From four milliseconds on there is a flag, and from ten on there are two; the default lengths have 75 and 8. */
  lemma FlagsByLength(milliseconds: nat)
    ensures FlagsOfLength(milliseconds) >= 1 <==> milliseconds >= 4
    ensures FlagsOfLength(milliseconds) >= 2 <==> milliseconds >= 10
    ensures FlagsOfLength(500) == 75 && FlagsOfLength(50) == 8
  {
  }

  /** The bits that one byte of the stream puts on the air, and the tone they start from. */
  function TxByte(cfg: Config, s: TxState, c: byte): (TxState, Tone, seq<bool>) {
    if c == AX25_ESC && !s.escape then
      (s.(escape := true), s.tone, [])
    else if c == HDLC_FLAG && !s.escape then
      var sending := !s.sending;
      var from := if sending then Mark else s.tone;
      var bits := Repeat(if sending then cfg.preamble else cfg.trailer, FLAG_BITS);
      (TxState(LastTone(from, bits), if sending || bits != [] then 0 else s.stuffCnt, false, sending), from, bits)
    else if c == HDLC_RESET && !s.escape then
      var bits := LsbFirst(c);
      (TxState(LastTone(s.tone, bits), 0, false, s.sending), s.tone, bits)
    else
      var bits := Stuff(LsbFirst(c), s.stuffCnt);
      (TxState(LastTone(s.tone, bits), OnesAfter(LsbFirst(c), s.stuffCnt), false, s.sending), s.tone, bits)
  }

  /** A reset byte is sent as it is, seven ones, and switches any receiver off until the next flag. */
  lemma ResetByteSwitchesOff(cfg: Config, s: TxState, r: RxState)
    requires !s.escape
    ensures var (t, from, bits) := TxByte(cfg, s, 0x7f);
      && bits == [true, true, true, true, true, true, true, false]
      && !RxRun(r, bits).0.rxStart && t.stuffCnt == 0 && t.sending == s.sending
  {
    hide RxRun;
    ResetBits();
    LostFlagResets(r);
  }

  lemma ResetBits()
    ensures LsbFirst(0x7f) == LOST_FLAG == [true, true, true, true, true, true, true, false]
  {
    assert Ones(6) == [true] + ([true] + ([true] + ([true] + ([true] + ([true] + Ones(0))))));
  }

  lemma StuffedFlag()
    ensures Stuff(LsbFirst(0x7e), 0) == [false, true, true, true, true, true, false, true, false]
  {
    var bits := LsbFirst(0x7e);
    FlagBits();
    hide Stuff, LsbFirst;
    StuffFrom(bits, 0, 0);
    StuffFrom(bits, 1, 0);
    StuffFrom(bits, 2, 1);
    StuffFrom(bits, 3, 2);
    StuffFrom(bits, 4, 3);
    StuffFrom(bits, 5, 4);
    StuffFrom(bits, 6, 0);
    StuffFrom(bits, 7, 1);
    StuffNothing(bits, 0);
  }

  lemma StuffedReset()
    ensures Stuff(LsbFirst(0x7f), 0) == [true, true, true, true, true, false, true, true, false]
  {
    var bits := LsbFirst(0x7f);
    ResetBits();
    hide Stuff, LsbFirst;
    StuffNothing(bits, 0);
    StuffFrom(bits, 7, 2);
    StuffFrom(bits, 6, 1);
    StuffFrom(bits, 5, 0);
    StuffFrom(bits, 4, 4);
    assert Stuff(bits[4..], 4) == [true, false, true, true, false];
    StuffFrom(bits, 3, 3);
    StuffFrom(bits, 2, 2);
    StuffFrom(bits, 1, 1);
    StuffFrom(bits, 0, 0);
  }

  /** The same byte values after an escape byte are data: a zero goes in after the fifth one. */
  lemma EscapedControlIsStuffed(cfg: Config, s: TxState)
    requires s.escape && s.stuffCnt == 0
    ensures TxByte(cfg, s, 0x7e).2 == [false, true, true, true, true, true, false, true, false]
    ensures TxByte(cfg, s, 0x7f).2 == [true, true, true, true, true, false, true, true, false]
  {
    StuffedFlag();
    StuffedReset();
  }

  function TxAll(cfg: Config, s: TxState, data: seq<byte>): (TxState, seq<Tone>)
    decreases |data|
  {
    if data == [] then (s, [])
    else
      var (t, from, bits) := TxByte(cfg, s, data[0]);
      var (u, rest) := TxAll(cfg, t, data[1..]);
      (u, Modulate(from, bits) + rest)
  }

  // --- Receiver ---

  /** The demodulated levels as bits: no edge is a one. */
  function Demodulate(prev: bool, levels: seq<bool>): seq<bool>
    decreases |levels|
  {
    if levels == [] then [] else [levels[0] == prev] + Demodulate(levels[0], levels[1..])
  }

  class Afsk {
    const cfg: Config
    var outbuf: seq<Tone>
    var phaseInc: Tone
    var stuffCnt: nat
    var escape: bool
    var sending: bool

    var foundBits: bv8
    const hdlc: Hdlc

    function Tx(): TxState
      reads this
    {
      TxState(phaseInc, stuffCnt, escape, sending)
    }

    constructor (preambleLen: nat, trailerLen: nat)
      ensures cfg == Config((preambleLen * 1200 + 4000) / 8000, (trailerLen * 1200 + 4000) / 8000)
      ensures Tx() == TxState(Mark, 0, false, false) && outbuf == []
      ensures foundBits == 0 && fresh(hdlc) && hdlc.State() == FRESH
    {
      cfg := Config(FlagsOfLength(preambleLen), FlagsOfLength(trailerLen));
      outbuf := [];
      phaseInc, stuffCnt, escape := Mark, 0, false;
      sending := false;
      foundBits := 0;
      hdlc := new Hdlc();
    }

    method GenBit(bit: bool)
      modifies `outbuf, `phaseInc
      ensures phaseInc == (if bit then old(phaseInc) else Switch(old(phaseInc)))
      ensures outbuf == old(outbuf) + [phaseInc]
    {
      if !bit {
        phaseInc := Switch(phaseInc);
      }
      outbuf := outbuf + [phaseInc];
    }

    method SendChar(c: byte, stuff: bool)
      modifies `outbuf, `phaseInc, `stuffCnt
      ensures var bits := Encode(stuff, LsbFirst(c), old(stuffCnt));
        && outbuf == old(outbuf) + Modulate(old(phaseInc), bits)
        && phaseInc == LastTone(old(phaseInc), bits)
      ensures stuffCnt == if stuff then OnesAfter(LsbFirst(c), old(stuffCnt)) else 0
    {
      hide LsbFirst;
      var bits := LsbFirst(c);
      ghost var all := Encode(stuff, bits, stuffCnt);
      ghost var sent, tone, count := outbuf + Modulate(phaseInc, all), LastTone(phaseInc, all), OnesAfter(bits, stuffCnt);
      assert bits[0..] == bits;
      for i := 0 to 8
        invariant var rest := Encode(stuff, bits[i..], stuffCnt);
          outbuf + Modulate(phaseInc, rest) == sent && LastTone(phaseInc, rest) == tone
        invariant if stuff then OnesAfter(bits[i..], stuffCnt) == count else i > 0 ==> stuffCnt == 0
      {
        var bit := bits[i];
        assert bits[i..] == [bit] + bits[i + 1..];
        ghost var cnt0, out0, tone0 := stuffCnt, outbuf, phaseInc;
        GenBit(bit);
        if bit && stuff {
          stuffCnt := stuffCnt + 1;
          if stuffCnt >= 5 {
            GenBit(false);
            stuffCnt := 0;
            SendTwo(out0, tone0, Encode(stuff, bits[i + 1..], stuffCnt));
          } else {
            SendOne(out0, tone0, bit, Encode(stuff, bits[i + 1..], stuffCnt));
          }
        } else {
          stuffCnt := 0;
          SendOne(out0, tone0, bit, Encode(stuff, bits[i + 1..], stuffCnt));
        }
      }
      assert bits[8..] == [];
    }

    method ResetTx()
      modifies `phaseInc, `stuffCnt, `escape
      ensures phaseInc == Mark && stuffCnt == 0 && !escape
    {
      phaseInc := Mark;
      stuffCnt := 0;
      escape := false;
    }

    method SendSync(c: byte)
      modifies `outbuf, `phaseInc, `stuffCnt
      ensures var bits := Repeat(if sending then cfg.preamble else cfg.trailer, LsbFirst(c));
        && outbuf == old(outbuf) + Modulate(old(phaseInc), bits)
        && phaseInc == LastTone(old(phaseInc), bits)
        && stuffCnt == if bits != [] then 0 else old(stuffCnt)
    {
      hide LsbFirst, Modulate, LastTone;
      var l := if sending then cfg.preamble else cfg.trailer;
      ghost var all := Repeat(l, LsbFirst(c));
      ghost var sent, tone := outbuf + Modulate(phaseInc, all), LastTone(phaseInc, all);
      for i := 0 to l
        invariant var rest := Repeat(l - i, LsbFirst(c));
          outbuf + Modulate(phaseInc, rest) == sent && LastTone(phaseInc, rest) == tone
        invariant stuffCnt == if i > 0 then 0 else old(stuffCnt)
      {
        ModulateConcat(phaseInc, LsbFirst(c), Repeat(l - i - 1, LsbFirst(c)));
        SendChar(c, false);
      }
      ModulateNothing(phaseInc);
      assert outbuf + [] == outbuf;
    }

    /** Modulates a byte stream: flags toggle between preamble and trailer, escaped bytes are plain data. */
    method Write(data: seq<byte>)
      modifies `outbuf, `phaseInc, `stuffCnt, `escape, `sending
      ensures (Tx(), outbuf) == TxAll(cfg, old(Tx()), data)
    {
      hide TxByte, Modulate;
      outbuf := [];
      ghost var all := TxAll(cfg, Tx(), data);
      assert data[0..] == data && [] + all.1 == all.1;
      var i := 0;
      while i < |data|
        invariant i <= |data|
        invariant var (t, rest) := TxAll(cfg, Tx(), data[i..]);
          all == (t, outbuf + rest)
      {
        var c := data[i];
        ghost var before, s := outbuf, Tx();
        assert data[i..] == [c] + data[i + 1..];
        WriteByte(c);
        ghost var (t, from, bits) := TxByte(cfg, s, c);
        assert before + (Modulate(from, bits) + TxAll(cfg, t, data[i + 1..]).1)
            == (before + Modulate(from, bits)) + TxAll(cfg, t, data[i + 1..]).1;
        i := i + 1;
      }
      assert data[i..] == [] && outbuf + [] == outbuf;
    }

    /** The body of the loop in Write. */
    method WriteByte(c: byte)
      modifies `outbuf, `phaseInc, `stuffCnt, `escape, `sending
      ensures var (t, from, bits) := TxByte(cfg, old(Tx()), c);
        Tx() == t && outbuf == old(outbuf) + Modulate(from, bits)
    {
      FlagBits();
      if c == AX25_ESC && !escape {
        escape := true;
        return;
      }
      if c == HDLC_FLAG && !escape {
        sending := !sending;
        if sending {
          ResetTx();
        }
        SendSync(HDLC_FLAG);
      } else if c == HDLC_RESET && !escape {
        SendChar(c, false);
      } else {
        SendChar(c, true);
      }
      escape := false;
    }

    /** One demodulated level: the bit is one when the level did not change. */
    method ReceiveLevel(level: bool) returns (out: seq<byte>)
      modifies `foundBits, hdlc
      ensures foundBits & 1 != 0 <==> level
      ensures (hdlc.State(), out) == RxStep(old(hdlc.State()), level == (old(foundBits) & 1 != 0))
    {
      foundBits := foundBits << 1;
      if level {
        foundBits := foundBits | 1;
      }
      out := hdlc.Parse(!EdgeFound(foundBits));
    }
  }

  predicate EdgeFound(bitline: bv8) {
    (bitline ^ (bitline >> 1)) & 0x01 != 0
  }

  function Encode(stuff: bool, bits: seq<bool>, ones: nat): seq<bool> {
    if stuff then Stuff(bits, ones) else bits
  }

  lemma SendOne(out: seq<Tone>, t: Tone, bit: bool, rest: seq<bool>)
    ensures var u := if bit then t else Switch(t);
      && out + Modulate(t, [bit] + rest) == (out + [u]) + Modulate(u, rest)
      && LastTone(t, [bit] + rest) == LastTone(u, rest)
  {
    assert ([bit] + rest)[1..] == rest;
  }

  lemma SendTwo(out: seq<Tone>, t: Tone, rest: seq<bool>)
    ensures var u := Switch(t);
      && out + Modulate(t, [true, false] + rest) == (out + [t] + [u]) + Modulate(u, rest)
      && LastTone(t, [true, false] + rest) == LastTone(u, rest)
  {
    assert [true, false] + rest == [true] + ([false] + rest);
    SendOne(out, t, true, [false] + rest);
    SendOne(out + [t], t, false, rest);
  }

  // --- Tones survive the trip, up to polarity and the first edge ---

  function Level(t: Tone, inverted: bool): bool {
    (t == Mark) != inverted
  }

  function Levels(tones: seq<Tone>, inverted: bool): seq<bool> {
    if tones == [] then [] else [Level(tones[0], inverted)] + Levels(tones[1..], inverted)
  }

  lemma {:induction false} LevelsConcat(a: seq<Tone>, b: seq<Tone>, inverted: bool)
    ensures Levels(a + b, inverted) == Levels(a, inverted) + Levels(b, inverted)
  {
    if a == [] {
      assert a + b == b;
    } else {
      assert (a + b)[1..] == a[1..] + b;
      LevelsConcat(a[1..], b, inverted);
    }
  }

  /** Edges carry the bits whatever the polarity, once the receiver has seen the tone they start from. */
  lemma {:induction false} DemodulateModulate(t: Tone, bits: seq<bool>, inverted: bool)
    ensures Demodulate(Level(t, inverted), Levels(Modulate(t, bits), inverted)) == bits
    decreases |bits|
  {
    if bits != [] {
      DemodulateModulate(if bits[0] then t else Switch(t), bits[1..], inverted);
    }
  }

  /** A receiver with any other reference level misreads the first bit and no other. */
  lemma FirstBitMayFlip(prev: bool, t: Tone, bits: seq<bool>, inverted: bool)
    requires bits != []
    ensures Demodulate(prev, Levels(Modulate(t, bits), inverted))
         == [bits[0] == (prev == Level(t, inverted))] + bits[1..]
  {
    DemodulateModulate(if bits[0] then t else Switch(t), bits[1..], inverted);
  }

  lemma {:induction false} DemodulateConcat(prev: bool, a: seq<bool>, b: seq<bool>)
    ensures Demodulate(prev, a + b)
         == Demodulate(prev, a) + Demodulate(if a == [] then prev else a[|a| - 1], b)
    decreases |a|
  {
    if a == [] {
      assert a + b == b;
    } else {
      assert (a + b)[1..] == a[1..] + b;
      assert (if a[1..] == [] then a[0] else a[1..][|a| - 2]) == a[|a| - 1];
      DemodulateConcat(a[0], a[1..], b);
      var before := if a[1..] == [] then a[0] else a[1..][|a| - 2];
      assert [a[0] == prev] + (Demodulate(a[0], a[1..]) + Demodulate(before, b))
          == ([a[0] == prev] + Demodulate(a[0], a[1..])) + Demodulate(before, b);
    }
  }
}
