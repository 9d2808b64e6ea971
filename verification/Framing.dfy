/** The control bytes shared by the modem and the packet layer, and byte escaping. */
module Framing {
  import opened Bits

  const AX25_ESC: byte := 0x1b
  const HDLC_FLAG: byte := 0x7e
  const HDLC_RESET: byte := 0x7f

  predicate IsControl(c: byte) {
    c == HDLC_FLAG || c == HDLC_RESET || c == AX25_ESC
  }

  function EscapeByte(c: byte): seq<byte> {
    if IsControl(c) then [AX25_ESC, c] else [c]
  }

  /** Every control byte of the data preceded by the escape byte. */
  function Escape(data: seq<byte>): seq<byte> {
    if data == [] then [] else EscapeByte(data[0]) + Escape(data[1..])
  }

  lemma {:induction false} EscapeConcat(a: seq<byte>, b: seq<byte>)
    ensures Escape(a + b) == Escape(a) + Escape(b)
  {
    if a == [] {
      assert a + b == b;
    } else {
      assert (a + b)[1..] == a[1..] + b;
      EscapeConcat(a[1..], b);
    }
  }

  function Repeat<T>(n: nat, s: seq<T>): seq<T> {
    if n == 0 then [] else s + Repeat(n - 1, s)
  }
}
