/** Bytes as the program's unsigned 8-bit values, and their bits as sequences. */
module Bits {

  type byte = bv8

  /** Bit `i` of a byte, bit 0 being the least significant. */
  predicate Bit(c: byte, i: nat) {
    match i
    case 0 => c & 0x01 != 0
    case 1 => c & 0x02 != 0
    case 2 => c & 0x04 != 0
    case 3 => c & 0x08 != 0
    case 4 => c & 0x10 != 0
    case 5 => c & 0x20 != 0
    case 6 => c & 0x40 != 0
    case _ => c & 0x80 != 0
  }

  /** The eight bits of a byte, least significant first: the order on the air and in the CRC-CCITT. */
  function LsbFirst(c: byte): (bits: seq<bool>)
    ensures |bits| == 8
  {
    seq(8, i requires 0 <= i < 8 => Bit(c, i))
  }

  /** The eight bits of a byte, most significant first: the order of the XMODEM CRC. */
  function MsbFirst(c: byte): (bits: seq<bool>)
    ensures |bits| == 8
  {
    seq(8, i requires 0 <= i < 8 => Bit(c, 7 - i))
  }

  function BitsOfByte(lsbFirst: bool, c: byte): (bits: seq<bool>)
    ensures |bits| == 8
  {
    if lsbFirst then LsbFirst(c) else MsbFirst(c)
  }

  /** The bits of a whole message, byte after byte. */
  function MessageBits(lsbFirst: bool, m: seq<byte>): (bits: seq<bool>)
    ensures |bits| == 8 * |m|
  {
    if m == [] then [] else BitsOfByte(lsbFirst, m[0]) + MessageBits(lsbFirst, m[1..])
  }

  lemma {:induction false} MessageBitsAt(lsbFirst: bool, m: seq<byte>, j: nat, i: nat)
    requires j < |m| && i < 8
    ensures MessageBits(lsbFirst, m)[8 * j + i] == BitsOfByte(lsbFirst, m[j])[i]
    decreases j
  {
    hide BitsOfByte;
    if j > 0 {
      MessageBitsAt(lsbFirst, m[1..], j - 1, i);
    }
  }

  predicate RepresentsByte(c: byte, s: seq<bool>) {
    && |s| == 8
    && s[0] == (c & 1 != 0) && s[1] == (c & 2 != 0) && s[2] == (c & 4 != 0) && s[3] == (c & 8 != 0)
    && s[4] == (c & 16 != 0) && s[5] == (c & 32 != 0) && s[6] == (c & 64 != 0) && s[7] == (c & 128 != 0)
  }

  lemma LsbFirstRepresents(c: byte)
    ensures RepresentsByte(c, LsbFirst(c))
  {
  }

  lemma ByteDetermined(c: byte, d: byte, s: seq<bool>)
    requires RepresentsByte(c, s) && RepresentsByte(d, s)
    ensures c == d
  {
  }

  lemma SameLsbFirst(lsbFirst: bool, c: byte, d: byte)
    requires BitsOfByte(lsbFirst, c) == BitsOfByte(lsbFirst, d)
    ensures LsbFirst(c) == LsbFirst(d)
  {
    forall i | 0 <= i < 8
      ensures LsbFirst(c)[i] == LsbFirst(d)[i]
    {
      assert LsbFirst(c)[i] == if lsbFirst then BitsOfByte(lsbFirst, c)[i] else BitsOfByte(lsbFirst, c)[7 - i];
      assert LsbFirst(d)[i] == if lsbFirst then BitsOfByte(lsbFirst, d)[i] else BitsOfByte(lsbFirst, d)[7 - i];
    }
  }

  lemma BitsOfByteInjective(lsbFirst: bool, c: byte, d: byte)
    requires BitsOfByte(lsbFirst, c) == BitsOfByte(lsbFirst, d)
    ensures c == d
  {
    SameLsbFirst(lsbFirst, c, d);
    LsbFirstRepresents(c);
    LsbFirstRepresents(d);
    ByteDetermined(c, d, LsbFirst(c));
  }

  lemma OctetsEqual(lsbFirst: bool, m: seq<byte>, n: seq<byte>, j: nat)
    requires |m| == |n| && MessageBits(lsbFirst, m) == MessageBits(lsbFirst, n) && j < |m|
    ensures BitsOfByte(lsbFirst, m[j]) == BitsOfByte(lsbFirst, n[j])
  {
    forall i | 0 <= i < 8
      ensures BitsOfByte(lsbFirst, m[j])[i] == BitsOfByte(lsbFirst, n[j])[i]
    {
      MessageBitsAt(lsbFirst, m, j, i);
      MessageBitsAt(lsbFirst, n, j, i);
    }
  }

  lemma MessageBitsInjective(lsbFirst: bool, m: seq<byte>, n: seq<byte>)
    requires |m| == |n| && MessageBits(lsbFirst, m) == MessageBits(lsbFirst, n)
    ensures m == n
  {
    forall j | 0 <= j < |m|
      ensures m[j] == n[j]
    {
      OctetsEqual(lsbFirst, m, n, j);
      BitsOfByteInjective(lsbFirst, m[j], n[j]);
    }
  }
}
