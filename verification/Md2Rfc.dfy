/**
 The passes of the digest position by position, with the numbers of RFC 1319, section 3: whatever arrays stand in
 these relations, the program's passes compute them.
 */
module Md2Rfc {
  import opened Bits
  import opened Md2

  /** A few values of the configured substitution. */
  lemma PermValues()
    ensures Perm(0) == 0x04 && Perm(1) == 0xc7 && Perm(2) == 0x8a && Perm(0x80) == 0xa4 && Perm(0xff) == 0xf6
  {
  }

  lemma RoundByteIs(j: nat)
    requires j < 18
    ensures RoundByte(j) as int == j
  {
  }

  /** Every padding byte is the number of them, which completes a block and is never zero. */
  lemma PaddingBytes(len: nat, i: nat)
    requires i < |Padding(len)|
    ensures |Padding(len)| == 16 - len % 16 && Padding(len)[i] as int == 16 - len % 16
  {
    var n := 16 - len % 16;
    assert (n as bv8) as nat == n;
  }

  // --- The encryption of a block ---

  /** Each byte of the pass is the old one and the substituted byte before it, added; t comes before the first. */
  predicate Chained(x: seq<byte>, y: seq<byte>, t: byte) {
    |x| == |y| && forall i | 0 <= i < |x| :: y[i] == x[i] ^ Perm(if i == 0 then t else y[i - 1])
  }

  lemma {:induction false} SweepIs(x: seq<byte>, y: seq<byte>, t: byte, k: nat)
    requires k <= |x| && Chained(x, y, t)
    ensures var u := if k == 0 then t else y[k - 1];
      Sweep(y[..k] + x[k..], k, u) == (y, if |x| == 0 then t else y[|x| - 1])
    decreases |x| - k
  {
    hide Perm;
    var now := y[..k] + x[k..];
    if k < |x| {
      assert now[k := y[k]] == y[..k + 1] + x[k + 1..];
      SweepIs(x, y, t, k + 1);
    } else {
      assert now == y;
    }
  }

  /** There is such a pass over every array, and only one. */
  lemma PassExists(x: seq<byte>, t: byte)
    ensures Chained(x, Sweep(x, 0, t).0, t)
  {
    hide Perm, Sweep;
    ChainExists(x, t);
    var y :| Chained(x, y, t);
    hide Chained;
    SweepIs(x, y, t, 0);
    assert y[..0] + x[0..] == x;
  }

  function PassByte(x: seq<byte>, t: byte, k: nat): byte
    requires k < |x|
    decreases k
  {
    x[k] ^ Perm(if k == 0 then t else PassByte(x, t, k - 1))
  }

  lemma ChainExists(x: seq<byte>, t: byte)
    ensures exists y :: Chained(x, y, t)
  {
    hide Perm;
    var y := seq(|x|, k requires 0 <= k < |x| => PassByte(x, t, k));
    assert Chained(x, y, t);
  }

  /** One of the passes over 48 bytes, with its number n added to the byte that is carried over. */
  predicate Pass(x: seq<byte>, y: seq<byte>, t: byte, u: byte, n: byte) {
    |x| == |y| == 48 && Chained(x, y, t) && u == y[47] + n
  }

  /** Eighteen passes, numbered from zero. */
  predicate Passes(xs: seq<seq<byte>>, ts: seq<byte>, ns: seq<byte>) {
    && |xs| == |ts| == 19 && |ns| == 18 && |xs[18]| == 48 && ts[0] == 0
    && forall j | 0 <= j < 18 :: ns[j] as int == j && Pass(xs[j], xs[j + 1], ts[j], ts[j + 1], ns[j])
  }

  lemma NumberIs(n: byte, j: nat)
    requires j < 18 && n as int == j
    ensures n == RoundByte(j)
  {
    SameByte(n, RoundByte(j)) by {
      RoundByteIs(j);
    }
  }

  lemma SameByte(a: byte, b: byte)
    requires a as int == b as int
    ensures a == b
  {
  }

  lemma PassIs(x: seq<byte>, y: seq<byte>, t: byte, u: byte, n: byte, j: nat)
    requires j < 18 && n == RoundByte(j) && Pass(x, y, t, u, n)
    ensures RoundsFrom(x, j, t) == RoundsFrom(y, j + 1, u)
  {
    hide Sweep, Perm, RoundByte, Chained, RoundsFrom;
    RoundsNext(x, j, t);
    SweepIs(x, y, t, 0);
    assert y[..0] + x[0..] == x;
  }

  lemma {:induction false} RoundsAre(xs: seq<seq<byte>>, ts: seq<byte>, ns: seq<byte>, j: nat)
    requires Passes(xs, ts, ns) && j <= 18
    ensures RoundsFrom(xs[j], j, ts[j]) == xs[18]
    decreases 18 - j
  {
    hide Pass, RoundsFrom;
    if j < 18 {
      NumberIs(ns[j], j);
      PassIs(xs[j], xs[j + 1], ts[j], ts[j + 1], ns[j], j);
      RoundsAre(xs, ts, ns, j + 1);
    } else {
      RoundsEnd(xs[18], ts[18]);
    }
  }

  /** The state after a block: the first sixteen bytes after the passes over state, block and the two added. */
  lemma ProcessIs(state: Block, m: Block, added: Block, xs: seq<seq<byte>>, ts: seq<byte>, ns: seq<byte>)
    requires forall i | 0 <= i < 16 :: added[i] == state[i] ^ m[i]
    requires Passes(xs, ts, ns) && xs[0] == state + m + added
    ensures Process(state, m) == xs[18][..16]
  {
    hide Perm, Sweep, RoundsFrom, Pass;
    assert added == XorBlocks(state, m);
    RoundsAre(xs, ts, ns, 0);
  }

  // --- The checksum of a block ---

  /** Each checksum byte takes in the substituted sum of the message byte and the checksum byte before it. */
  predicate Summed(c: seq<byte>, m: seq<byte>, d: seq<byte>, l: byte) {
    && |m| == |c| == |d|
    && forall i | 0 <= i < |c| :: d[i] == c[i] ^ Perm(m[i] ^ (if i == 0 then l else d[i - 1]))
  }

  lemma {:induction false} ChecksumIs(c: seq<byte>, m: seq<byte>, d: seq<byte>, l: byte, k: nat)
    requires k <= |c| && Summed(c, m, d, l)
    ensures ChecksumFrom(d[..k] + c[k..], m, k, if k == 0 then l else d[k - 1]).0 == d
    decreases |c| - k
  {
    hide Perm;
    var now := d[..k] + c[k..];
    if k < |c| {
      assert now[k := d[k]] == d[..k + 1] + c[k + 1..];
      ChecksumIs(c, m, d, l, k + 1);
    } else {
      assert now == d;
    }
  }

  /** The checksum after a block, chained from its own last byte. */
  lemma BlockChecksum(c: Block, m: Block, d: Block)
    requires Summed(c, m, d, c[15])
    ensures Checksum(c, m) == d
  {
    hide Perm, ChecksumFrom;
    ChecksumIs(c, m, d, c[15], 0);
    assert d[..0] + c[0..] == c;
  }
}
