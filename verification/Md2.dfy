/**
 The MD2 digest of bertos/algo/md2.c with its configured permutation: the streaming implementation,
 which interleaves state and checksum block by block, against the multi-pass definition of
 RFC 1319, section 3 (pad, checksum over all blocks, then process all blocks and the checksum).
 */
module Md2 {

  import opened Bits

  const ROUNDS := 18
  const COMPUTE_LEN := 48

  // --- The permutation ---

  function RotateRight2(i: byte): byte {
    (i >> 2) | (i << 6)
  }

  function RotateLeft2(i: byte): byte {
    (i << 2) | (i >> 6)
  }

  function Perm(i: byte): byte {
    (RotateRight2(i * 5) ^ 172) * 3
  }

  function Unperm(i: byte): byte {
    RotateLeft2((i * 171) ^ 172) * 205
  }

  /** The generated substitution is a permutation of the bytes, as the digest requires. */
  lemma PermIsPermutation(i: byte)
    ensures Unperm(Perm(i)) == i && Perm(Unperm(i)) == i
  {
  }

  // --- RFC 1319 ---

  type Block = s: seq<byte> | |s| == 16 witness seq(16, _ => 0)

  function Zeros(n: nat): (z: seq<byte>)
    ensures |z| == n
  {
    seq(n, _ => 0)
  }

  /** One pass over the 48-byte array from index `k`, chaining `t` through the substitution. */
  function Sweep(x: seq<byte>, k: nat, t: byte): (r: (seq<byte>, byte))
    ensures |r.0| == |x|
    decreases |x| - k
  {
    if k >= |x| then (x, t)
    else var c := x[k] ^ Perm(t); Sweep(x[k := c], k + 1, c)
  }

  /** The number of a round as a byte. */
  function RoundByte(j: nat): byte
    requires j < ROUNDS
  {
    j as bv8
  }

  /** Rounds `j` to 17. */
  function RoundsFrom(x: seq<byte>, j: nat, t: byte): (r: seq<byte>)
    ensures |r| == |x|
    decreases ROUNDS - j
  {
    if j >= ROUNDS then x
    else
      var (y, u) := Sweep(x, 0, t);
      RoundsFrom(y, j + 1, u + RoundByte(j))
  }

  lemma SweepNext(x: seq<byte>, k: nat, t: byte)
    requires k < |x|
    ensures var c := x[k] ^ Perm(t); Sweep(x, k, t) == Sweep(x[k := c], k + 1, c)
  {
  }

  lemma SweepEnd(x: seq<byte>, t: byte)
    ensures Sweep(x, |x|, t) == (x, t)
  {
  }

  lemma RoundsNext(x: seq<byte>, j: nat, t: byte)
    requires j < ROUNDS
    ensures var (y, u) := Sweep(x, 0, t); RoundsFrom(x, j, t) == RoundsFrom(y, j + 1, u + RoundByte(j))
  {
    hide Sweep, Perm, RoundByte;
  }

  lemma RoundsEnd(x: seq<byte>, t: byte)
    ensures RoundsFrom(x, ROUNDS, t) == x
  {
  }

  function XorBlocks(a: Block, b: Block): Block {
    seq(16, i requires 0 <= i < 16 => a[i] ^ b[i])
  }

  /** State after one more block. */
  function Process(state: Block, m: Block): Block {
    RoundsFrom(state + m + XorBlocks(state, m), 0, 0)[..16]
  }

  /** One block's worth of checksum from byte `j`, chaining the last byte written. */
  function ChecksumFrom(c: seq<byte>, m: seq<byte>, j: nat, l: byte): (r: (seq<byte>, byte))
    requires |m| == |c|
    ensures |r.0| == |c|
    decreases |c| - j
  {
    if j >= |c| then (c, l)
    else var d := c[j] ^ Perm(m[j] ^ l); ChecksumFrom(c[j := d], m, j + 1, d)
  }

  /** The checksum in a pass of its own, the chaining byte carried from block to block. */
  function ChecksumPass(c: Block, l: byte, m: seq<byte>): Block
    decreases |m|
  {
    if |m| < 16 then c
    else var (d, k) := ChecksumFrom(c, m[..16], 0, l); ChecksumPass(d, k, m[16..])
  }

  /** All whole blocks of a message, one at a time. */
  function ProcessAll(state: Block, m: seq<byte>): Block
    decreases |m|
  {
    if |m| < 16 then state else ProcessAll(Process(state, m[..16]), m[16..])
  }

  /** One to sixteen bytes, each the number of them. */
  function Padding(len: nat): (p: seq<byte>)
    ensures 1 <= |p| <= 16 && (len + |p|) % 16 == 0
  {
    var n := 16 - len % 16;
    seq(n, _ => n as bv8)
  }

  /** The digest in separate passes. */
  function Rfc1319(m: seq<byte>): Block {
    var padded := m + Padding(|m|);
    var checksum := ChecksumPass(Zeros(16), 0, padded);
    ProcessAll(Zeros(16), padded + checksum)
  }

  // --- The checksum block by block ---

  /** Checksum after one more block, chained from the last byte of the checksum so far. */
  function Checksum(c: Block, m: Block): Block {
    ChecksumFrom(c, m, 0, c[15]).0
  }

  function ChecksumAll(c: Block, m: seq<byte>): Block
    decreases |m|
  {
    if |m| < 16 then c else ChecksumAll(Checksum(c, m[..16]), m[16..])
  }

  lemma ChecksumNext(c: seq<byte>, m: seq<byte>, j: nat, l: byte)
    requires |m| == |c| && j < |c|
    ensures var d := c[j] ^ Perm(m[j] ^ l);
      ChecksumFrom(c, m, j, l) == ChecksumFrom(c[j := d], m, j + 1, d)
  {
  }

  lemma ChecksumEnd(c: seq<byte>, m: seq<byte>, l: byte)
    requires |m| == |c|
    ensures ChecksumFrom(c, m, |c|, l) == (c, l)
  {
  }

  lemma {:induction false} ChainedByte(c: seq<byte>, m: seq<byte>, j: nat, l: byte)
    requires |m| == |c| && j <= |c|
    requires j > 0 ==> l == c[j - 1]
    ensures |c| > 0 && (j > 0 || |c| > j) ==> ChecksumFrom(c, m, j, l).1 == ChecksumFrom(c, m, j, l).0[|c| - 1]
    decreases |c| - j
  {
    hide Perm;
    if j < |c| {
      var d := c[j] ^ Perm(m[j] ^ l);
      ChainedByte(c[j := d], m, j + 1, d);
    }
  }

  /** The chaining byte need not be kept: it is the last byte of the checksum. */
  lemma {:induction false} ChecksumNeedsNoChain(c: Block, m: seq<byte>)
    ensures ChecksumPass(c, c[15], m) == ChecksumAll(c, m)
    decreases |m|
  {
    hide ChecksumFrom;
    if |m| >= 16 {
      ChainedByte(c, m[..16], 0, c[15]);
      ChecksumNeedsNoChain(Checksum(c, m[..16]), m[16..]);
    }
  }

  lemma SmallByte(a: nat, b: nat)
    requires a <= 16 && b <= 16 && a as bv8 == b as bv8
    ensures a == b
  {
    assert (a as bv8) as nat == a;
    assert (b as bv8) as nat == b;
  }

  /** Padding is unambiguous: different messages stay different when padded. */
  lemma PaddingInjective(m: seq<byte>, n: seq<byte>)
    requires m + Padding(|m|) == n + Padding(|n|)
    ensures m == n
  {
    var p, q := m + Padding(|m|), n + Padding(|n|);
    var a, b := 16 - |m| % 16, 16 - |n| % 16;
    assert p[|p| - 1] == a as bv8 && q[|q| - 1] == b as bv8;
    SmallByte(a, b);
    assert p[..|m|] == m && q[..|n|] == n;
  }

  // --- The streaming implementation ---

  lemma SubSlice(b: seq<byte>, i: nat, j: nat, k: nat)
    requires i <= j <= k <= |b|
    ensures b[i..k][..j - i] == b[i..j]
  {
  }

  class Context {
    const buffer: array<byte>
    const state: array<byte>
    const checksum: array<byte>
    var counter: nat
    ghost var absorbed: seq<byte>

    ghost predicate Separate()
    {
      && buffer.Length == 16 && state.Length == 16 && checksum.Length == 16
      && buffer != state && buffer != checksum && state != checksum
    }

    /** The buffer holds the bytes after the last whole block; state and checksum cover the blocks before them. */
    ghost predicate Holding()
      reads this, buffer, state, checksum
    {
      && Separate() && counter <= 16 && counter <= |absorbed| && (|absorbed| - counter) % 16 == 0
      && buffer[..counter] == absorbed[|absorbed| - counter..]
      && state[..] == ProcessAll(Zeros(16), absorbed[..|absorbed| - counter])
      && checksum[..] == ChecksumAll(Zeros(16), absorbed[..|absorbed| - counter])
    }

    ghost predicate Valid()
      reads this, buffer, state, checksum
    {
      Holding() && counter < 16
    }

    constructor ()
      ensures Valid() && absorbed == [] && fresh(buffer) && fresh(state) && fresh(checksum)
    {
      buffer := new byte[16];
      state := new byte[16];
      checksum := new byte[16];
      counter := 0;
      absorbed := [];
      new;
      hide ProcessAll, ChecksumAll;
      Clear(buffer);
      Clear(state);
      Clear(checksum);
      NothingAbsorbed(Zeros(16));
    }

    static method Clear(a: array<byte>)
      requires a.Length == 16
      modifies a
      ensures a[..] == Zeros(16)
    {
      for i := 0 to 16
        invariant a[..i] == Zeros(i)
      {
        a[i] := 0;
      }
    }

    /** Encrypts the 48-byte array in place. */
    static method Scramble(x: array<byte>)
      requires x.Length == 48
      modifies x
      ensures x[..] == RoundsFrom(old(x[..]), 0, 0)
    {
      hide Perm, Sweep, RoundsFrom, RoundByte;
      var t: byte := 0;
      for i := 0 to ROUNDS
        invariant RoundsFrom(x[..], i, t) == RoundsFrom(old(x[..]), 0, 0)
      {
        ghost var before, t0 := x[..], t;
        for j := 0 to COMPUTE_LEN
          invariant Sweep(x[..], j, t) == Sweep(before, 0, t0)
        {
          ghost var y := x[..];
          SweepNext(y, j, t);
          x[j] := x[j] ^ Perm(t);
          assert x[..] == y[j := y[j] ^ Perm(t)];
          t := x[j];
        }
        SweepEnd(x[..], t);
        RoundsNext(before, i, t0);
        t := t + RoundByte(i);
      }
      RoundsEnd(x[..], t);
    }

    method UpdateChecksum()
      requires Separate()
      modifies checksum
      ensures checksum[..] == Checksum(old(checksum[..]), buffer[..])
    {
      hide Perm, ChecksumFrom;
      ghost var m: Block, c := buffer[..], checksum[..];
      var t := checksum[15];
      for i := 0 to 16
        invariant ChecksumFrom(checksum[..], m, i, t) == ChecksumFrom(c, m, 0, c[15])
      {
        ghost var y := checksum[..];
        ChecksumNext(y, m, i, t);
        checksum[i] := checksum[i] ^ Perm(buffer[i] ^ t);
        assert checksum[..] == y[i := y[i] ^ Perm(m[i] ^ t)];
        t := checksum[i];
      }
      ChecksumEnd(checksum[..], m, t);
    }

    /** State, block, and the two of them added. */
    method Gather() returns (x: array<byte>)
      requires Separate()
      ensures fresh(x) && x.Length == 48
      ensures x[..] == state[..] + buffer[..] + XorBlocks(state[..], buffer[..])
    {
      x := new byte[48];
      for i := 0 to 16
        invariant forall k | 0 <= k < i :: x[k] == state[k] && x[16 + k] == buffer[k]
        invariant forall k | 0 <= k < i :: x[32 + k] == XorBlocks(state[..], buffer[..])[k]
      {
        x[i] := state[i];
        x[16 + i] := buffer[i];
        x[32 + i] := state[i] ^ buffer[i];
      }
    }

    method CopyOut(x: array<byte>)
      requires Separate() && x.Length == 48 && x != state
      modifies state
      ensures state[..] == x[..16]
    {
      for i := 0 to 16
        invariant state[..i] == x[..i]
      {
        state[i] := x[i];
      }
    }

    /** Absorbs the block in the buffer into state and checksum together. */
    method Compute()
      requires Separate()
      modifies state, checksum
      ensures state[..] == Process(old(state[..]), buffer[..])
      ensures checksum[..] == Checksum(old(checksum[..]), buffer[..])
    {
      hide RoundsFrom, Checksum, XorBlocks;
      var x := Gather();
      Scramble(x);
      UpdateChecksum();
      CopyOut(x);
    }

    /** Copies input bytes behind those already in the buffer. */
    method CopyIn(blockIn: array<byte>, from: nat, n: nat)
      requires Holding() && counter + n <= 16 && from + n <= blockIn.Length && blockIn != buffer
      modifies `counter, `absorbed, buffer
      ensures Holding() && counter == old(counter) + n
      ensures absorbed == old(absorbed) + blockIn[from..from + n]
    {
      hide ProcessAll, ChecksumAll;
      var c := counter;
      for i := 0 to n
        invariant buffer[..c + i] == old(buffer[..c]) + blockIn[from..from + i]
        invariant counter == c && absorbed == old(absorbed)
      {
        buffer[c + i] := blockIn[from + i];
      }
      counter := c + n;
      ghost var chunk := blockIn[from..from + n];
      absorbed := absorbed + chunk;
      assert absorbed[..|absorbed| - counter] == old(absorbed)[..|old(absorbed)| - c];
      assert absorbed[|absorbed| - counter..] == old(absorbed)[|old(absorbed)| - c..] + chunk;
    }

    /** Absorbs the buffer once it is full. */
    method Flush()
      requires Holding()
      modifies `counter, state, checksum
      ensures Valid() && absorbed == old(absorbed)
      ensures counter == if old(counter) < 16 then old(counter) else 0
    {
      hide ProcessAll, ChecksumAll, Process, Checksum;
      if counter >= 16 {
        ghost var s := absorbed[..|absorbed| - 16];
        AbsorbBlock(Zeros(16), s, buffer[..]);
        assert absorbed == s + buffer[..];
        Compute();
        counter := 0;
        assert absorbed[..|absorbed| - 0] == absorbed;
      }
    }

    /**
     Absorbs `len` bytes, a block at a time. The input may be the context's own checksum as long as it
     ends with the block in progress: once the checksum is updated its old bytes are gone.
     */
    method Update(blockIn: array<byte>, len: nat)
      requires Valid() && len <= blockIn.Length
      requires blockIn != buffer && blockIn != state
      requires blockIn == checksum ==> counter + len <= 16
      modifies `counter, `absorbed, buffer, state, checksum
      ensures Valid() && absorbed == old(absorbed) + old(blockIn[..len])
    {
      hide Holding;
      ghost var input := blockIn[..len];
      var next := 0;
      var left := len;
      while left > 0
        invariant 0 <= left <= len && next == len - left
        invariant Valid() && absorbed == old(absorbed) + input[..next]
        invariant left > 0 ==> blockIn[next..len] == input[next..]
        invariant blockIn == checksum && left > 0 ==> counter + left <= 16
      {
        var copied := if left < 16 - counter then left else 16 - counter;
        SubSlice(blockIn[..], next, next + copied, len);
        assert blockIn[next..len] == blockIn[..][next..len];
        CopyIn(blockIn, next, copied);
        left := left - copied;
        next := next + copied;
        Flush();
      }
      assert input[..next] == input;
    }

    /** Fills the first bytes of a block with their number. */
    static method Pad(block: array<byte>, n: nat)
      requires n <= 16 && n <= block.Length
      modifies block
      ensures block[..n] == seq(n, _ => n as bv8)
    {
      for i := 0 to n
        invariant forall k | 0 <= k < i :: block[k] == n as bv8
      {
        block[i] := n as bv8;
      }
    }

    lemma AfterBlocks()
      requires Valid()
      ensures Separate() && counter == |absorbed| % 16
      ensures counter == 0 ==> state[..] == ProcessAll(Zeros(16), absorbed)
      ensures counter == 0 ==> checksum[..] == ChecksumAll(Zeros(16), absorbed)
    {
      hide ProcessAll, ChecksumAll;
      assert absorbed[..|absorbed| - 0] == absorbed;
    }

    /** Ends the digest: whatever way the message was cut up, the result is the multi-pass digest of the whole. */
    method End() returns (digest: array<byte>)
      requires Valid()
      modifies `counter, `absorbed, buffer, state, checksum
      ensures digest == state && digest[..] == Rfc1319(old(absorbed))
    {
      hide ProcessAll, ChecksumAll, ChecksumPass, Holding;
      var buf := new byte[16];
      var n := 16 - counter;
      AfterBlocks();
      Pad(buf, n);
      assert buf[..n] == Padding(|absorbed|);
      Update(buf, n);
      AfterBlocks();
      assert checksum[..16] == checksum[..];
      ChecksumNeedsNoChain(Zeros(16), absorbed);
      Update(checksum, 16);
      AfterBlocks();
      return state;
    }
  }

  function Flatten(chunks: seq<seq<byte>>): seq<byte> {
    if chunks == [] then [] else chunks[0] + Flatten(chunks[1..])
  }

  method ArrayOf(s: seq<byte>) returns (a: array<byte>)
    ensures fresh(a) && a[..] == s
  {
    a := new byte[|s|];
    for i := 0 to |s|
      invariant a[..i] == s[..i]
    {
      a[i] := s[i];
    }
  }

  /** Every way of cutting a message into updates gives the multi-pass digest of the whole message. */
  method DigestOf(chunks: seq<seq<byte>>) returns (digest: seq<byte>)
    ensures digest == Rfc1319(Flatten(chunks))
  {
    hide Rfc1319, Context.Holding;
    var context := new Context();
    assert chunks[0..] == chunks && [] + Flatten(chunks) == Flatten(chunks);
    var i := 0;
    while i < |chunks|
      invariant i <= |chunks| && context.Valid()
      invariant fresh(context) && fresh(context.buffer) && fresh(context.state) && fresh(context.checksum)
      invariant context.absorbed + Flatten(chunks[i..]) == Flatten(chunks)
    {
      var block := ArrayOf(chunks[i]);
      ghost var before := context.absorbed;
      assert chunks[i..][1..] == chunks[i + 1..];
      assert block[..block.Length] == chunks[i];
      context.Update(block, block.Length);
      assert before + (chunks[i] + Flatten(chunks[i + 1..])) == (before + chunks[i]) + Flatten(chunks[i + 1..]);
      i := i + 1;
    }
    assert chunks[i..] == [] && context.absorbed + [] == context.absorbed;
    var state := context.End();
    digest := state[..];
  }

  lemma NothingAbsorbed(s: Block)
    ensures ProcessAll(s, []) == s && ChecksumAll(s, []) == s
  {
  }

  /** The passes take blocks from the front; the last block comes last. */
  lemma {:induction false} AbsorbBlock(z: Block, s: seq<byte>, d: Block)
    requires |s| % 16 == 0
    ensures ProcessAll(z, s + d) == Process(ProcessAll(z, s), d)
    ensures ChecksumAll(z, s + d) == Checksum(ChecksumAll(z, s), d)
    decreases |s|
  {
    hide Process, Checksum;
    var t := s + d;
    if |s| >= 16 {
      assert t[..16] == s[..16] && t[16..] == s[16..] + d;
      AbsorbBlock(Process(z, s[..16]), s[16..], d);
      AbsorbBlock(Checksum(z, s[..16]), s[16..], d);
    } else {
      assert t == d && t[..16] == d && t[16..] == [];
    }
  }
}
