/**
 Long division of bit strings by the CRC-CCITT generator x^16 + x^12 + x^5 + 1, the
 reference definition for both CRCs of the repository, and the shift register that
 computes it one message bit at a time.
 */
module PolyDivision {

  function Zeros(n: nat): (z: seq<bool>)
    ensures |z| == n
  {
    seq(n, _ => false)
  }

  /** The generator's sixteen low coefficients, highest power first: x^12, x^5 and 1; the x^16 term is implicit. */
  const GENERATOR: seq<bool> := Zeros(3) + GENERATOR_TAIL
  const GENERATOR_TAIL: seq<bool> := [true] + (Zeros(6) + [true] + (Zeros(4) + [true]))

  lemma GeneratorTerms()
    ensures |GENERATOR| == 16
    ensures forall i | 0 <= i < 16 :: GENERATOR[i] == (i == 3 || i == 10 || i == 15)
  {
  }

  type Register = r: seq<bool> | |r| == 16 witness GENERATOR

  /** `s` with its first |p| coefficients added to those of `p`, modulo two. */
  function AddPrefix(s: seq<bool>, p: seq<bool>): (r: seq<bool>)
    requires |p| <= |s|
    ensures |r| == |s|
  {
    seq(|s|, i requires 0 <= i < |s| => if i < |p| then s[i] != p[i] else s[i])
  }

  /** School long division: cancel the leading coefficient until sixteen are left. */
  function Remainder(dividend: seq<bool>): Register
    requires |dividend| >= 16
    decreases |dividend|
  {
    if |dividend| == 16 then dividend
    else if dividend[0] then Remainder(AddPrefix(dividend[1..], GENERATOR))
    else Remainder(dividend[1..])
  }

  /** One clock of the shift register that is fed message bit `b`. */
  function Clock(r: Register, b: bool): Register {
    var shifted := r[1..] + [false];
    if r[0] != b then AddPrefix(shifted, GENERATOR) else shifted
  }

  function Run(r: Register, bits: seq<bool>): Register
    decreases |bits|
  {
    if bits == [] then r else Run(Clock(r, bits[0]), bits[1..])
  }

  /** The register form computes the remainder of the message, preset by `r` and shifted by sixteen. */
  lemma {:induction false} RunIsRemainder(r: Register, bits: seq<bool>)
    ensures Run(r, bits) == Remainder(AddPrefix(bits + Zeros(16), r))
    decreases |bits|
  {
    var dividend := AddPrefix(bits + Zeros(16), r);
    if bits == [] {
      assert dividend == r;
    } else {
      var next := Clock(r, bits[0]);
      var reduced := if dividend[0] then AddPrefix(dividend[1..], GENERATOR) else dividend[1..];
      assert reduced == AddPrefix(bits[1..] + Zeros(16), next);
      RunIsRemainder(next, bits[1..]);
    }
  }

  lemma {:induction false} RunConcat(r: Register, a: seq<bool>, b: seq<bool>)
    ensures Run(r, a + b) == Run(Run(r, a), b)
    decreases |a|
  {
    if a == [] {
      assert a + b == b;
    } else {
      assert (a + b)[1..] == a[1..] + b;
      RunConcat(Clock(r, a[0]), a[1..], b);
    }
  }

  /** A clock loses nothing: the bit shifted in last is the bit that was shifted out. */
  lemma ClockInjective(r: Register, s: Register, b: bool)
    requires Clock(r, b) == Clock(s, b)
    ensures r == s
  {
    assert Clock(r, b)[15] == (r[0] != b);
    assert Clock(s, b)[15] == (s[0] != b);
    forall i | 1 <= i < 16
      ensures r[i] == s[i]
    {
      assert Clock(r, b)[i - 1] == Clock(s, b)[i - 1];
    }
  }

  lemma {:induction false} RunInjective(r: Register, s: Register, bits: seq<bool>)
    requires Run(r, bits) == Run(s, bits)
    ensures r == s
    decreases |bits|
  {
    if bits != [] {
      RunInjective(Clock(r, bits[0]), Clock(s, bits[0]), bits[1..]);
      ClockInjective(r, s, bits[0]);
    }
  }

  /** Up to sixteen message bits act as if added to the register before that many zero bits. */
  lemma {:induction false} RunAddsPrefix(r: Register, w: seq<bool>)
    requires |w| <= 16
    ensures Run(r, w) == Run(AddPrefix(r, w), Zeros(|w|))
    decreases |w|
  {
    if w == [] {
      assert AddPrefix(r, w) == r;
    } else {
      var next := Clock(r, w[0]);
      assert Clock(AddPrefix(r, w), false) == AddPrefix(next, w[1..]);
      assert Zeros(|w|)[1..] == Zeros(|w[1..]|);
      RunAddsPrefix(next, w[1..]);
    }
  }

  lemma ClockLinear(r: Register, s: Register)
    ensures Clock(AddPrefix(r, s), false) == AddPrefix(Clock(r, false), Clock(s, false))
  {
    GeneratorTerms();
  }

  lemma {:induction false} RunLinear(r: Register, s: Register, n: nat)
    ensures Run(AddPrefix(r, s), Zeros(n)) == AddPrefix(Run(r, Zeros(n)), Run(s, Zeros(n)))
    decreases n
  {
    if n > 0 {
      assert Zeros(n)[1..] == Zeros(n - 1);
      ClockLinear(r, s);
      RunLinear(Clock(r, false), Clock(s, false), n - 1);
    }
  }

  /** Leading zeros are shifted out without any cancellation. */
  lemma {:induction false} RunShiftsZeros(n: nat, h: seq<bool>)
    requires n + |h| == 16
    ensures Run(Zeros(n) + h, Zeros(n)) == h + Zeros(n)
    decreases n
  {
    if n == 0 {
      assert Zeros(n) + h == h + Zeros(n) == h;
    } else {
      assert Zeros(n)[1..] == Zeros(n - 1);
      assert Clock(Zeros(n) + h, false) == Zeros(n - 1) + (h + [false]);
      RunShiftsZeros(n - 1, h + [false]);
      assert h + [false] + Zeros(n - 1) == h + Zeros(n);
    }
  }

  lemma HalvesAdd(r: Register, bits: seq<bool>)
    requires |bits| == 8
    ensures AddPrefix(r, bits) == AddPrefix(Zeros(8) + r[8..], AddPrefix(bits, r[..8]) + Zeros(8))
  {
  }

  /** Eight message bits meet only the first half of the register; the other half moves up and is added. */
  lemma RunOfByte(r: Register, bits: seq<bool>)
    requires |bits| == 8
    ensures Run(r, bits) == AddPrefix(r[8..] + Zeros(8), Run(AddPrefix(bits, r[..8]) + Zeros(8), Zeros(8)))
  {
    RunAddsPrefix(r, bits);
    HalvesAdd(r, bits);
    RunLinear(Zeros(8) + r[8..], AddPrefix(bits, r[..8]) + Zeros(8), 8);
    RunShiftsZeros(8, r[8..]);
  }

  /** Bit strings that agree outside one window of at most sixteen bits leave the same register only if they are equal. */
  lemma WindowDetermined(r: Register, pre: seq<bool>, w: seq<bool>, w': seq<bool>, post: seq<bool>)
    requires |w| == |w'| <= 16
    requires Run(r, pre + w + post) == Run(r, pre + w' + post)
    ensures w == w'
  {
    var s := Run(r, pre);
    RunConcat(r, pre + w, post);
    RunConcat(r, pre, w);
    RunConcat(r, pre + w', post);
    RunConcat(r, pre, w');
    RunInjective(Run(s, w), Run(s, w'), post);
    RunAddsPrefix(s, w);
    RunAddsPrefix(s, w');
    RunInjective(AddPrefix(s, w), AddPrefix(s, w'), Zeros(|w|));
    forall i | 0 <= i < |w|
      ensures w[i] == w'[i]
    {
      assert AddPrefix(s, w)[i] == AddPrefix(s, w')[i];
    }
  }

  /** Two bit strings that agree outside one window of sixteen bits and leave the same register are equal. */
  lemma BurstLocated(r: Register, a: seq<bool>, b: seq<bool>, k: nat)
    requires |a| == |b| && k <= |a|
    requires forall i | 0 <= i < |a| && !(k <= i < k + 16) :: a[i] == b[i]
    requires Run(r, a) == Run(r, b)
    ensures a == b
  {
    hide Run;
    var e := if k + 16 <= |a| then k + 16 else |a|;
    Slices(a, a, k, e);
    Slices(a, b, k, e);
    WindowDetermined(r, a[..k], a[k..e], b[k..e], a[e..]);
  }

  lemma Slices(a: seq<bool>, b: seq<bool>, k: nat, e: nat)
    requires |a| == |b| && k <= e <= |a|
    requires forall i | 0 <= i < |a| && !(k <= i < e) :: a[i] == b[i]
    ensures b == a[..k] + b[k..e] + a[e..]
  {
  }

  /** Number of ones, modulo two. */
  function Parity(s: seq<bool>): bool {
    if s == [] then false else s[0] != Parity(s[1..])
  }

  lemma {:induction false} ParityConcat(s: seq<bool>, t: seq<bool>)
    ensures Parity(s + t) == (Parity(s) != Parity(t))
    decreases |s|
  {
    if s == [] {
      assert s + t == t;
    } else {
      assert (s + t)[1..] == s[1..] + t;
      ParityConcat(s[1..], t);
    }
  }

  lemma {:induction false} ParityAdd(s: seq<bool>, p: seq<bool>)
    requires |s| == |p|
    ensures Parity(AddPrefix(s, p)) == (Parity(s) != Parity(p))
    decreases |s|
  {
    if s != [] {
      assert AddPrefix(s, p)[1..] == AddPrefix(s[1..], p[1..]);
      ParityAdd(s[1..], p[1..]);
    }
  }

  lemma {:induction false} ParitySkipsZeros(n: nat, s: seq<bool>)
    ensures Parity(Zeros(n) + s) == Parity(s)
  {
    if n == 0 {
      assert Zeros(n) + s == s;
    } else {
      assert (Zeros(n) + s)[1..] == Zeros(n - 1) + s;
      ParitySkipsZeros(n - 1, s);
    }
  }

  lemma GeneratorIsOdd()
    ensures Parity(GENERATOR)
  {
    var low := Zeros(4) + [true];
    ParitySkipsZeros(3, GENERATOR_TAIL);
    assert GENERATOR_TAIL[1..] == (Zeros(6) + [true]) + low;
    ParityConcat(Zeros(6) + [true], low);
    ParitySkipsZeros(6, [true]);
    ParitySkipsZeros(4, [true]);
  }

  /** The parity of the register plus that of the message read so far never changes. */
  lemma {:induction false} RunKeepsParity(r: Register, bits: seq<bool>)
    ensures Parity(Run(r, bits)) == (Parity(r) != Parity(bits))
    decreases |bits|
  {
    if bits != [] {
      var shifted := r[1..] + [false];
      ParityConcat(r[1..], [false]);
      ParityAdd(shifted, GENERATOR);
      GeneratorIsOdd();
      RunKeepsParity(Clock(r, bits[0]), bits[1..]);
    }
  }
}
