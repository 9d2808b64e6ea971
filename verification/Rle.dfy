/** The run-length codec of bertos/algo/rle.c: encoder with back-up, decoder, round trip and exact size bounds. */
module Rle {
  import opened Wrappers

  type u8 = x: int | 0 <= x < 256

  /** A byte read as a signed char. */
  function Signed(b: u8): int {
    if b < 128 then b else b - 256
  }

  // --- Encoder ---

  /** How far the bytes equal to the first one reach, looking on from `i`, at most 127. */
  function ScanSame(s: seq<u8>, i: nat): (n: nat)
    requires 1 <= i <= |s| && i <= 127
    ensures i <= n <= |s| && n <= 127
    ensures forall k | i <= k < n :: s[k] == s[0]
    ensures n < |s| && n < 127 ==> s[n] != s[0]
    decreases 127 - i
  {
    if i < |s| && i < 127 && s[i] == s[0] then ScanSame(s, i + 1) else i
  }

  predicate TripleAt(s: seq<u8>, i: nat) {
    i + 2 < |s| && s[i] == s[i + 1] == s[i + 2]
  }

  /** Where a literal run ends: at three equal bytes, backing up to the first of them, or at 127 bytes. */
  function ScanLiteral(s: seq<u8>, i: nat): (n: nat)
    requires 1 <= i <= |s| && i <= 127
    requires |s| > 1 ==> s[1] != s[0]
    ensures 1 <= n <= |s| && n <= 127
    ensures n == |s| || n == 127 || TripleAt(s, n)
    decreases 127 - i
  {
    if i < |s| && i < 127 then
      if i > 1 && s[i] == s[i - 1] == s[i - 2] then i - 2 else ScanLiteral(s, i + 1)
    else i
  }

  function Encode(s: seq<u8>): (e: seq<u8>)
    ensures e != []
    decreases |s|
  {
    if s == [] then [0]
    else
      var n := ScanSame(s, 1);
      if n == 1 then
        var m := ScanLiteral(s, 1);
        [256 - m] + s[..m] + Encode(s[m..])
      else
        [n, s[0]] + Encode(s[n..])
  }

  lemma EncodeLiteral(s: seq<u8>)
    requires s != [] && ScanSame(s, 1) == 1
    ensures var m := ScanLiteral(s, 1);
      Encode(s) == [256 - m] + s[..m] + Encode(s[m..])
  {
    hide ScanSame, ScanLiteral;
  }

  lemma EncodeReplicate(s: seq<u8>)
    requires s != [] && ScanSame(s, 1) != 1
    ensures var n := ScanSame(s, 1);
      Encode(s) == [n, s[0]] + Encode(s[n..])
  {
    hide ScanSame, ScanLiteral;
  }

  lemma EncodeEnd()
    ensures Encode([]) == [0]
  {
  }

  /** Scans for bytes identical to the first one of the run that starts at `count`. */
  method FindSame(input: array<u8>, len: nat, count: nat) returns (index: nat)
    requires count < len <= input.Length
    ensures count < index <= len && index - count == ScanSame(input[count..len], 1)
  {
    ghost var s := input[count..len];
    var first := input[count];
    index := count + 1;
    while index < len && index - count < 127 && input[index] == first
      invariant count < index <= len && index - count <= 127
      invariant ScanSame(s, 1) == ScanSame(s, index - count)
    {
      assert s[index - count] == input[index] && s[0] == first;
      index := index + 1;
    }
    assert index < len ==> s[index - count] == input[index];
  }

  /** Scans for the end of the literal run that starts at `count`, backing up to three identical bytes. */
  method FindLiteralEnd(input: array<u8>, len: nat, count: nat) returns (index: nat)
    requires count < len <= input.Length && ScanSame(input[count..len], 1) == 1
    ensures count < index <= len && index - count == ScanLiteral(input[count..len], 1)
  {
    ghost var s := input[count..len];
    index := count + 1;
    while index < len && index - count < 127
      invariant count < index <= len && index - count <= 127
      invariant ScanLiteral(s, 1) == ScanLiteral(s, index - count)
    {
      ghost var i := index - count;
      assert s[i] == input[index] && s[i - 1] == input[index - 1] && (i > 1 ==> s[i - 2] == input[index - 2]);
      if input[index] == input[index - 1] && index > 1 && input[index] == input[index - 2] {
        assert i > 1;
        index := index - 2;
        return;
      }
      index := index + 1;
    }
  }

  /** Writes one literal run: its negated length and its bytes. */
  method Literal(output: array<u8>, input: array<u8>, start: nat, count: nat, index: nat) returns (out: nat)
    requires output != input && count < index <= input.Length && index - count <= 127
    requires start + 1 + (index - count) <= output.Length
    modifies output
    ensures out == start + 1 + (index - count)
    ensures output[..out] == old(output[..start]) + ([256 - (index - count)] + input[count..index])
    ensures output[out..] == old(output[out..])
  {
    ghost var done := output[..start];
    out := start;
    output[out] := 256 - (index - count);
    out := out + 1;
    for i := count to index
      invariant out == start + 1 + (i - count)
      invariant output[..out] == done + ([256 - (index - count)] + input[count..i])
      invariant output[out..] == old(output[out..])
    {
      output[out] := input[i];
      out := out + 1;
    }
  }

  /** Writes one replicate run: its length and its byte. */
  method Replicate(output: array<u8>, start: nat, n: u8, first: u8) returns (out: nat)
    requires start + 2 <= output.Length
    modifies output
    ensures out == start + 2
    ensures output[..out] == old(output[..start]) + [n, first]
    ensures output[out..] == old(output[out..])
  {
    output[start] := n;
    output[start + 1] := first;
    out := start + 2;
  }

  lemma KeepTail<T>(a: seq<T>, b: seq<T>, i: nat, j: nat)
    requires |a| == |b| && i <= j <= |a| && a[i..] == b[i..]
    ensures a[j..] == b[j..]
  {
    assert a[j..] == a[i..][j - i..];
    assert b[j..] == b[i..][j - i..];
  }

  lemma Regroup(a: seq<u8>, b: seq<u8>, c: seq<u8>)
    ensures a + (b + c) == a + b + c
  {
  }

  /** The encoding e of x, of which `done` is written and x[count..] is to come, after one more literal run. */
  lemma LiteralNext(x: seq<u8>, e: seq<u8>, done: seq<u8>, count: nat, index: nat)
    requires count < index <= |x| && e == done + Encode(x[count..])
    requires ScanSame(x[count..], 1) == 1 && index - count == ScanLiteral(x[count..], 1)
    ensures var run := [256 - (index - count)] + x[count..index];
      e == done + run + Encode(x[index..]) && |done| + |run| < |e|
  {
    hide ScanSame, ScanLiteral, Encode;
    var s, m := x[count..], index - count;
    EncodeLiteral(s);
    assert s[..m] == x[count..index] && s[m..] == x[index..];
    Regroup(done, [256 - m] + s[..m], Encode(s[m..]));
  }

  lemma ReplicateNext(x: seq<u8>, e: seq<u8>, done: seq<u8>, count: nat, index: nat)
    requires count < index <= |x| && e == done + Encode(x[count..])
    requires ScanSame(x[count..], 1) != 1 && index - count == ScanSame(x[count..], 1)
    ensures e == done + [index - count, x[count]] + Encode(x[index..]) && |done| + 2 < |e|
  {
    hide ScanSame, ScanLiteral, Encode;
    var s, n := x[count..], index - count;
    EncodeReplicate(s);
    assert s[n..] == x[index..];
    Regroup(done, [n, s[0]], Encode(s[n..]));
  }

  method Encoder(output: array<u8>, input: array<u8>, len: nat) returns (written: nat)
    requires len <= input.Length && output != input
    requires |Encode(input[..len])| <= output.Length
    modifies output
    ensures written == |Encode(input[..len])|
    ensures output[..written] == Encode(input[..len])
    ensures output[written..] == old(output[written..])
  {
    hide Encode, ScanSame, ScanLiteral;
    ghost var x, before := input[..len], output[..];
    ghost var e := Encode(x);
    var out: nat := 0;
    var count: nat := 0;
    assert x[0..] == x;
    while count < len
      invariant count <= len == |x| && out < |e| <= output.Length && input[..len] == x
      invariant e == output[..out] + Encode(x[count..])
      invariant output[out..] == before[out..]
    {
      ghost var done, all := output[..out], output[..];
      ghost var start := out;
      assert x[count..] == input[count..len];
      var index := FindSame(input, len, count);
      if index - count == 1 {
        index := FindLiteralEnd(input, len, count);
        LiteralNext(x, e, done, count, index);
        assert x[count..index] == input[count..index];
        out := Literal(output, input, out, count, index);
      } else {
        ReplicateNext(x, e, done, count, index);
        out := Replicate(output, out, index - count, input[count]);
      }
      KeepTail(all, before, start, out);
      count := index;
    }
    assert x[count..] == [];
    EncodeEnd();
    output[out] := 0;
    KeepTail(output[..], before, out + 1, out + 1);
    return out + 1;
  }

  // --- Decoder ---

  function Fill(n: nat, v: u8): (r: seq<u8>)
    ensures |r| == n
  {
    seq(n, _ => v)
  }

  /** The decoded bytes and how many bytes were read; None where the input ends before its end marker. */
  function Decode(s: seq<u8>): Option<(seq<u8>, nat)>
    decreases |s|
  {
    if s == [] then None
    else
      var c := Signed(s[0]);
      if c == 0 then Some(([], 1))
      else if c > 0 then
        if |s| < 2 then None
        else match Decode(s[2..])
          case None => None
          case Some((d, k)) => Some((Fill(c, s[1]) + d, 2 + k))
      else
        if |s| < 1 - c then None
        else match Decode(s[1 - c..])
          case None => None
          case Some((d, k)) => Some((s[1..1 - c] + d, 1 - c + k))
  }

  lemma {:induction false} DecodeReads(s: seq<u8>)
    requires Decode(s).Some?
    ensures 1 <= Decode(s).value.1 <= |s|
    decreases |s|
  {
    var c := Signed(s[0]);
    if c > 0 {
      DecodeReads(s[2..]);
    } else if c < 0 {
      DecodeReads(s[1 - c..]);
    }
  }

  lemma DecodeReplicate(s: seq<u8>)
    requires s != [] && Signed(s[0]) > 0
    ensures Decode(s).Some? <==> |s| >= 2 && Decode(s[2..]).Some?
    ensures Decode(s).Some? ==>
      && Decode(s).value.0 == Fill(Signed(s[0]), s[1]) + Decode(s[2..]).value.0
      && Decode(s).value.1 == 2 + Decode(s[2..]).value.1
  {
  }

  lemma DecodeLiteral(s: seq<u8>, n: nat)
    requires s != [] && n > 0 && Signed(s[0]) + n == 0
    ensures Decode(s).Some? <==> |s| >= 1 + n && Decode(s[1 + n..]).Some?
    ensures Decode(s).Some? ==>
      && Decode(s).value.0 == s[1..1 + n] + Decode(s[1 + n..]).value.0
      && Decode(s).value.1 == 1 + n + Decode(s[1 + n..]).value.1
  {
  }

  lemma DecodeEnd(s: seq<u8>)
    requires s != [] && Signed(s[0]) == 0
    ensures Decode(s) == Some(([], 1))
  {
  }

  /** Writes `n` copies of a byte. */
  method FillRun(output: array<u8>, start: nat, n: nat, value: u8) returns (out: nat)
    requires start + n <= output.Length
    modifies output
    ensures out == start + n && output[..out] == old(output[..start]) + Fill(n, value)
    ensures output[out..] == old(output[out..])
  {
    out := start;
    var count := n;
    while count > 0
      invariant 0 <= count <= n && out == start + (n - count)
      invariant output[..out] == old(output[..start]) + Fill(n - count, value)
      invariant output[out..] == old(output[out..])
    {
      output[out] := value;
      out := out + 1;
      count := count - 1;
    }
  }

  /** Copies `n` bytes of the input. */
  method CopyRun(output: array<u8>, input: array<u8>, start: nat, from: nat, n: nat) returns (out: nat)
    requires output != input && start + n <= output.Length && from + n <= input.Length
    modifies output
    ensures out == start + n && output[..out] == old(output[..start]) + input[from..from + n]
    ensures output[out..] == old(output[out..])
  {
    out := start;
    for i := 0 to n
      invariant out == start + i
      invariant output[..out] == old(output[..start]) + input[from..from + i]
      invariant output[out..] == old(output[out..])
    {
      output[out] := input[from + i];
      out := out + 1;
    }
  }

  method Decoder(output: array<u8>, input: array<u8>) returns (written: nat)
    requires output != input && Decode(input[..]).Some?
    requires |Decode(input[..]).value.0| <= output.Length
    modifies output
    ensures written == |Decode(input[..]).value.0|
    ensures output[..written] == Decode(input[..]).value.0
    ensures output[written..] == old(output[written..])
  {
    hide Decode, Fill, Signed;
    ghost var x := input[..];
    ghost var d := Decode(x).value.0;
    var out: nat := 0;
    var next: nat := 0;
    assert x[0..] == x && [] + d == d;
    while true
      invariant next <= |x| && input[..] == x && Decode(x[next..]).Some?
      invariant out <= |d| <= output.Length && d == output[..out] + Decode(x[next..]).value.0
      invariant output[out..] == old(output[out..])
      decreases |x| - next
    {
      ghost var s, all, before := x[next..], output[..], output[..out];
      ghost var start := out;
      DecodeReads(s);
      var count := Signed(input[next]);
      next := next + 1;
      if count > 0 {
        // replicate run
        DecodeReplicate(s);
        var value := input[next];
        next := next + 1;
        assert s[2..] == x[next..] && s[1] == value;
        out := FillRun(output, out, count, value);
        Regroup(before, Fill(count, value), Decode(x[next..]).value.0);
      } else if count < 0 {
        // literal run
        DecodeLiteral(s, -count);
        assert s[1 - count..] == x[next - count..] && s[1..1 - count] == input[next..next - count];
        out := CopyRun(output, input, out, next, -count);
        Regroup(before, input[next..next - count], Decode(x[next - count..]).value.0);
        next := next - count;
      } else {
        DecodeEnd(s);
        return out;
      }
      assert d == output[..out] + Decode(x[next..]).value.0;
      KeepTail(all, old(output[..]), start, out);
    }
  }

  // --- The decoder inverts the encoder, whatever follows ---

  /** Decoding reads exactly the bytes that encoding wrote and gives back what was encoded. */
  lemma {:induction false} RoundTrip(x: seq<u8>, junk: seq<u8>)
    ensures Decode(Encode(x) + junk) == Some((x, |Encode(x)|))
    decreases |x|
  {
    hide Decode, Encode, ScanSame, ScanLiteral;
    var s := Encode(x) + junk;
    if x == [] {
      EncodeEnd();
      DecodeEnd(s);
    } else {
      var n := ScanSame(x, 1);
      if n == 1 {
        var m := ScanLiteral(x, 1);
        EncodeLiteral(x);
        RoundTrip(x[m..], junk);
        DecodeLiteral(s, m);
        assert s[1..1 + m] == x[..m] && s[1 + m..] == Encode(x[m..]) + junk;
        assert x == x[..m] + x[m..];
      } else {
        EncodeReplicate(x);
        RoundTrip(x[n..], junk);
        DecodeReplicate(s);
        assert s[2..] == Encode(x[n..]) + junk;
        assert forall k | 0 <= k < n :: x[k] == x[0] by { SameRun(x); }
        assert Fill(n, x[0]) == x[..n];
        assert x == x[..n] + x[n..];
      }
    }
  }

  lemma SameRun(x: seq<u8>)
    requires x != []
    ensures forall k | 0 <= k < ScanSame(x, 1) :: x[k] == x[0]
  {
  }

  // --- Size bounds ---

  function CeilDiv127(n: nat): nat {
    (n + 126) / 127
  }

  lemma CeilDivStep(n: nat, m: nat)
    requires m <= n
    ensures CeilDiv127(n - m) <= CeilDiv127(n)
    ensures m <= 127 ==> CeilDiv127(n) <= CeilDiv127(n - m) + 1
    ensures m == 127 ==> CeilDiv127(n) == CeilDiv127(n - m) + 1
    ensures 0 < n ==> CeilDiv127(n) >= 1
  {
  }

  /**
   Expansion is at most one byte per 127, plus the end marker. A literal run cut short by the
   back-up is paid for by the replicate run of three or more that follows it.
   */
  lemma {:induction false} SizeBound(x: seq<u8>)
    ensures |Encode(x)| <= |x| + CeilDiv127(|x|) + 1
    ensures TripleAt(x, 0) ==> |Encode(x)| <= |x| + CeilDiv127(|x|)
    decreases |x|
  {
    if x != [] {
      var n := ScanSame(x, 1);
      if n == 1 {
        var m := ScanLiteral(x, 1);
        EncodeLiteral(x);
        SizeBound(x[m..]);
        CeilDivStep(|x|, m);
        if TripleAt(x, m) {
          assert TripleAt(x[m..], 0);
        }
        assert |Encode(x)| == 1 + m + |Encode(x[m..])|;
      } else {
        EncodeReplicate(x);
        SizeBound(x[n..]);
        CeilDivStep(|x|, n);
        assert |Encode(x)| == 2 + |Encode(x[n..])|;
      }
    }
  }

  /** No run covers more than 127 bytes or costs less than two. */
  lemma {:induction false} SizeLowerBound(x: seq<u8>)
    ensures |Encode(x)| >= 2 * CeilDiv127(|x|) + 1
    decreases |x|
  {
    if x != [] {
      var n := ScanSame(x, 1);
      var m := if n == 1 then ScanLiteral(x, 1) else n;
      SizeLowerBound(x[m..]);
      CeilDivStep(|x|, m);
    }
  }

  /** Bytes that never repeat the one before: nothing to replicate. */
  function Alternating(n: nat, b: bool): (s: seq<u8>)
    ensures |s| == n
    ensures n > 0 ==> s[0] == if b then 1 else 0
    ensures forall i | 1 <= i < n :: s[i] != s[i - 1]
  {
    if n == 0 then [] else [if b then 1 else 0] + Alternating(n - 1, !b)
  }

  lemma {:induction false} ScanLiteralFull(s: seq<u8>, i: nat)
    requires 1 <= i <= |s| && i <= 127
    requires forall k | 1 <= k < |s| :: s[k] != s[k - 1]
    ensures ScanLiteral(s, i) == if |s| < 127 then |s| else 127
    decreases 127 - i
  {
    if i < |s| && i < 127 {
      ScanLiteralFull(s, i + 1);
    }
  }

  lemma {:induction false} NoRepeatSize(s: seq<u8>)
    requires forall k | 1 <= k < |s| :: s[k] != s[k - 1]
    ensures |Encode(s)| == |s| + CeilDiv127(|s|) + 1
    decreases |s|
  {
    if s != [] {
      var m := ScanLiteral(s, 1);
      EncodeLiteral(s);
      ScanLiteralFull(s, 1);
      forall k | 1 <= k < |s[m..]|
        ensures s[m..][k] != s[m..][k - 1]
      {
        assert s[m + k] != s[m + k - 1];
      }
      NoRepeatSize(s[m..]);
      CeilDivStep(|s|, m);
    }
  }

  lemma {:induction false} ScanSameFull(n: nat, i: nat)
    requires 1 <= i <= n && i <= 127
    ensures ScanSame(Fill(n, 0), i) == if n < 127 then n else 127
    decreases 127 - i
  {
    if i < n && i < 127 {
      ScanSameFull(n, i + 1);
    }
  }

  lemma {:induction false} ConstantSize(n: nat)
    ensures |Encode(Fill(n, 0))| == 2 * CeilDiv127(n) + 1
  {
    hide ScanSame, ScanLiteral, Encode;
    var s := Fill(n, 0);
    if n == 0 {
      EncodeEnd();
    } else if n == 1 {
      ScanSameFull(1, 1);
      EncodeLiteral(s);
      assert s[1..] == [];
      EncodeEnd();
    } else {
      var m := ScanSame(s, 1);
      ScanSameFull(n, 1);
      EncodeReplicate(s);
      assert s[m..] == Fill(n - m, 0);
      ConstantSize(n - m);
      CeilDivStep(n, m);
      if m < 127 {
        assert CeilDiv127(n) == 1 && CeilDiv127(n - m) == 0;
      }
    }
  }

  /** Both bounds are reached at every length: by alternating bytes and by equal bytes. */
  lemma BoundsAreTight(n: nat)
    ensures |Encode(Alternating(n, false))| == n + CeilDiv127(n) + 1
    ensures |Encode(Fill(n, 0))| == 2 * CeilDiv127(n) + 1
  {
    NoRepeatSize(Alternating(n, false));
    ConstantSize(n);
  }
}
