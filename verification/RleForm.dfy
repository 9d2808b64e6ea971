/**
 * The form of encoded data: the runs of which an encoding consists, read by their headers. Conditions on the runs
 * alone leave exactly one way of encoding any bytes, and it is the one of the encoder.
 */
module RleForm {
  import opened Rle
  import opened Wrappers

  datatype Run = Same(n: nat, v: u8) | Literal(bytes: seq<u8>)

  function Bytes(r: Run): seq<u8> {
    match r
    case Same(n, v) => Fill(n, v)
    case Literal(bytes) => bytes
  }

  function Expand(rs: seq<Run>): seq<u8> {
    if rs == [] then [] else Bytes(rs[0]) + Expand(rs[1..])
  }

  /** The bytes of runs, each behind its header, and the end marker: copies are counted up, literals down from 256. */
  function Written(rs: seq<Run>): seq<int> {
    if rs == [] then [0]
    else
      var run :=
        match rs[0]
        case Same(n, v) => [n, v]
        case Literal(b) => [256 - |b|] + b;
      run + Written(rs[1..])
  }

  /** A run by itself: two to 127 copies; or one to 127 bytes that do not begin with a pair and hold no triple. */
  predicate TightRun(r: Run) {
    match r
    case Same(n, v) => 2 <= n <= 127
    case Literal(b) =>
      && 1 <= |b| <= 127 && (|b| >= 2 ==> b[0] != b[1])
      && forall k | 0 <= k && k + 2 < |b| :: !(b[k] == b[k + 1] == b[k + 2])
  }

  /** A run and the next one: copies end where the byte changes, literals at three copies or more, unless they are full. */
  predicate TightPair(r: Run, q: Run)
    requires TightRun(r) && TightRun(q)
  {
    match r
    case Same(n, v) => n == 127 || Bytes(q)[0] != v
    case Literal(b) => |b| == 127 || (|b| <= 124 && q.Same? && q.n >= 3 && q.v != b[|b| - 1])
  }

  predicate Tight(rs: seq<Run>) {
    rs == [] || (TightRun(rs[0]) && Tight(rs[1..]) && (|rs| > 1 ==> TightRun(rs[1]) && TightPair(rs[0], rs[1])))
  }

  // --- The encoder's runs are tight ---

  lemma {:induction false} NoTripleBefore(s: seq<u8>, i: nat)
    requires 1 <= i <= |s| && i <= 127 && (|s| > 1 ==> s[1] != s[0])
    requires forall k | 0 <= k && k + 2 < i :: !TripleAt(s, k)
    ensures var n := ScanLiteral(s, i);
      && (forall k | 0 <= k < n && k + 2 < 127 :: !TripleAt(s, k))
      && (n < |s| && n < 127 ==> n <= 124)
    decreases 127 - i
  {
    if i < |s| && i < 127 && !(i > 1 && s[i] == s[i - 1] == s[i - 2]) {
      NoTripleBefore(s, i + 1);
    }
  }

  /** The first run of an encoding. */
  function FirstRun(s: seq<u8>): Run
    requires s != []
  {
    var n := ScanSame(s, 1);
    if n == 1 then Literal(s[..ScanLiteral(s, 1)]) else Same(n, s[0])
  }

  lemma FirstRunIsTight(s: seq<u8>)
    requires s != []
    ensures var r := FirstRun(s);
      && TightRun(r) && Bytes(r) <= s && 1 <= |Bytes(r)|
      && (|Bytes(r)| < |s| ==>
            var t := s[|Bytes(r)|..]; TightRun(FirstRun(t)) ==> TightPair(r, FirstRun(t)))
  {
    var r, n := FirstRun(s), ScanSame(s, 1);
    if n == 1 {
      LiteralIsTight(s);
    } else {
      SameIsTight(s);
    }
  }

  lemma SameIsTight(s: seq<u8>)
    requires s != [] && ScanSame(s, 1) != 1
    ensures var r := FirstRun(s);
      && TightRun(r) && Bytes(r) <= s
      && (|Bytes(r)| < |s| ==>
            var t := s[|Bytes(r)|..]; TightRun(FirstRun(t)) ==> TightPair(r, FirstRun(t)))
  {
    hide ScanLiteral;
    var n := ScanSame(s, 1);
    SameRun(s);
    assert s[..n] == Fill(n, s[0]);
    if n < |s| {
      FirstByte(s[n..]);
    }
  }

  lemma FirstByte(t: seq<u8>)
    requires t != []
    ensures Bytes(FirstRun(t)) != [] && Bytes(FirstRun(t))[0] == t[0]
  {
  }

  lemma LiteralIsTight(s: seq<u8>)
    requires s != [] && ScanSame(s, 1) == 1
    ensures var r := FirstRun(s);
      && TightRun(r) && Bytes(r) <= s
      && (|Bytes(r)| < |s| ==>
            var t := s[|Bytes(r)|..]; TightRun(FirstRun(t)) ==> TightPair(r, FirstRun(t)))
  {
    var m := ScanLiteral(s, 1);
    NoTripleBefore(s, 1);
    hide ScanLiteral, ScanSame;
    var b := s[..m];
    forall k | 0 <= k && k + 2 < |b|
      ensures !(b[k] == b[k + 1] == b[k + 2])
    {
      assert !TripleAt(s, k);
    }
    if m < |s| && m < 127 {
      assert TripleAt(s, m) && !TripleAt(s, m - 1);
      TripleCopies(s[m..]);
    }
  }

  lemma TripleCopies(t: seq<u8>)
    requires TripleAt(t, 0)
    ensures FirstRun(t).Same? && FirstRun(t).n >= 3 && FirstRun(t).v == t[0]
  {
    assert t[0] == t[1] == t[2];
  }

  /** The runs of an encoding. */
  function RunsOf(x: seq<u8>): (rs: seq<Run>)
    ensures x != [] ==> rs != [] && rs[0] == FirstRun(x)
    decreases |x|
  {
    if x == [] then []
    else
      FirstRunIsTight(x);
      [FirstRun(x)] + RunsOf(x[|Bytes(FirstRun(x))|..])
  }

  lemma FirstRunsAreTight(x: seq<u8>)
    requires x != []
    ensures var r := FirstRun(x);
      && TightRun(r) && 1 <= |Bytes(r)| <= |x| && Bytes(r) == x[..|Bytes(r)|]
      && (|Bytes(r)| < |x| ==>
            var q := FirstRun(x[|Bytes(r)|..]); TightRun(q) && TightPair(r, q))
  {
    hide FirstRun, TightRun, TightPair, Bytes;
    FirstRunIsTight(x);
    var m := |Bytes(FirstRun(x))|;
    if m < |x| {
      FirstRunIsTight(x[m..]);
    }
  }

  lemma RunsInFront(r: Run, rs: seq<Run>)
    requires TightRun(r) && Tight(rs) && (rs != [] ==> TightRun(rs[0]) && TightPair(r, rs[0]))
    ensures Tight([r] + rs) && Expand([r] + rs) == Bytes(r) + Expand(rs)
  {
    hide TightRun, TightPair, Bytes;
    assert ([r] + rs)[1..] == rs;
  }

  lemma {:induction false} RunsAreTight(x: seq<u8>)
    ensures Tight(RunsOf(x)) && Expand(RunsOf(x)) == x
    decreases |x|
  {
    hide FirstRun, TightRun, TightPair, Bytes;
    if x != [] {
      var m := |Bytes(FirstRun(x))|;
      FirstRunsAreTight(x);
      RunsAreTight(x[m..]);
      hide Tight, Expand;
      RunsInFront(FirstRun(x), RunsOf(x[m..]));
      assert x == x[..m] + x[m..];
    }
  }

  lemma {:induction false} EncodeWritesRuns(x: seq<u8>)
    ensures Encode(x) == Written(RunsOf(x))
    decreases |x|
  {
    hide Encode, ScanSame, ScanLiteral, FirstRun;
    if x == [] {
      EncodeEnd();
    } else {
      FirstRunIsTight(x);
      EncodeWritesRuns(x[|Bytes(FirstRun(x))|..]);
      EncodeFirst(x);
    }
  }

  lemma EncodeFirst(x: seq<u8>)
    requires x != []
    ensures var r := FirstRun(x);
      var rest := Encode(x[|Bytes(r)|..]);
      match r
      case Same(n, v) => 0 < n < 128 && Encode(x) == [n, v] + rest
      case Literal(b) => 0 < |b| < 128 && Encode(x) == [256 - |b|] + b + rest
  {
    if ScanSame(x, 1) == 1 {
      EncodeLiteral(x);
    } else {
      EncodeReplicate(x);
    }
  }

  // --- There is only one way ---

  lemma ExpandFirst(rs: seq<Run>)
    requires rs != [] && Tight(rs)
    ensures var b, x := Bytes(rs[0]), Expand(rs);
      && b != [] && b <= x && x[|b|..] == Expand(rs[1..])
      && (|rs| > 1 ==> Bytes(rs[1]) <= Expand(rs[1..]) && Bytes(rs[1]) != [])
  {
    var b := Bytes(rs[0]);
    assert Expand(rs) == b + Expand(rs[1..]);
    if |rs| > 1 {
      assert rs[1..][0] == rs[1];
    }
  }

  /** The bytes begin with so many copies, and the next byte is another one unless they are full. */
  predicate Copies(n: nat, v: u8, x: seq<u8>) {
    |x| >= n && (forall i | 0 <= i < n :: x[i] == v) && (n < 127 && |x| > n ==> x[n] != v)
  }

  /** The bytes begin with a literal run, and three copies come behind it unless it is full. */
  predicate Follows(b: seq<u8>, x: seq<u8>) {
    && b != [] && b <= x
    && (|b| < 127 && |x| > |b| ==>
          |b| <= 124 && |x| >= |b| + 3 && x[|b|] == x[|b| + 1] == x[|b| + 2] && x[|b|] != b[|b| - 1])
  }

  lemma SameIsNoLiteral(n: nat, v: u8, b: seq<u8>, x: seq<u8>)
    requires TightRun(Same(n, v)) && Copies(n, v, x)
    ensures !(TightRun(Literal(b)) && Follows(b, x))
  {
    assert x[0] == v && x[1] == v;
  }

  lemma FewerCopies(n: nat, m: nat, v: u8, x: seq<u8>)
    requires n < m <= 127 && Copies(n, v, x)
    ensures !Copies(m, v, x)
  {
    if |x| > n {
      assert x[n] != v;
    }
  }

  lemma ShorterLiteral(b: seq<u8>, d: seq<u8>, x: seq<u8>)
    requires |b| < |d| <= 127 && Follows(b, x)
    ensures !(TightRun(Literal(d)) && Follows(d, x))
  {
    var m := |b|;
    if d <= x {
      assert x[m] == x[m + 1] == x[m + 2];
      if |d| >= m + 3 {
        assert d[m] == d[m + 1] == d[m + 2];
      } else {
        assert d[|d| - 1] == x[|d| - 1];
      }
    }
  }

  lemma AfterSame(n: nat, v: u8, q: Run, rest: seq<u8>)
    requires TightRun(Same(n, v)) && (rest != [] ==> TightRun(q) && TightPair(Same(n, v), q))
    requires rest != [] ==> Bytes(q) <= rest
    ensures Copies(n, v, Fill(n, v) + rest)
  {
  }

  lemma AfterLiteral(b: seq<u8>, q: Run, rest: seq<u8>)
    requires TightRun(Literal(b)) && (rest != [] ==> TightRun(q) && TightPair(Literal(b), q))
    requires rest != [] ==> Bytes(q) <= rest
    ensures Follows(b, b + rest)
  {
    if rest != [] && |b| < 127 {
      assert Bytes(q)[0] == Bytes(q)[1] == Bytes(q)[2] == q.v;
      assert rest[0] == rest[1] == rest[2] == q.v;
    }
  }

  /** What the first run tells of the expansion. */
  lemma AfterFirst(rs: seq<Run>, x: seq<u8>)
    requires rs != [] && Tight(rs) && x == Expand(rs)
    ensures TightRun(rs[0])
    ensures match rs[0]
      case Same(n, v) => Copies(n, v, x)
      case Literal(b) => Follows(b, x)
  {
    ExpandFirst(rs);
    hide Copies, Follows, TightPair, TightRun;
    var rest := Expand(rs[1..]);
    assert |rs| == 1 ==> rest == [];
    var q := if |rs| > 1 then rs[1] else rs[0];
    match rs[0]
    case Same(n, v) => AfterSame(n, v, q, rest);
    case Literal(b) => AfterLiteral(b, q, rest);
  }

  lemma FirstIsDetermined(rs: seq<Run>, qs: seq<Run>, x: seq<u8>)
    requires Tight(rs) && Tight(qs) && rs != [] && qs != [] && Expand(rs) == x == Expand(qs)
    ensures rs[0] == qs[0]
  {
    AfterFirst(rs, x);
    AfterFirst(qs, x);
    hide Expand, Tight, Follows;
    match (rs[0], qs[0]) {
      case (Same(n, v), Same(m, w)) =>
        assert v == x[0] == w;
        if n < m {
          FewerCopies(n, m, v, x);
        } else if m < n {
          FewerCopies(m, n, v, x);
        }
      case (Same(n, v), Literal(b)) =>
        SameIsNoLiteral(n, v, b, x);
      case (Literal(b), Same(n, v)) =>
        SameIsNoLiteral(n, v, b, x);
      case (Literal(b), Literal(d)) =>
        if |b| < |d| {
          ShorterLiteral(b, d, x);
        } else if |d| < |b| {
          ShorterLiteral(d, b, x);
        } else {
          SameLength(b, d, x);
        }
    }
  }

  lemma SameLength(b: seq<u8>, d: seq<u8>, x: seq<u8>)
    requires |b| == |d| && Follows(b, x) && Follows(d, x)
    ensures b == d
  {
  }

  /** Two tight lists of runs of the same bytes are the same. */
  lemma {:induction false} TightIsUnique(rs: seq<Run>, qs: seq<Run>)
    requires Tight(rs) && Tight(qs) && Expand(rs) == Expand(qs)
    ensures rs == qs
    decreases |rs|
  {
    hide TightRun, TightPair, Bytes;
    if rs == [] {
      if qs != [] {
        ExpandFirst(qs);
        assert false;
      }
    } else if qs == [] {
      ExpandFirst(rs);
      assert false;
    } else {
      FirstIsDetermined(rs, qs, Expand(rs));
      ExpandFirst(rs);
      ExpandFirst(qs);
      TightIsUnique(rs[1..], qs[1..]);
      assert rs == [rs[0]] + rs[1..] && qs == [qs[0]] + qs[1..];
    }
  }

  /**
   * There is exactly one tight list of runs for any bytes, and encoding writes it: copies are never cut short, and no
   * literal run holds three equal bytes in a row.
   */
  lemma EncodingIsTight(x: seq<u8>, rs: seq<Run>)
    ensures Tight(rs) && Expand(rs) == x <==> rs == RunsOf(x)
    ensures Encode(x) == Written(RunsOf(x))
  {
    RunsAreTight(x);
    EncodeWritesRuns(x);
    if Tight(rs) && Expand(rs) == x {
      TightIsUnique(rs, RunsOf(x));
    }
  }

  // --- The decoder ---

  /** A run that can be written: up to 127 copies, or a literal run of up to 128 bytes, one more than are encoded. */
  predicate Writable(rs: seq<Run>) {
    rs == []
    || (Writable(rs[1..])
        && match rs[0]
           case Same(n, v) => 1 <= n <= 127
           case Literal(b) => 1 <= |b| <= 128)
  }

  lemma SameIsDecoded(n: int, v: u8, rest: seq<int>, s: seq<u8>)
    requires 1 <= n <= 127 && [n, v] + rest <= s
    ensures rest <= s[2..]
    ensures Decode(s[2..]).Some? ==>
      Decode(s) == Some((Fill(n, v) + Decode(s[2..]).value.0, 2 + Decode(s[2..]).value.1))
  {
    assert s[0] == ([n, v] + rest)[0] && s[1] == ([n, v] + rest)[1];
    assert rest == ([n, v] + rest)[2..];
    hide Decode, Fill;
    DecodeReplicate(s);
  }

  lemma LiteralIsDecoded(b: seq<u8>, rest: seq<int>, s: seq<u8>)
    requires 1 <= |b| <= 128 && [256 - |b|] + b + rest <= s
    ensures rest <= s[1 + |b|..]
    ensures var t := s[1 + |b|..];
      Decode(t).Some? ==> Decode(s) == Some((b + Decode(t).value.0, 1 + |b| + Decode(t).value.1))
  {
    hide Decode;
    var all := [256 - |b|] + b + rest;
    assert s[0] == all[0] && b == all[1..1 + |b|] == s[1..1 + |b|] && rest == all[1 + |b|..];
    DecodeLiteral(s, |b|);
  }

  /** Any runs are decoded, and what follows the end marker is not read. */
  lemma {:induction false} RunsAreDecoded(rs: seq<Run>, s: seq<u8>)
    requires Writable(rs) && Written(rs) <= s
    ensures Decode(s) == Some((Expand(rs), |Written(rs)|))
    decreases |rs|
  {
    if rs == [] {
      DecodeEnd(s);
    } else {
      hide Decode, Fill;
      match rs[0] {
        case Same(n, v) =>
          SameIsDecoded(n, v, Written(rs[1..]), s);
          RunsAreDecoded(rs[1..], s[2..]);
        case Literal(b) =>
          LiteralIsDecoded(b, Written(rs[1..]), s);
          RunsAreDecoded(rs[1..], s[1 + |b|..]);
      }
    }
  }

  lemma {:induction false} DecodedIsRuns(s: seq<u8>) returns (rs: seq<Run>)
    requires Decode(s).Some?
    ensures Writable(rs) && Written(rs) <= s
    decreases |s|
  {
    var c := Signed(s[0]);
    if c == 0 {
      rs := [];
    } else if c > 0 {
      DecodeReplicate(s);
      var more := DecodedIsRuns(s[2..]);
      rs := [Same(c, s[1])] + more;
      assert rs[1..] == more;
      assert s == [c, s[1]] + s[2..];
    } else {
      DecodeLiteral(s, -c);
      var more := DecodedIsRuns(s[1 - c..]);
      rs := [Literal(s[1..1 - c])] + more;
      assert rs[1..] == more;
      assert s == [256 + c] + s[1..1 - c] + s[1 - c..];
    }
  }

  /** And nothing else is: input can be decoded exactly if it begins with written runs. */
  lemma DecodableIff(s: seq<u8>)
    ensures Decode(s).Some? <==> exists rs :: Writable(rs) && Written(rs) <= s
  {
    hide Decode, Written, Writable;
    if Decode(s).Some? {
      var rs := DecodedIsRuns(s);
    }
    forall rs | Writable(rs) && Written(rs) <= s
      ensures Decode(s).Some?
    {
      RunsAreDecoded(rs, s);
    }
  }

  /** Two bytes and ten copies of a third are not written as one literal run. */
  lemma EncodingExample()
    ensures Encode([1, 2] + Fill(10, 3)) == [254, 1, 2, 10, 3, 0]
  {
    hide Encode, FirstRun;
    var x, r, q := [1, 2] + Fill(10, 3), Literal([1, 2]), Same(10, 3);
    assert [r, q][1..] == [q] && [q][1..] == [];
    assert Tight([q]) && Tight([r, q]);
    assert Expand([q]) == Fill(10, 3) + Expand([]) == Fill(10, 3);
    assert Expand([r, q]) == x;
    EncodingIsTight(x, [r, q]);
    assert Written([q]) == [10, 3] + Written([]) == [10, 3, 0];
  }
}
