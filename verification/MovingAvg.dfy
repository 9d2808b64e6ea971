/**
 * The moving average of bertos/algo/moving_avg.h: a ring buffer with a running sum. Values are reals, so that
 * one class serves the integer and the floating-point instance.
 */
module MovingAvg {

  function Sum(w: seq<real>): real {
    if w == [] then 0.0 else Sum(w[..|w| - 1]) + w[|w| - 1]
  }

  lemma {:induction false} SumConcat(a: seq<real>, b: seq<real>)
    ensures Sum(a + b) == Sum(a) + Sum(b)
    decreases |b|
  {
    if b == [] {
      assert a + b == a;
    } else {
      var front := b[..|b| - 1];
      assert (a + b)[..|a + b| - 1] == a + front;
      SumConcat(a, front);
    }
  }

  lemma SumOfOne(x: real)
    ensures Sum([x]) == x
  {
    assert [x][..0] == [];
  }

  lemma SumWithoutFirst(w: seq<real>)
    requires w != []
    ensures Sum(w) == w[0] + Sum(w[1..])
  {
    assert w == [w[0]] + w[1..];
    SumConcat([w[0]], w[1..]);
    SumOfOne(w[0]);
  }

  /** A window of at most size values after one more. */
  function WindowPush(size: nat, w: seq<real>, v: real): (r: seq<real>)
    requires 0 < size && |w| <= size
    ensures |r| == if |w| < size then |w| + 1 else size
  {
    if |w| < size then w + [v] else w[1..] + [v]
  }

  function Last(h: seq<real>, n: nat): seq<real> {
    if |h| <= n then h else h[|h| - n..]
  }

  /** Pushing keeps the window equal to the last values of the whole history. */
  lemma PushIsLast(size: nat, h: seq<real>, v: real)
    requires 0 < size
    ensures WindowPush(size, Last(h, size), v) == Last(h + [v], size)
  {
    var next := h + [v];
    if size <= |h| {
      assert next[|next| - size..] == h[|h| - size..][1..] + [v];
    }
  }

  lemma PushSum(size: nat, w: seq<real>, v: real)
    requires 0 < size && |w| <= size
    ensures Sum(WindowPush(size, w, v)) == Sum(w) - (if |w| < size then 0.0 else w[0]) + v
  {
    SumOfOne(v);
    if |w| < size {
      SumConcat(w, [v]);
    } else {
      SumWithoutFirst(w);
      SumConcat(w[1..], [v]);
    }
  }

  /** The window kept in a buffer: count values from the front, or all of them starting at the oldest. */
  function Unrolled(buffer: seq<real>, cnt: nat, idx: nat): (w: seq<real>)
    requires cnt <= |buffer| && idx <= |buffer|
    ensures |w| == cnt
  {
    if cnt < |buffer| then buffer[..cnt] else buffer[idx..] + buffer[..idx]
  }

  lemma UnrolledPush(buffer: seq<real>, cnt: nat, idx: nat, v: real)
    requires idx < |buffer| && cnt <= |buffer| && (cnt < |buffer| ==> idx == cnt)
    ensures Unrolled(buffer[idx := v], if cnt < |buffer| then cnt + 1 else cnt,
                     if idx + 1 >= |buffer| then 0 else idx + 1)
         == WindowPush(|buffer|, Unrolled(buffer, cnt, idx), v)
    ensures cnt == |buffer| ==> Unrolled(buffer, cnt, idx)[0] == buffer[idx]
  {
    var next := if idx + 1 >= |buffer| then 0 else idx + 1;
    var after := buffer[idx := v];
    assert after[..idx] == buffer[..idx];
    if cnt < |buffer| {
      assert after[..idx + 1] == buffer[..idx] + [v];
      assert after[idx + 1..] == buffer[idx + 1..];
    } else {
      assert (buffer[idx..] + buffer[..idx])[1..] == buffer[idx + 1..] + buffer[..idx];
      assert after[..idx + 1] == buffer[..idx] + [v];
      if next == 0 {
        assert buffer[idx + 1..] + buffer[..idx] + [v] == after;
      } else {
        assert after[next..] == buffer[idx + 1..];
      }
    }
  }

  class MovingAvg {
    const size: nat
    const values: array<real>
    var sum: real
    var cnt: nat
    var idx: nat

    ghost predicate Valid()
      reads this, values
    {
      && 0 < size == values.Length && idx < size && cnt <= size
      && (cnt < size ==> idx == cnt)
      && sum == Sum(Contents())
    }

    /** The values of the window, oldest first. */
    ghost function Contents(): (w: seq<real>)
      requires idx <= values.Length == size && cnt <= size
      reads this, values
      ensures |w| == cnt
    {
      Unrolled(values[..], cnt, idx)
    }

    constructor (length: nat)
      requires 0 < length
      ensures Valid() && size == length && fresh(values) && Contents() == []
    {
      size := length;
      values := new real[length](_ => 0.0);
      sum := 0.0;
      cnt := 0;
      idx := 0;
    }

    method Reset()
      requires Valid()
      modifies this
      ensures Valid() && Contents() == []
    {
      sum := 0.0;
      cnt := 0;
      idx := 0;
    }

    method Push(v: real)
      requires Valid()
      modifies this, values
      ensures Valid() && Contents() == WindowPush(size, old(Contents()), v)
    {
      hide Unrolled, WindowPush, Sum;
      ghost var buffer, window := values[..], Contents();
      UnrolledPush(buffer, cnt, idx, v);
      PushSum(size, window, v);
      if cnt >= size {
        sum := sum - values[idx];
      }
      values[idx] := v;
      assert values[..] == buffer[idx := v];
      sum := sum + v;
      idx := if idx + 1 >= size then 0 else idx + 1;
      if cnt < size {
        cnt := cnt + 1;
      }
    }

    predicate Full()
      reads this
    {
      cnt >= size
    }

    predicate Empty()
      reads this
    {
      cnt == 0
    }

    method Get() returns (avg: real)
      requires Valid() && !Empty()
      ensures avg == Sum(Contents()) / |Contents()| as real
    {
      avg := sum / cnt as real;
    }
  }
}
