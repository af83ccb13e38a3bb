/** Exact sums of real sequences, the arithmetic every allocation rule here relies on. */
module Sums {

  function Min(a: real, b: real): real
  {
    if a <= b then a else b
  }

  function Max(a: real, b: real): real
  {
    if a < b then b else a
  }

  function Abs(a: real): real
  {
    if a < 0.0 then -a else a
  }

  /** Dividing by d and multiplying back gives the original amount. */
  lemma {:induction false} CancelDivision(a: real, d: real)
    requires d != 0.0
    ensures d * (a / d) == a
  {
  }

  /** Left-to-right sum, peeling the last element (so a loop that adds s[i] keeps Sum(s[..i])). */
  function Sum(s: seq<real>): real
  {
    if s == [] then 0.0 else Sum(s[..|s| - 1]) + s[|s| - 1]
  }

  /** One loop step: the sum of a longer prefix adds the next element. */
  lemma {:induction false} SumPrefix(s: seq<real>, i: nat)
    requires i < |s|
    ensures Sum(s[..i + 1]) == Sum(s[..i]) + s[i]
  {
    assert s[..i + 1][..i] == s[..i];
  }

  /** Sums distribute over concatenation. */
  lemma {:induction false} SumAppend(a: seq<real>, b: seq<real>)
    ensures Sum(a + b) == Sum(a) + Sum(b)
  {
    if b == [] {
      assert a + b == a;
    } else {
      assert (a + b)[..|a + b| - 1] == a + b[..|b| - 1];
      SumAppend(a, b[..|b| - 1]);
    }
  }

  /** The sum of a singleton. */
  lemma {:induction false} SumSingle(x: real)
    ensures Sum([x]) == x
  {
    assert [x][..0] == [];
  }

  /** The sum seen from the front: the first element plus the rest. */
  lemma {:induction false} SumFront(s: seq<real>)
    requires |s| > 0
    ensures Sum(s) == s[0] + Sum(s[1..])
  {
    SumAppend([s[0]], s[1..]);
    SumSingle(s[0]);
    assert [s[0]] + s[1..] == s;
  }

  /** Replacing one element changes the sum by the difference. */
  lemma {:induction false} SumUpdate(s: seq<real>, k: nat, a: real)
    requires k < |s|
    ensures Sum(s[k := a]) == Sum(s) - s[k] + a
  {
    var n := |s| - 1;
    if k < n {
      SumUpdate(s[..n], k, a);
      assert s[k := a][..n] == s[..n][k := a];
    } else {
      assert s[k := a][..n] == s[..n];
    }
  }

  /** Pointwise larger terms give a larger sum. */
  lemma {:induction false} SumMonotone(a: seq<real>, b: seq<real>)
    requires |a| == |b| && forall i :: 0 <= i < |a| ==> a[i] <= b[i]
    ensures Sum(a) <= Sum(b)
  {
    if |a| > 0 {
      var n := |a| - 1;
      SumMonotone(a[..n], b[..n]);
    }
  }

  /** A sum of non-negative terms is non-negative. */
  lemma {:induction false} SumNonNegative(a: seq<real>)
    requires forall i :: 0 <= i < |a| ==> 0.0 <= a[i]
    ensures 0.0 <= Sum(a)
  {
    if a != [] {
      SumNonNegative(a[..|a| - 1]);
    }
  }

  /**
   * Telescoping: the successive differences of c add up to its last entry minus
   * its first.
   */
  lemma {:induction false} Telescope(c: seq<real>, d: seq<real>)
    requires |c| == |d| + 1
    requires forall k :: 0 <= k < |d| ==> d[k] == c[k + 1] - c[k]
    ensures Sum(d) == c[|c| - 1] - c[0]
  {
    if d != [] {
      var n := |d| - 1;
      Telescope(c[..n + 1], d[..n]);
    }
  }
}
