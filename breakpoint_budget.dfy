/**
 * The phantom-median budget found without bisection. The total of the medians
 * is piecewise linear in t, with kinks only where a phantom vote c * min(1, i*t)
 * reaches 1 (t = 1/i) or crosses a real vote v (t = v / (c * i)). The search
 * evaluates those breakpoints, finds two adjacent ones whose totals bracket the
 * budget, and interpolates linearly between them.
 */
module BreakpointBudget {
  import opened Sums
  import opened Sorting
  import opened PhantomMedians

  function Inv(i: int): real
    requires i >= 1
  {
    1.0 / (i as real)
  }

  function Ratio(v: real, B: real, i: int): real
    requires B != 0.0 && i >= 1
  {
    v / (B * (i as real))
  }

  /** Number of phantom indices: one fewer than the number of citizens (none for an empty row). */
  function PhantomCount(subjects: seq<seq<real>>): nat
    requires |subjects| >= 1
  {
    if |subjects[0]| >= 1 then |subjects[0]| - 1 else 0
  }

  /**
   * The breakpoint computation divides by the budget whenever some vote meets
   * some phantom index, so the budget may be 0 only when that never happens.
   */
  ghost predicate BreakpointInput(B: real, subjects: seq<seq<real>>)
  {
    && |subjects| >= 1
    && (B != 0.0 || PhantomCount(subjects) == 0 || forall s :: 0 <= s < |subjects| ==> subjects[s] == [])
  }

  /** Vote j of subject s and phantom index i exist. */
  ghost predicate Slot(subjects: seq<seq<real>>, s: int, j: int, i: int)
    requires |subjects| >= 1
  {
    0 <= s < |subjects| && 0 <= j < |subjects[s]| && 1 <= i <= PhantomCount(subjects)
  }

  /** x is 0, 1, or 1/i or v/(B*i) for a vote v and a phantom index i. */
  ghost predicate IsBreakpoint(B: real, subjects: seq<seq<real>>, x: real)
    requires |subjects| >= 1
  {
    || x == 0.0
    || x == 1.0
    || exists s, j, i :: Slot(subjects, s, j, i) && (x == Inv(i) || (B != 0.0 && x == Ratio(subjects[s][j], B, i)))
  }

  /** (s', j', i') comes before (s, j, i) in loop order. */
  predicate Before(s': int, j': int, i': int, s: int, j: int, i: int)
  {
    s' < s || (s' == s && j' < j) || (s' == s && j' == j && i' < i)
  }

  /** Both values of slot (s, j, i) are in res. */
  ghost predicate Covered(B: real, subjects: seq<seq<real>>, res: set<real>, s: int, j: int, i: int)
    requires |subjects| >= 1 && Slot(subjects, s, j, i)
  {
    Inv(i) in res && (B != 0.0 ==> Ratio(subjects[s][j], B, i) in res)
  }

  /** Every slot before (s, j, i), in loop order, has been added. */
  ghost predicate AddedUpTo(B: real, subjects: seq<seq<real>>, res: set<real>, s: int, j: int, i: int)
    requires |subjects| >= 1
  {
    forall s', j', i' :: Slot(subjects, s', j', i') && Before(s', j', i', s, j, i) ==> Covered(B, subjects, res, s', j', i')
  }

  lemma {:induction false} AddedAt(B: real, subjects: seq<seq<real>>, res: set<real>, s: int, j: int, i: int, s': int, j': int, i': int)
    requires |subjects| >= 1 && AddedUpTo(B, subjects, res, s, j, i)
    requires Slot(subjects, s', j', i') && Before(s', j', i', s, j, i)
    ensures Covered(B, subjects, res, s', j', i')
  {
  }

  /** The set so far holds 0 and 1 and breakpoints only. */
  ghost predicate Partial(B: real, subjects: seq<seq<real>>, res: set<real>)
    requires |subjects| >= 1
  {
    0.0 in res && 1.0 in res && forall x :: x in res ==> IsBreakpoint(B, subjects, x)
  }

  /** Collect the breakpoints in three nested loops, starting from {0, 1}. */
  method ComputeBreakpoints(B: real, subjects: seq<seq<real>>) returns (res: set<real>)
    requires BreakpointInput(B, subjects)
    ensures forall x :: x in res <==> IsBreakpoint(B, subjects, x)
  {
    res := {0.0, 1.0};
    for s := 0 to |subjects|
      invariant Partial(B, subjects, res)
      invariant AddedUpTo(B, subjects, res, s, 0, 1)
    {
      for j := 0 to |subjects[s]|
        invariant Partial(B, subjects, res)
        invariant AddedUpTo(B, subjects, res, s, j, 1)
      {
        res := AddVote(B, subjects, s, j, res);
      }
      assert AddedUpTo(B, subjects, res, s + 1, 0, 1) by {
        forall s', j', i' | Slot(subjects, s', j', i') && Before(s', j', i', s + 1, 0, 1)
          ensures Covered(B, subjects, res, s', j', i')
        {
          AddedAt(B, subjects, res, s, |subjects[s]|, 1, s', j', i');
        }
      }
    }
    forall x | IsBreakpoint(B, subjects, x) ensures x in res {
      if x != 0.0 && x != 1.0 {
        var s, j, i :| Slot(subjects, s, j, i) && (x == Inv(i) || (B != 0.0 && x == Ratio(subjects[s][j], B, i)));
        AddedAt(B, subjects, res, |subjects|, 0, 1, s, j, i);
      }
    }
  }

  /** The innermost loop: add 1/i and v/(B*i) for the vote v = subjects[s][j] and every phantom index i. */
  method AddVote(B: real, subjects: seq<seq<real>>, s: nat, j: nat, res: set<real>) returns (out: set<real>)
    requires BreakpointInput(B, subjects) && s < |subjects| && j < |subjects[s]|
    requires Partial(B, subjects, res) && AddedUpTo(B, subjects, res, s, j, 1)
    ensures Partial(B, subjects, out) && AddedUpTo(B, subjects, out, s, j + 1, 1)
  {
    var k := PhantomCount(subjects);
    var v := subjects[s][j];
    out := res;
    for i := 1 to k + 1
      invariant Partial(B, subjects, out)
      invariant AddedUpTo(B, subjects, out, s, j, i)
    {
      assert B != 0.0;
      assert IsBreakpoint(B, subjects, Inv(i)) && IsBreakpoint(B, subjects, Ratio(v, B, i)) by {
        assert Slot(subjects, s, j, i);
      }
      ghost var before := out;
      out := out + {Inv(i), Ratio(v, B, i)};
      assert AddedUpTo(B, subjects, out, s, j, i + 1) by {
        forall s', j', i' | Slot(subjects, s', j', i') && Before(s', j', i', s, j, i + 1)
          ensures Covered(B, subjects, out, s', j', i')
        {
          if s' != s || j' != j || i' != i {
            AddedAt(B, subjects, before, s, j, i, s', j', i');
          }
        }
      }
    }
    assert AddedUpTo(B, subjects, out, s, j + 1, 1) by {
      forall s', j', i' | Slot(subjects, s', j', i') && Before(s', j', i', s, j + 1, 1)
        ensures Covered(B, subjects, out, s', j', i')
      {
        AddedAt(B, subjects, out, s, j, k + 1, s', j', i');
      }
    }
  }

  /** Strictly increasing, so also free of repeats. */
  ghost predicate Increasing(bs: seq<real>)
  {
    forall i, j :: 0 <= i < j < |bs| ==> bs[i] < bs[j]
  }

  /** A set of numbers without members is the empty set. */
  lemma {:induction false} NoMembersEmpty(S: set<real>)
    ensures (forall m :: m !in S) ==> S == {}
  {
    if forall m :: m !in S {
      assert forall m :: m in S <==> m in {};
    }
  }

  /** A finite non-empty set of numbers has a least element. */
  lemma {:induction false} HasLeast(S: set<real>)
    requires S != {}
    ensures exists m :: m in S && forall y :: y in S ==> m <= y
    decreases |S|
  {
    NoMembersEmpty(S);
    var x :| x in S;
    if !forall y :: y in S ==> x <= y {
      var y :| y in S && y < x;
      var rest := S - {x};
      assert y in rest;
      assert |rest| == |S| - 1;
      HasLeast(rest);
      var m :| m in rest && forall z :: z in rest ==> m <= z;
      forall z | z in S ensures m <= z {
        if z != x { assert z in rest; }
      }
      assert m in S;
    } else {
      assert x in S;
    }
  }

  /** The elements of a set in increasing order, taking the least remaining one each time. */
  method SortedElements(S: set<real>) returns (bs: seq<real>)
    ensures Increasing(bs)
    ensures forall x :: x in bs <==> x in S
  {
    bs := [];
    var rest := S;
    while rest != {}
      invariant rest <= S
      invariant forall x :: x in S <==> x in bs || x in rest
      invariant Increasing(bs)
      invariant forall i, y :: 0 <= i < |bs| && y in rest ==> bs[i] < y
      decreases |rest|
    {
      HasLeast(rest);
      var m :| m in rest && forall y :: y in rest ==> m <= y;
      bs := bs + [m];
      rest := rest - {m};
    }
  }

  /** Total of the medians at time t. */
  function Total(B: real, subjects: seq<seq<real>>, t: real): real
    requires MedianInput(subjects)
  {
    Sum(Medians(B, subjects, t))
  }

  /** The medians at t and their total. */
  method EvaluateAt(B: real, subjects: seq<seq<real>>, t: real) returns (medians: seq<real>, total: real)
    requires MedianInput(subjects)
    ensures medians == Medians(B, subjects, t) && total == Total(B, subjects, t)
  {
    medians := ComputeMedians(B, subjects, t);
    total := Sum(medians);
  }

  /**
   * How the search over the breakpoints ends: at a breakpoint whose total is the
   * budget, between two breakpoints whose totals bracket it, or, when one of
   * the two sides was never seen, with the bound the original never assigns.
   */
  datatype Search = Exact(medians: seq<real>) | Bracket(tLower: real, lowerSum: real, tUpper: real, upperSum: real) | Unbracketed

  /**
   * Binary search for the budget over the sorted breakpoints. A bracket found is
   * always a pair of neighbouring breakpoints.
   */
  method SearchBreakpoints(B: real, subjects: seq<seq<real>>, bs: seq<real>) returns (out: Search)
    requires MedianInput(subjects) && |bs| >= 1
    ensures out.Exact? ==> exists i :: 0 <= i < |bs| && out.medians == Medians(B, subjects, bs[i]) && Sum(out.medians) == B
    ensures out.Bracket? ==>
      exists i :: 0 <= i < |bs| - 1 && out.tLower == bs[i] && out.tUpper == bs[i + 1]
        && out.lowerSum == Total(B, subjects, bs[i]) && out.upperSum == Total(B, subjects, bs[i + 1])
    ensures out.Bracket? ==> out.lowerSum < B < out.upperSum
    ensures out.Unbracketed? ==> Total(B, subjects, bs[0]) > B || Total(B, subjects, bs[|bs| - 1]) < B
  {
    var l, r := 0, |bs| - 1;
    var tLower, tUpper := 0.0, 1.0;
    var lowerSum, upperSum := 0.0, 0.0;
    var hasLower, hasUpper := false, false;
    while l <= r
      invariant 0 <= l <= r + 1 <= |bs|
      invariant hasLower ==> 1 <= l && tLower == bs[l - 1] && lowerSum == Total(B, subjects, bs[l - 1]) && lowerSum < B
      invariant hasUpper ==> r + 1 < |bs| && tUpper == bs[r + 1] && upperSum == Total(B, subjects, bs[r + 1]) && upperSum > B
      invariant !hasLower ==> l == 0
      invariant !hasUpper ==> r == |bs| - 1
      decreases r - l + 1
    {
      var mid := (l + r) / 2;
      var t := bs[mid];
      var medians, total := EvaluateAt(B, subjects, t);
      if total == B {
        out := Exact(medians);
        assert 0 <= mid < |bs| && out.medians == Medians(B, subjects, bs[mid]);
        return;
      } else if total < B {
        tLower, lowerSum, hasLower := t, total, true;
        l := mid + 1;
      } else {
        tUpper, upperSum, hasUpper := t, total, true;
        r := mid - 1;
      }
    }
    if !hasLower {
      assert upperSum == Total(B, subjects, bs[0]);
      return Unbracketed;
    } else if !hasUpper {
      assert lowerSum == Total(B, subjects, bs[|bs| - 1]);
      return Unbracketed;
    }
    out := Bracket(tLower, lowerSum, tUpper, upperSum);
    assert out.tLower == bs[l - 1] && out.tUpper == bs[l - 1 + 1];
  }

  /**
   * The point where the line through (tLower, lowerSum) and (tUpper, upperSum)
   * reaches the budget.
   */
  function Interpolate(B: real, tLower: real, lowerSum: real, tUpper: real, upperSum: real): (t: real)
    requires tLower < tUpper && lowerSum < B < upperSum
    ensures tLower < t < tUpper
    ensures lowerSum + (t - tLower) * ((upperSum - lowerSum) / (tUpper - tLower)) == B
  {
    var slope := (upperSum - lowerSum) / (tUpper - tLower);
    var bias := upperSum - tUpper * slope;
    InterpolationLine(B, tLower, lowerSum, tUpper, upperSum, slope, bias);
    (B - bias) / slope
  }

  lemma {:induction false} InterpolationLine(B: real, tLower: real, lowerSum: real, tUpper: real, upperSum: real, slope: real, bias: real)
    requires tLower < tUpper && lowerSum < B < upperSum
    requires slope == (upperSum - lowerSum) / (tUpper - tLower)
    requires bias == upperSum - tUpper * slope
    ensures slope > 0.0
    ensures tLower < (B - bias) / slope < tUpper
    ensures lowerSum + ((B - bias) / slope - tLower) * slope == B
  {
    var d := tUpper - tLower;
    assert slope * d == upperSum - lowerSum;
    assert slope > 0.0;
    var t := (B - bias) / slope;
    assert t * slope == B - bias;
    assert lowerSum == bias + tLower * slope;
    assert (t - tLower) * slope == B - lowerSum;
    assert (tUpper - t) * slope == upperSum - B;
  }

  /** tLower and tUpper are breakpoints with no breakpoint strictly between them. */
  ghost predicate Adjacent(B: real, subjects: seq<seq<real>>, tLower: real, tUpper: real)
    requires |subjects| >= 1
  {
    && IsBreakpoint(B, subjects, tLower) && IsBreakpoint(B, subjects, tUpper) && tLower < tUpper
    && forall x :: IsBreakpoint(B, subjects, x) ==> x <= tLower || tUpper <= x
  }

  /** Up to its kink 1/i, phantom i is c * i * t. */
  lemma {:induction false} FLinear(i: int, t: real, c: real)
    requires i >= 1 && t <= Inv(i)
    ensures F(i, t, c) == (c * (i as real)) * t
  {
    var r := i as real;
    assert r * Inv(i) == 1.0;
    assert r * (Inv(i) - t) >= 0.0;
  }

  /** From its kink 1/i on, phantom i is capped at c. */
  lemma {:induction false} FCapped(i: int, t: real, c: real)
    requires i >= 1 && Inv(i) <= t
    ensures F(i, t, c) == c
  {
    var r := i as real;
    assert r * Inv(i) == 1.0;
    assert r * (t - Inv(i)) >= 0.0;
  }

  /** A fraction w of the way from x to y lies between them. */
  lemma {:induction false} BetweenRange(x: real, y: real, w: real)
    requires x <= y && 0.0 <= w <= 1.0
    ensures x <= Between(x, y, w) <= y
  {
    var d := y - x;
    assert w * d >= 0.0;
    assert (1.0 - w) * d >= 0.0;
    assert Between(x, y, w) == y - (1.0 - w) * d;
  }

  /** The line k * t passed through at a fraction w of the way from x to y. */
  lemma {:induction false} LineBetween(k: real, x: real, y: real, w: real)
    ensures k * Between(x, y, w) == Between(k * x, k * y, w)
  {
    assert k * (x + w * (y - x)) == k * x + w * (k * y - k * x);
  }

  /**
   * Between two times with no kink 1/i of phantom i strictly inside, the
   * phantom vote moves along a straight line.
   */
  lemma {:induction false} FBetween(i: int, x: real, y: real, w: real, c: real)
    requires i >= 1 && x <= y && 0.0 <= w <= 1.0
    requires Inv(i) <= x || y <= Inv(i)
    ensures F(i, Between(x, y, w), c) == Between(F(i, x, c), F(i, y, c), w)
  {
    var t := Between(x, y, w);
    BetweenRange(x, y, w);
    if Inv(i) <= x {
      FCapped(i, x, c);
      FCapped(i, t, c);
      FCapped(i, y, c);
    } else {
      FLinear(i, x, c);
      FLinear(i, t, c);
      FLinear(i, y, c);
      LineBetween(c * (i as real), x, y, w);
    }
  }

  /**
   * A line k * t that does not reach the level v strictly between x and y
   * stays on one side of v at both ends.
   */
  lemma {:induction false} LineOrder(k: real, x: real, y: real, v: real)
    requires x < y && (k == 0.0 || v / k <= x || y <= v / k)
    ensures (k * x <= v && k * y <= v) || (v <= k * x && v <= k * y)
  {
    if k != 0.0 {
      var z := v / k;
      assert k * z == v;
      assert k * x - v == k * (x - z) && k * y - v == k * (y - z);
      if k > 0.0 && z <= x {
        assert k * (x - z) >= 0.0 && k * (y - z) >= 0.0;
      } else if k > 0.0 {
        assert k * (z - x) >= 0.0 && k * (z - y) >= 0.0;
      } else if z <= x {
        assert (-k) * (x - z) >= 0.0 && (-k) * (y - z) >= 0.0;
      } else {
        assert (-k) * (z - x) >= 0.0 && (-k) * (z - y) >= 0.0;
      }
    }
  }

  /** min(1, i * t) grows with i for t >= 0 and shrinks with i for t <= 0. */
  lemma {:induction false} MinOrder(i: int, j: int, t: real)
    requires 1 <= i <= j
    ensures 0.0 <= t ==> Min(1.0, (i as real) * t) <= Min(1.0, (j as real) * t)
    ensures t <= 0.0 ==> Min(1.0, (j as real) * t) <= Min(1.0, (i as real) * t)
  {
    var d := (j as real) - (i as real);
    assert (j as real) * t - (i as real) * t == d * t;
    if 0.0 <= t {
      assert d * t >= 0.0;
    } else {
      assert d * (-t) >= 0.0;
      assert (i as real) * (-t) >= 0.0;
    }
  }

  /** Scaling two pairs ordered the same way by one factor keeps them ordered the same way. */
  lemma {:induction false} ScaledOrder(c: real, a: real, b: real, a': real, b': real)
    requires (a <= b && a' <= b') || (b <= a && b' <= a')
    ensures (c * a <= c * b && c * a' <= c * b') || (c * b <= c * a && c * b' <= c * a')
  {
    assert c * b - c * a == c * (b - a) && c * b' - c * a' == c * (b' - a');
    if 0.0 <= c && a <= b && a' <= b' {
      assert c * (b - a) >= 0.0 && c * (b' - a') >= 0.0;
    } else if 0.0 <= c {
      assert c * (a - b) >= 0.0 && c * (a' - b') >= 0.0;
    } else if a <= b && a' <= b' {
      assert (-c) * (b - a) >= 0.0 && (-c) * (b' - a') >= 0.0;
    } else {
      assert (-c) * (a - b) >= 0.0 && (-c) * (a' - b') >= 0.0;
    }
  }

  /**
   * Two phantom votes keep their order between two times on the same side of
   * 0: for t >= 0 a higher index gives the larger min(1, i * t), for t <= 0 the
   * smaller.
   */
  lemma {:induction false} PhantomPairOrder(i: int, j: int, x: real, y: real, c: real)
    requires 1 <= i <= j && x <= y && (0.0 <= x || y <= 0.0)
    ensures || (F(i, x, c) <= F(j, x, c) && F(i, y, c) <= F(j, y, c))
            || (F(j, x, c) <= F(i, x, c) && F(j, y, c) <= F(i, y, c))
  {
    MinOrder(i, j, x);
    MinOrder(i, j, y);
    ScaledOrder(c, Min(1.0, (i as real) * x), Min(1.0, (j as real) * x), Min(1.0, (i as real) * y), Min(1.0, (j as real) * y));
  }

  /**
   * Phantom i and a real vote v keep their order between x and y when neither
   * the kink 1/i nor the meeting point v / (c * i) lies strictly between them:
   * either the phantom is capped at c throughout, or it is a line that does not
   * pass v there.
   */
  lemma {:induction false} PhantomVoteOrder(i: int, x: real, y: real, c: real, v: real)
    requires i >= 1 && x < y
    requires Inv(i) <= x || y <= Inv(i)
    requires c == 0.0 || Ratio(v, c, i) <= x || y <= Ratio(v, c, i)
    ensures (F(i, x, c) <= v && F(i, y, c) <= v) || (v <= F(i, x, c) && v <= F(i, y, c))
  {
    if y <= Inv(i) {
      FLinear(i, x, c);
      FLinear(i, y, c);
      LineOrder(c * (i as real), x, y, v);
    } else {
      FCapped(i, x, c);
      FCapped(i, y, c);
    }
  }

  /** Neither breakpoint of phantom i and a real vote lies strictly between adjacent breakpoints. */
  lemma {:induction false} NoKinkBetween(B: real, subjects: seq<seq<real>>, x: real, y: real, i: int, s: int, j: int)
    requires |subjects| >= 1 && Adjacent(B, subjects, x, y) && Slot(subjects, s, j, i)
    ensures Inv(i) <= x || y <= Inv(i)
    ensures B == 0.0 || Ratio(subjects[s][j], B, i) <= x || y <= Ratio(subjects[s][j], B, i)
  {
    assert IsBreakpoint(B, subjects, Inv(i));
    if B != 0.0 {
      assert IsBreakpoint(B, subjects, Ratio(subjects[s][j], B, i));
    }
  }

  /** A subject's phantom and real votes at the two ends of the bracket. */
  function VotesAt(B: real, subjects: seq<seq<real>>, t: real, s: int): seq<real>
    requires MedianInput(subjects) && 0 <= s < |subjects|
  {
    Phantoms(B, subjects, t) + subjects[s]
  }

  /** Between adjacent breakpoints every subject's votes keep their order. */
  lemma {:induction false} VotesSameOrder(B: real, subjects: seq<seq<real>>, x: real, y: real, s: int)
    requires MedianInput(subjects) && Adjacent(B, subjects, x, y) && 0 <= s < |subjects|
    ensures SameOrder(VotesAt(B, subjects, x, s), VotesAt(B, subjects, y, s))
  {
    var lx, ly := VotesAt(B, subjects, x, s), VotesAt(B, subjects, y, s);
    var n := |Phantoms(B, subjects, x)|;
    assert IsBreakpoint(B, subjects, 0.0);
    forall a, b | 0 <= a < |lx| && 0 <= b < |lx|
      ensures (lx[a] <= lx[b] && ly[a] <= ly[b]) || (lx[b] <= lx[a] && ly[b] <= ly[a])
    {
      if a < n && b < n {
        if a <= b {
          PhantomPairOrder(a + 1, b + 1, x, y, B);
        } else {
          PhantomPairOrder(b + 1, a + 1, x, y, B);
        }
      } else if a < n {
        NoKinkBetween(B, subjects, x, y, a + 1, s, b - n);
        PhantomVoteOrder(a + 1, x, y, B, subjects[s][b - n]);
      } else if b < n {
        NoKinkBetween(B, subjects, x, y, b + 1, s, a - n);
        PhantomVoteOrder(b + 1, x, y, B, subjects[s][a - n]);
      }
    }
  }

  /** Between adjacent breakpoints every vote moves along a straight line. */
  lemma {:induction false} VotesBetween(B: real, subjects: seq<seq<real>>, x: real, y: real, w: real, s: int)
    requires MedianInput(subjects) && Adjacent(B, subjects, x, y) && 0 <= s < |subjects| && 0.0 <= w <= 1.0
    ensures |VotesAt(B, subjects, Between(x, y, w), s)| == |VotesAt(B, subjects, x, s)|
    ensures forall k :: 0 <= k < |VotesAt(B, subjects, x, s)| ==>
      VotesAt(B, subjects, Between(x, y, w), s)[k] == Between(VotesAt(B, subjects, x, s)[k], VotesAt(B, subjects, y, s)[k], w)
  {
    var t := Between(x, y, w);
    var lt, lx, ly := VotesAt(B, subjects, t, s), VotesAt(B, subjects, x, s), VotesAt(B, subjects, y, s);
    var n := |Phantoms(B, subjects, x)|;
    forall k | 0 <= k < |lx| ensures lt[k] == Between(lx[k], ly[k], w) {
      if k < n {
        assert Slot(subjects, 0, 0, k + 1);
        assert IsBreakpoint(B, subjects, Inv(k + 1));
        FBetween(k + 1, x, y, w, B);
      }
    }
  }

  /** Between adjacent breakpoints every median moves along a straight line. */
  lemma {:induction false} MediansBetween(B: real, subjects: seq<seq<real>>, x: real, y: real, w: real)
    requires MedianInput(subjects) && Adjacent(B, subjects, x, y) && 0.0 <= w <= 1.0
    ensures forall s :: 0 <= s < |subjects| ==>
      Medians(B, subjects, Between(x, y, w))[s] == Between(Medians(B, subjects, x)[s], Medians(B, subjects, y)[s], w)
  {
    forall s | 0 <= s < |subjects|
      ensures Medians(B, subjects, Between(x, y, w))[s] == Between(Medians(B, subjects, x)[s], Medians(B, subjects, y)[s], w)
    {
      VotesSameOrder(B, subjects, x, y, s);
      VotesBetween(B, subjects, x, y, w, s);
      MedianBetween(VotesAt(B, subjects, x, s), VotesAt(B, subjects, y, s), VotesAt(B, subjects, Between(x, y, w), s), w);
    }
  }

  /**
   * The total of the medians is linear between adjacent breakpoints, so at the
   * interpolated t it is exactly the budget.
   */
  lemma {:induction false} InterpolatedTotal(B: real, subjects: seq<seq<real>>, x: real, y: real)
    requires MedianInput(subjects) && Adjacent(B, subjects, x, y)
    requires Total(B, subjects, x) < B < Total(B, subjects, y)
    ensures Total(B, subjects, Interpolate(B, x, Total(B, subjects, x), y, Total(B, subjects, y))) == B
  {
    var lo, hi := Total(B, subjects, x), Total(B, subjects, y);
    var t := Interpolate(B, x, lo, y, hi);
    var w := (t - x) / (y - x);
    InterpolationWeight(B, x, lo, y, hi, w);
    TotalBetween(B, subjects, x, y, w);
  }

  /**
   * The interpolated t is the fraction w = (t - x) / (y - x) of the way from x
   * to y, and the same fraction of the way from the lower to the upper total is
   * the budget.
   */
  lemma {:induction false} InterpolationWeight(B: real, x: real, lo: real, y: real, hi: real, w: real)
    requires x < y && lo < B < hi
    requires w == (Interpolate(B, x, lo, y, hi) - x) / (y - x)
    ensures 0.0 <= w <= 1.0 && Interpolate(B, x, lo, y, hi) == Between(x, y, w)
    ensures Between(lo, hi, w) == B
  {
    var t := Interpolate(B, x, lo, y, hi);
    var d := y - x;
    assert w * d == t - x;
    assert (1.0 - w) * d == y - t;
    assert ((hi - lo) / d) * d == hi - lo;
    assert (t - x) * ((hi - lo) / d) == w * d * ((hi - lo) / d);
  }

  /** Between adjacent breakpoints the total of the medians moves along a straight line. */
  lemma {:induction false} TotalBetween(B: real, subjects: seq<seq<real>>, x: real, y: real, w: real)
    requires MedianInput(subjects) && Adjacent(B, subjects, x, y) && 0.0 <= w <= 1.0
    ensures Total(B, subjects, Between(x, y, w)) == Between(Total(B, subjects, x), Total(B, subjects, y), w)
  {
    MediansBetween(B, subjects, x, y, w);
    SumBetween(Medians(B, subjects, x), Medians(B, subjects, y), Medians(B, subjects, Between(x, y, w)), w);
  }

  /** t is the least (least) or the greatest (not least) breakpoint. */
  ghost predicate Extreme(B: real, subjects: seq<seq<real>>, t: real, least: bool)
    requires |subjects| >= 1
  {
    IsBreakpoint(B, subjects, t) && forall x :: IsBreakpoint(B, subjects, x) ==> if least then t <= x else x <= t
  }

  /**
   * How compute_budget ends. The three failures are the runs on which the
   * original raises: no subject to take a first row of, a division by a zero
   * budget, and a bound on the totals that was never assigned.
   */
  datatype BudgetOutcome = Allocated(medians: seq<real>) | NoSubjects | DivisionByZero | MissingBound

  /**
   * The budget per subject: the medians at a breakpoint whose total is the
   * budget, or at the interpolated t between the two neighbouring breakpoints
   * whose totals bracket it.
   */
  method ComputeBudget(B: real, ballots: seq<seq<real>>) returns (out: BudgetOutcome)
    ensures out == NoSubjects <==> Width(ballots) == 0
    ensures out == DivisionByZero <==> Width(ballots) >= 1 && B == 0.0 && |ballots| >= 2
    ensures out.Allocated? ==> MedianInput(Transpose(ballots)) && |out.medians| == Width(ballots)
    ensures out.Allocated? ==> Sum(out.medians) == B
    ensures out.Allocated? ==>
      || (exists t :: IsBreakpoint(B, Transpose(ballots), t) && out.medians == Medians(B, Transpose(ballots), t) && Sum(out.medians) == B)
      || (exists tLower, tUpper :: Adjacent(B, Transpose(ballots), tLower, tUpper)
            && Total(B, Transpose(ballots), tLower) < B < Total(B, Transpose(ballots), tUpper)
            && out.medians == Medians(B, Transpose(ballots), Interpolate(B, tLower, Total(B, Transpose(ballots), tLower), tUpper, Total(B, Transpose(ballots), tUpper))))
    ensures out == MissingBound ==> MedianInput(Transpose(ballots))
    ensures out == MissingBound ==>
      exists t :: || (Extreme(B, Transpose(ballots), t, true) && Total(B, Transpose(ballots), t) > B)
                  || (Extreme(B, Transpose(ballots), t, false) && Total(B, Transpose(ballots), t) < B)
  {
    var subjects := Transpose(ballots);
    if |subjects| == 0 {
      return NoSubjects;
    }
    assert |ballots| >= 1 && |subjects[0]| == |ballots|;
    if B == 0.0 && PhantomCount(subjects) >= 1 {
      return DivisionByZero;
    }
    out := BudgetFor(B, subjects);
  }

  /**
   * The budget for a table with at least one subject whose breakpoints can be
   * computed: one of the two allocations, or the bound that was never assigned.
   */
  method BudgetFor(B: real, subjects: seq<seq<real>>) returns (out: BudgetOutcome)
    requires MedianInput(subjects) && BreakpointInput(B, subjects)
    ensures out.Allocated? || out == MissingBound
    ensures out.Allocated? ==> |out.medians| == |subjects| && Sum(out.medians) == B
    ensures out.Allocated? ==>
      || (exists t :: IsBreakpoint(B, subjects, t) && out.medians == Medians(B, subjects, t) && Sum(out.medians) == B)
      || (exists tLower, tUpper :: Adjacent(B, subjects, tLower, tUpper)
            && Total(B, subjects, tLower) < B < Total(B, subjects, tUpper)
            && out.medians == Medians(B, subjects, Interpolate(B, tLower, Total(B, subjects, tLower), tUpper, Total(B, subjects, tUpper))))
    ensures out == MissingBound ==>
      exists t :: || (Extreme(B, subjects, t, true) && Total(B, subjects, t) > B)
                  || (Extreme(B, subjects, t, false) && Total(B, subjects, t) < B)
  {
    var points := ComputeBreakpoints(B, subjects);
    var bs := SortedElements(points);
    assert 0.0 in bs;
    var search := SearchBreakpoints(B, subjects, bs);
    match search {
      case Exact(medians) =>
        out := Allocated(medians);
        var i :| 0 <= i < |bs| && medians == Medians(B, subjects, bs[i]) && Sum(medians) == B;
        assert bs[i] in points;
        assert IsBreakpoint(B, subjects, bs[i]);
      case Unbracketed =>
        out := MissingBound;
        if Total(B, subjects, bs[0]) > B {
          SortedExtreme(B, subjects, points, bs, 0, true);
          assert Extreme(B, subjects, bs[0], true) && Total(B, subjects, bs[0]) > B;
        } else {
          SortedExtreme(B, subjects, points, bs, |bs| - 1, false);
          assert Extreme(B, subjects, bs[|bs| - 1], false) && Total(B, subjects, bs[|bs| - 1]) < B;
        }
      case Bracket(tLower, lowerSum, tUpper, upperSum) =>
        var i :| 0 <= i < |bs| - 1 && tLower == bs[i] && tUpper == bs[i + 1]
          && lowerSum == Total(B, subjects, bs[i]) && upperSum == Total(B, subjects, bs[i + 1]);
        SortedAdjacent(B, subjects, points, bs, i);
        var t := Interpolate(B, tLower, lowerSum, tUpper, upperSum);
        var medians := ComputeMedians(B, subjects, t);
        out := Allocated(medians);
        assert Adjacent(B, subjects, tLower, tUpper) && Total(B, subjects, tLower) < B < Total(B, subjects, tUpper);
        InterpolatedTotal(B, subjects, tLower, tUpper);
    }
  }

  /** Neighbours in the sorted breakpoints are adjacent breakpoints. */
  lemma {:induction false} SortedAdjacent(B: real, subjects: seq<seq<real>>, points: set<real>, bs: seq<real>, i: int)
    requires |subjects| >= 1 && forall x :: x in points <==> IsBreakpoint(B, subjects, x)
    requires Increasing(bs) && (forall x :: x in bs <==> x in points) && 0 <= i < |bs| - 1
    ensures Adjacent(B, subjects, bs[i], bs[i + 1])
  {
    assert bs[i] in points && bs[i + 1] in points;
    forall x | IsBreakpoint(B, subjects, x) ensures x <= bs[i] || bs[i + 1] <= x {
      assert x in bs;
      var j :| 0 <= j < |bs| && bs[j] == x;
      if j <= i {
        assert j == i || bs[j] < bs[i];
      } else {
        assert j == i + 1 || bs[i + 1] < bs[j];
      }
    }
  }

  /** The first and the last of the sorted breakpoints are the least and the greatest. */
  lemma {:induction false} SortedExtreme(B: real, subjects: seq<seq<real>>, points: set<real>, bs: seq<real>, i: int, least: bool)
    requires |subjects| >= 1 && forall x :: x in points <==> IsBreakpoint(B, subjects, x)
    requires Increasing(bs) && (forall x :: x in bs <==> x in points)
    requires i == (if least then 0 else |bs| - 1) && 0 <= i < |bs|
    ensures Extreme(B, subjects, bs[i], least)
  {
    assert bs[i] in bs;
    forall x | IsBreakpoint(B, subjects, x) ensures if least then bs[i] <= x else x <= bs[i] {
      assert x in bs;
      var j :| 0 <= j < |bs| && bs[j] == x;
      assert j == i || (least && bs[i] < bs[j]) || (!least && bs[j] < bs[i]);
    }
  }

  /** The documented ballots as subjects: for budget 100 the breakpoints are 0 and 1 only. */
  lemma {:induction false} DemoBreakpoints(subjects: seq<seq<real>>)
    requires subjects == [[100.0, 0.0], [0.0, 0.0], [0.0, 100.0]]
    ensures forall x :: IsBreakpoint(100.0, subjects, x) <==> x == 0.0 || x == 1.0
  {
    forall x | IsBreakpoint(100.0, subjects, x) ensures x == 0.0 || x == 1.0 {
      if exists s, j, i :: Slot(subjects, s, j, i) && (x == Inv(i) || x == Ratio(subjects[s][j], 100.0, i)) {
        var s, j, i :| Slot(subjects, s, j, i) && (x == Inv(i) || x == Ratio(subjects[s][j], 100.0, i));
        assert i == 1;
        assert subjects[s][j] == 0.0 || subjects[s][j] == 100.0;
      }
    }
  }

  lemma {:induction false} DemoSum(m: seq<real>, a: real, b: real, c: real)
    requires m == [a, b, c]
    ensures Sum(m) == a + b + c
  {
    assert m[..2][..1][..0] == [];
    assert Sum(m[..2][..1]) == a;
    assert Sum(m[..2]) == a + b;
  }

  /**
   * The documented example of the breakpoint search: budget 100, ballots
   * [100, 0, 0] and [0, 0, 100]. The totals at the breakpoints 0 and 1 are 0
   * and 200, the interpolated t is 1/2, and the budget is 50, 0, 50.
   */
  method DemoBudget() returns (out: BudgetOutcome)
    ensures out == Allocated([50.0, 0.0, 50.0])
  {
    var ballots := [[100.0, 0.0, 0.0], [0.0, 0.0, 100.0]];
    DemoSubjects();
    out := ComputeBudget(100.0, ballots);
    DemoOutcome(Transpose(ballots), out);
  }

  /** What the outcome of the breakpoint search must be on the documented ballots. */
  lemma {:induction false} DemoOutcome(subjects: seq<seq<real>>, out: BudgetOutcome)
    requires subjects == [[100.0, 0.0], [0.0, 0.0], [0.0, 100.0]]
    requires out != NoSubjects && out != DivisionByZero
    requires out.Allocated? ==>
      || (exists t :: IsBreakpoint(100.0, subjects, t) && out.medians == Medians(100.0, subjects, t) && Sum(out.medians) == 100.0)
      || (exists tLower, tUpper :: Adjacent(100.0, subjects, tLower, tUpper)
            && Total(100.0, subjects, tLower) < 100.0 < Total(100.0, subjects, tUpper)
            && out.medians == Medians(100.0, subjects, Interpolate(100.0, tLower, Total(100.0, subjects, tLower), tUpper, Total(100.0, subjects, tUpper))))
    requires out == MissingBound ==>
      exists t :: || (Extreme(100.0, subjects, t, true) && Total(100.0, subjects, t) > 100.0)
                  || (Extreme(100.0, subjects, t, false) && Total(100.0, subjects, t) < 100.0)
    ensures out == Allocated([50.0, 0.0, 50.0])
  {
    DemoSearch(subjects);
  }

  /**
   * On the documented ballots the breakpoints are 0 and 1, with totals 0 and
   * 200: no breakpoint is exact, 0 and 1 are the only adjacent pair and the
   * extremes, and the line through them reaches 100 at t = 1/2.
   */
  lemma {:induction false} DemoSearch(subjects: seq<seq<real>>)
    requires subjects == [[100.0, 0.0], [0.0, 0.0], [0.0, 100.0]]
    ensures MedianInput(subjects)
    ensures Total(100.0, subjects, 0.0) == 0.0 && Total(100.0, subjects, 1.0) == 200.0
    ensures forall t :: IsBreakpoint(100.0, subjects, t) ==> Total(100.0, subjects, t) != 100.0
    ensures forall t :: Extreme(100.0, subjects, t, true) ==> t == 0.0
    ensures forall t :: Extreme(100.0, subjects, t, false) ==> t == 1.0
    ensures forall x, y :: Adjacent(100.0, subjects, x, y) ==> x == 0.0 && y == 1.0
    ensures Interpolate(100.0, 0.0, 0.0, 1.0, 200.0) == 0.5
    ensures Medians(100.0, subjects, 0.5) == [50.0, 0.0, 50.0]
  {
    DemoBreakpoints(subjects);
    DemoLowMedians(subjects);
    DemoHighMedians(subjects);
    DemoSum(Medians(100.0, subjects, 0.0), 0.0, 0.0, 0.0);
    DemoSum(Medians(100.0, subjects, 1.0), 100.0, 0.0, 100.0);
    DemoMedians(subjects);
    assert IsBreakpoint(100.0, subjects, 0.0) && IsBreakpoint(100.0, subjects, 1.0);
  }
}
