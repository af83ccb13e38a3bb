/**
 * Participatory budgeting by phantom medians. With n citizens, n - 1 "phantom"
 * votes c * min(1, i * t), i = 1 .. n - 1, are added to every subject's votes,
 * and the subject receives the median of the result. The parameter t is then
 * tuned until the medians add up to the budget.
 */
module PhantomMedians {
  import opened Sums
  import opened Sorting

  /** The i-th phantom vote at time t for a budget c. */
  function F(i: int, t: real, c: real): real
  {
    c * Min(1.0, (i as real) * t)
  }

  /** Phantom votes lie between 0 and the budget. */
  lemma {:induction false} FBounds(i: int, t: real, c: real)
    requires 0 <= i && 0.0 <= t && 0.0 <= c
    ensures 0.0 <= F(i, t, c) <= c
  {
    assert 0.0 <= (i as real) * t;
  }

  lemma {:induction false} MinMonotone(a: real, b: real)
    requires a <= b
    ensures Min(1.0, a) <= Min(1.0, b)
  {
  }

  /** Phantom votes grow with their index and with time. */
  lemma {:induction false} FMonotone(i: int, j: int, t: real, u: real, c: real)
    requires 0 <= i <= j && 0.0 <= t <= u && 0.0 <= c
    ensures F(i, t, c) <= F(j, u, c)
  {
    var ri, rj := i as real, j as real;
    assert (rj - ri) * t >= 0.0 && rj * (u - t) >= 0.0;
    assert rj * u - ri * t == (rj - ri) * t + rj * (u - t);
    var lo, hi := Min(1.0, ri * t), Min(1.0, rj * u);
    MinMonotone(ri * t, rj * u);
    assert c * (hi - lo) >= 0.0;
    assert F(j, u, c) - F(i, t, c) == c * (hi - lo);
  }

  /** The phantom votes 1 .. k at time t (none when k is not positive). */
  function AllF(k: int, t: real, c: real): seq<real>
  {
    seq(if k < 0 then 0 else k, i => F(i + 1, t, c))
  }

  /** The phantom votes come out sorted and within [0, c]. */
  lemma {:induction false} AllFSorted(k: int, t: real, c: real)
    requires 0.0 <= t && 0.0 <= c
    ensures |AllF(k, t, c)| == (if k < 0 then 0 else k)
    ensures SortedBy(AllF(k, t, c), Identity)
    ensures forall i :: 0 <= i < |AllF(k, t, c)| ==> 0.0 <= AllF(k, t, c)[i] <= c
  {
    var r := AllF(k, t, c);
    forall i, j | 0 <= i < j < |r| ensures Identity(r[i]) <= Identity(r[j]) {
      FMonotone(i + 1, j + 1, t, t, c);
    }
    forall i | 0 <= i < |r| ensures 0.0 <= r[i] <= c {
      FBounds(i + 1, t, c);
    }
  }

  /** Each phantom vote grows with time. */
  lemma {:induction false} AllFMonotone(k: int, t: real, u: real, c: real)
    requires 0.0 <= t <= u && 0.0 <= c
    ensures |AllF(k, t, c)| == |AllF(k, u, c)|
    ensures forall i :: 0 <= i < |AllF(k, t, c)| ==> AllF(k, t, c)[i] <= AllF(k, u, c)[i]
  {
    forall i | 0 <= i < |AllF(k, t, c)| ensures AllF(k, t, c)[i] <= AllF(k, u, c)[i] {
      FMonotone(i + 1, i + 1, t, u, c);
    }
  }

  /** The length of the shortest row, where zip stops (0 without rows). */
  function Width(rows: seq<seq<real>>): (w: nat)
    ensures forall c :: 0 <= c < |rows| ==> w <= |rows[c]|
    ensures |rows| > 0 ==> exists c :: 0 <= c < |rows| && w == |rows[c]|
    ensures |rows| == 0 ==> w == 0
  {
    if |rows| == 0 then 0
    else if |rows| == 1 then |rows[0]|
    else
      var w := Width(rows[1..]);
      assert forall c :: 1 <= c < |rows| ==> w <= |rows[c]| by {
        forall c | 1 <= c < |rows| ensures w <= |rows[c]| {
          assert rows[1..][c - 1] == rows[c];
        }
      }
      if |rows[0]| < w then |rows[0]| else w
  }

  /**
   * Turn the citizens' ballots (one row per citizen) into one row per subject,
   * as zip does: columns past the shortest ballot are dropped.
   */
  function Transpose(rows: seq<seq<real>>): (cols: seq<seq<real>>)
    ensures |cols| == Width(rows)
    ensures forall s :: 0 <= s < |cols| ==> |cols[s]| == |rows|
    ensures forall s, c :: 0 <= s < |cols| && 0 <= c < |rows| ==> cols[s][c] == rows[c][s]
  {
    var w := Width(rows);
    seq(w, s requires 0 <= s < w => seq(|rows|, c requires 0 <= c < |rows| => rows[c][s]))
  }

  /** Transposing a non-empty rectangular table twice gives it back. */
  lemma {:induction false} TransposeTwice(rows: seq<seq<real>>)
    requires |rows| >= 1 && |rows[0]| >= 1
    requires forall c :: 0 <= c < |rows| ==> |rows[c]| == |rows[0]|
    ensures Transpose(Transpose(rows)) == rows
  {
    var cols := Transpose(rows);
    assert Width(rows) == |rows[0]|;
    assert Width(cols) == |rows|;
    var back := Transpose(cols);
    forall c | 0 <= c < |rows| ensures back[c] == rows[c] {
      forall s | 0 <= s < |rows[c]| ensures back[c][s] == rows[c][s] {
        assert back[c][s] == cols[s][c];
      }
    }
  }

  /** The element at index len / 2 of the sorted list (the upper median for even lengths). */
  function Median(s: seq<real>): real
    requires |s| >= 1
  {
    SortBy(s, Identity)[|s| / 2]
  }

  /**
   * The median is one of the values, at least len / 2 + 1 of them are at most
   * it and at least len - len / 2 are at least it.
   */
  lemma {:induction false} MedianRank(s: seq<real>)
    requires |s| >= 1
    ensures Median(s) in s
    ensures CountCmp(s, Median(s), true) >= |s| / 2 + 1
    ensures CountCmp(s, Median(s), false) >= |s| - |s| / 2
  {
    var u := SortBy(s, Identity);
    SortByCorrect(s, Identity);
    var m := u[|s| / 2];
    OrderStatistic(u, |s| / 2);
    CountCmpPermutation(u, s, m, true);
    CountCmpPermutation(u, s, m, false);
    assert m in multiset(u);
  }

  /** Any sorted rearrangement of s has the median at index len / 2. */
  lemma {:induction false} MedianOfSorted(s: seq<real>, u: seq<real>)
    requires |s| >= 1 && SortedBy(u, Identity) && multiset(u) == multiset(s)
    ensures |u| == |s| && Median(s) == u[|u| / 2]
  {
    assert |u| == |multiset(u)| == |multiset(s)| == |s|;
    IdentityInjective();
    SortByCorrect(s, Identity);
    SortedUnique(SortBy(s, Identity), u, Identity);
  }

  /** Raising every value pointwise cannot lower the median. */
  lemma {:induction false} MedianMonotone(a: seq<real>, b: seq<real>)
    requires |a| == |b| >= 1 && forall i :: 0 <= i < |a| ==> a[i] <= b[i]
    ensures Median(a) <= Median(b)
  {
    var m := Median(b);
    var h := |a| / 2;
    MedianRank(b);
    CountBelowPointwise(a, b, m);
    var u := SortBy(a, Identity);
    SortByCorrect(a, Identity);
    CountCmpPermutation(u, a, m, true);
    SortedRank(u, h, m);
  }

  /** The point a fraction w of the way from a to b. */
  function Between(a: real, b: real, w: real): real
  {
    a + w * (b - a)
  }

  /** Blending larger ends with the same fraction gives a larger point. */
  lemma {:induction false} BetweenMonotone(a: real, b: real, a': real, b': real, w: real)
    requires a <= a' && b <= b' && 0.0 <= w <= 1.0
    ensures Between(a, b, w) <= Between(a', b', w)
  {
    var da, db := a' - a, b' - b;
    assert (1.0 - w) * da >= 0.0 && w * db >= 0.0;
    assert Between(a', b', w) - Between(a, b, w) == (1.0 - w) * da + w * db;
  }

  /** The two lists never put two entries in opposite order. */
  ghost predicate SameOrder(xs: seq<real>, ys: seq<real>)
  {
    && |xs| == |ys|
    && forall i, j :: 0 <= i < |xs| && 0 <= j < |xs| ==>
         (xs[i] <= xs[j] && ys[i] <= ys[j]) || (xs[j] <= xs[i] && ys[j] <= ys[i])
  }

  /** Pair an entry of one list with the entry of the other at the same index. */
  function Zip(xs: seq<real>, ys: seq<real>): (ps: seq<(real, real)>)
    requires |xs| == |ys|
    ensures |ps| == |xs| && forall k :: 0 <= k < |xs| ==> ps[k] == (xs[k], ys[k])
  {
    seq(|xs|, k requires 0 <= k < |xs| => (xs[k], ys[k]))
  }

  function PairSum(p: (real, real)): real
  {
    p.0 + p.1
  }

  /**
   * Entries that the two lists order the same way, sorted by the sum of their
   * two values, come out sorted by each value.
   */
  lemma {:induction false} SortedPairs(xs: seq<real>, ys: seq<real>)
    requires SameOrder(xs, ys)
    ensures multiset(SortBy(Zip(xs, ys), PairSum)) == multiset(Zip(xs, ys))
    ensures forall i, j :: 0 <= i < j < |xs| ==>
      SortBy(Zip(xs, ys), PairSum)[i].0 <= SortBy(Zip(xs, ys), PairSum)[j].0 &&
      SortBy(Zip(xs, ys), PairSum)[i].1 <= SortBy(Zip(xs, ys), PairSum)[j].1
  {
    var ps := Zip(xs, ys);
    var q := SortBy(ps, PairSum);
    SortByCorrect(ps, PairSum);
    forall i, j | 0 <= i < j < |xs| ensures q[i].0 <= q[j].0 && q[i].1 <= q[j].1 {
      assert q[i] in multiset(ps) && q[j] in multiset(ps);
      var a :| 0 <= a < |ps| && ps[a] == q[i];
      var b :| 0 <= b < |ps| && ps[b] == q[j];
      assert PairSum(q[i]) <= PairSum(q[j]);
    }
  }

  /**
   * When two lists order their entries the same way, the median of a pointwise
   * blend of them is the same blend of their medians.
   */
  lemma {:induction false} MedianBetween(xs: seq<real>, ys: seq<real>, zs: seq<real>, w: real)
    requires |xs| >= 1 && SameOrder(xs, ys) && 0.0 <= w <= 1.0
    requires |zs| == |xs| && forall k :: 0 <= k < |zs| ==> zs[k] == Between(xs[k], ys[k], w)
    ensures Median(zs) == Between(Median(xs), Median(ys), w)
  {
    var ps := Zip(xs, ys);
    var q := SortBy(ps, PairSum);
    SortedPairs(xs, ys);
    var first := (p: (real, real)) => p.0;
    var second := (p: (real, real)) => p.1;
    var blend := (p: (real, real)) => Between(p.0, p.1, w);
    assert Map(first, ps) == xs;
    assert Map(second, ps) == ys;
    assert Map(blend, ps) == zs;
    MapPermutation(first, q, ps);
    MapPermutation(second, q, ps);
    MapPermutation(blend, q, ps);
    var u, v, m := Map(first, q), Map(second, q), Map(blend, q);
    assert SortedBy(u, Identity);
    assert SortedBy(v, Identity);
    forall i, j | 0 <= i < j < |m| ensures Identity(m[i]) <= Identity(m[j]) {
      BetweenMonotone(q[i].0, q[i].1, q[j].0, q[j].1, w);
    }
    var h := |xs| / 2;
    MedianOfSorted(xs, u);
    MedianOfSorted(ys, v);
    MedianOfSorted(zs, m);
  }

  /** Blending two lists pointwise blends their sums. */
  lemma {:induction false} SumBetween(xs: seq<real>, ys: seq<real>, zs: seq<real>, w: real)
    requires |xs| == |ys| == |zs| && forall k :: 0 <= k < |zs| ==> zs[k] == Between(xs[k], ys[k], w)
    ensures Sum(zs) == Between(Sum(xs), Sum(ys), w)
  {
    if zs != [] {
      var n := |zs| - 1;
      SumBetween(xs[..n], ys[..n], zs[..n], w);
      var a, b := Sum(xs[..n]), Sum(ys[..n]);
      assert w * (b - a) + w * (ys[n] - xs[n]) == w * ((b + ys[n]) - (a + xs[n]));
    }
  }

  /** What compute_medians can work on: a first subject, and a non-empty list to take each median of. */
  ghost predicate MedianInput(subjects: seq<seq<real>>)
  {
    |subjects| >= 1 && forall s :: 0 <= s < |subjects| ==> |subjects[0]| >= 2 || |subjects[s]| >= 1
  }

  /** The phantom votes for this table: one fewer than the number of citizens. */
  function Phantoms(B: real, subjects: seq<seq<real>>, t: real): seq<real>
    requires |subjects| >= 1
  {
    AllF(|subjects[0]| - 1, t, B)
  }

  /** The median of phantom plus real votes, per subject. */
  function Medians(B: real, subjects: seq<seq<real>>, t: real): (r: seq<real>)
    requires MedianInput(subjects)
    ensures |r| == |subjects|
  {
    var dummy := Phantoms(B, subjects, t);
    seq(|subjects|, s requires 0 <= s < |subjects| => Median(dummy + subjects[s]))
  }

  /** Raising t never lowers a subject's median, so neither does it lower their total. */
  lemma {:induction false} MediansMonotone(B: real, subjects: seq<seq<real>>, t: real, u: real)
    requires MedianInput(subjects) && 0.0 <= B && 0.0 <= t <= u
    ensures forall s :: 0 <= s < |subjects| ==> Medians(B, subjects, t)[s] <= Medians(B, subjects, u)[s]
    ensures Sum(Medians(B, subjects, t)) <= Sum(Medians(B, subjects, u))
  {
    var lo, hi := Phantoms(B, subjects, t), Phantoms(B, subjects, u);
    AllFMonotone(|subjects[0]| - 1, t, u, B);
    forall s | 0 <= s < |subjects| ensures Medians(B, subjects, t)[s] <= Medians(B, subjects, u)[s] {
      var a, b := lo + subjects[s], hi + subjects[s];
      assert forall i :: 0 <= i < |a| ==> a[i] <= b[i] by {
        forall i | 0 <= i < |a| ensures a[i] <= b[i] {
          if i < |lo| {
            assert a[i] == lo[i] && b[i] == hi[i];
          } else {
            assert a[i] == b[i];
          }
        }
      }
      MedianMonotone(a, b);
    }
    SumMonotone(Medians(B, subjects, t), Medians(B, subjects, u));
  }

  /** The medians of every subject: each list is built fresh, so the votes are not touched. */
  method ComputeMedians(B: real, subjects: seq<seq<real>>, t: real) returns (res: seq<real>)
    requires MedianInput(subjects)
    ensures res == Medians(B, subjects, t)
  {
    var dummy := AllF(|subjects[0]| - 1, t, B);
    res := [];
    for s := 0 to |subjects|
      invariant res == Medians(B, subjects, t)[..s]
    {
      var temp := dummy + subjects[s];
      var sorted := SortBy(temp, Identity);
      res := res + [sorted[|temp| / 2]];
    }
  }

  /** Relative tolerance of math.isclose by default (its absolute tolerance is 0). */
  const RelTol: real := 0.000000001

  predicate IsClose(a: real, b: real)
  {
    a == b || Abs(a - b) <= RelTol * Max(Abs(a), Abs(b))
  }

  /** One step of the bisection on t. */
  datatype Step = Found(medians: seq<real>) | Narrowed(l: real, r: real)

  /** The medians' total is at most the budget at l and at least the budget at r. */
  ghost predicate Brackets(B: real, subjects: seq<seq<real>>, l: real, r: real)
    requires MedianInput(subjects)
  {
    Sum(Medians(B, subjects, l)) <= B <= Sum(Medians(B, subjects, r))
  }

  /**
   * Evaluate the midpoint: stop when its total is close to the budget,
   * otherwise keep the half on which the budget is still bracketed.
   */
  method BisectionStep(B: real, subjects: seq<seq<real>>, l: real, r: real) returns (step: Step)
    requires MedianInput(subjects)
    ensures step.Found? <==> IsClose(Sum(Medians(B, subjects, (l + r) / 2.0)), B)
    ensures step.Found? ==> step.medians == Medians(B, subjects, (l + r) / 2.0)
    ensures step.Narrowed? ==> step.r - step.l == (r - l) / 2.0
    ensures step.Narrowed? ==> (step.l == l && step.r == (l + r) / 2.0) || (step.l == (l + r) / 2.0 && step.r == r)
    ensures step.Narrowed? && Brackets(B, subjects, l, r) ==> Brackets(B, subjects, step.l, step.r)
  {
    var mid := (l + r) / 2.0;
    var medians := ComputeMedians(B, subjects, mid);
    var sum := Sum(medians);
    if IsClose(sum, B) {
      return Found(medians);
    } else if sum < B {
      return Narrowed(mid, r);
    } else {
      return Narrowed(l, mid);
    }
  }

  /** The documented ballots, one row per subject. */
  lemma {:induction false} DemoSubjects()
    ensures Transpose([[100.0, 0.0, 0.0], [0.0, 0.0, 100.0]]) == [[100.0, 0.0], [0.0, 0.0], [0.0, 100.0]]
  {
    var ballots := [[100.0, 0.0, 0.0], [0.0, 0.0, 100.0]];
    assert ballots[1..] == [[0.0, 0.0, 100.0]];
    var subjects := Transpose(ballots);
    assert subjects[0] == [100.0, 0.0] && subjects[1] == [0.0, 0.0] && subjects[2] == [0.0, 100.0];
  }

  /**
   * With the documented ballots there is a single phantom vote p. Whatever p
   * is within [0, 100], the first and last subjects take p as their median
   * and the middle subject takes 0.
   */
  lemma {:induction false} DemoRows(subjects: seq<seq<real>>, t: real, p: real)
    requires subjects == [[100.0, 0.0], [0.0, 0.0], [0.0, 100.0]]
    requires Phantoms(100.0, subjects, t) == [p] && 0.0 <= p <= 100.0
    ensures MedianInput(subjects)
    ensures Medians(100.0, subjects, t) == [p, 0.0, p]
  {
    var dummy := Phantoms(100.0, subjects, t);
    var m := Medians(100.0, subjects, t);
    assert dummy + subjects[0] == [p, 100.0, 0.0];
    assert dummy + subjects[1] == [p, 0.0, 0.0];
    assert dummy + subjects[2] == [p, 0.0, 100.0];
    DemoSpreadMedian(p, 100.0, 0.0);
    DemoZeroMedian(p);
    DemoSpreadMedian(p, 0.0, 100.0);
    ThreeEntries(m);
  }

  /** A subject with votes 100 and 0 takes the phantom vote as its median. */
  lemma {:induction false} DemoSpreadMedian(p: real, hi: real, lo: real)
    requires 0.0 <= p <= 100.0 && {hi, lo} == {0.0, 100.0}
    ensures Median([p, hi, lo]) == p
  {
    DemoMedian([p, hi, lo], [0.0, p, 100.0]);
  }

  /** A subject with two votes of 0 takes 0 as its median. */
  lemma {:induction false} DemoZeroMedian(p: real)
    requires 0.0 <= p
    ensures Median([p, 0.0, 0.0]) == 0.0
  {
    DemoMedian([p, 0.0, 0.0], [0.0, 0.0, p]);
  }

  /** At t = 1/2 the single phantom vote is 50, and the medians are 50, 0 and 50. */
  lemma {:induction false} DemoMedians(subjects: seq<seq<real>>)
    requires subjects == [[100.0, 0.0], [0.0, 0.0], [0.0, 100.0]]
    ensures MedianInput(subjects)
    ensures Medians(100.0, subjects, 0.5) == [50.0, 0.0, 50.0]
  {
    assert Phantoms(100.0, subjects, 0.5) == [50.0];
    DemoRows(subjects, 0.5, 50.0);
  }

  /** At t = 0 the phantom vote is 0 and every median is 0. */
  lemma {:induction false} DemoLowMedians(subjects: seq<seq<real>>)
    requires subjects == [[100.0, 0.0], [0.0, 0.0], [0.0, 100.0]]
    ensures MedianInput(subjects)
    ensures Medians(100.0, subjects, 0.0) == [0.0, 0.0, 0.0]
  {
    assert Phantoms(100.0, subjects, 0.0) == [0.0];
    DemoRows(subjects, 0.0, 0.0);
  }

  /** At t = 1 the phantom vote is 100 and the medians are 100, 0 and 100. */
  lemma {:induction false} DemoHighMedians(subjects: seq<seq<real>>)
    requires subjects == [[100.0, 0.0], [0.0, 0.0], [0.0, 100.0]]
    ensures MedianInput(subjects)
    ensures Medians(100.0, subjects, 1.0) == [100.0, 0.0, 100.0]
  {
    assert Phantoms(100.0, subjects, 1.0) == [100.0];
    DemoRows(subjects, 1.0, 100.0);
  }

  /** The median of three values, given them in sorted order. */
  lemma {:induction false} DemoMedian(s: seq<real>, u: seq<real>)
    requires |s| == 3 && |u| == 3 && u[0] <= u[1] <= u[2] && multiset(u) == multiset(s)
    ensures Median(s) == u[1]
  {
    MedianOfSorted(s, u);
  }

  lemma {:induction false} ThreeEntries(m: seq<real>)
    requires |m| == 3
    ensures m == [m[0], m[1], m[2]]
  {
  }

  /** 50 + 0 + 50 is the budget. */
  lemma {:induction false} DemoTotal(s: seq<real>)
    requires s == [50.0, 0.0, 50.0]
    ensures Sum(s) == 100.0
  {
    assert s[..2][..1][..0] == [];
    assert Sum(s[..2][..1]) == 50.0;
    assert Sum(s[..2]) == 50.0;
  }

  /**
   * The documented example: budget 100, two citizens voting [100, 0, 0] and
   * [0, 0, 100]. The first midpoint t = 1/2 already gives medians adding up to
   * the budget.
   */
  method DemoBisection() returns (step: Step)
    ensures step == Found([50.0, 0.0, 50.0])
  {
    var subjects := Transpose([[100.0, 0.0, 0.0], [0.0, 0.0, 100.0]]);
    DemoSubjects();
    DemoMedians(subjects);
    DemoTotal(Medians(100.0, subjects, 0.5));
    step := BisectionStep(100.0, subjects, 0.0, 1.0);
  }
}
