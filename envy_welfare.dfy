/**
 * Why the heaviest envy paths exist for the allocation the room pricer is given:
 * the allocation is meant to maximise total value (a maximum-weight matching),
 * and then no envy cycle can have positive weight, since passing rooms one step
 * along such a cycle would raise the total value by exactly the cycle's weight.
 */
module EnvyWelfare {
  import opened Sums
  import opened Sorting
  import opened EnvyPaths
  import opened EnvyPricing

  /** Every entry of y names a room below n. */
  ghost predicate RoomsInRange(y: seq<nat>, n: nat)
  {
    |y| == n && forall i :: 0 <= i < n ==> y[i] < n
  }

  /** Total value the players get from the rooms y assigns them. */
  ghost function Welfare(v: seq<seq<real>>, y: seq<nat>): real
    requires Square(v) && RoomsInRange(y, |v|)
  {
    Sum(seq(|v|, i requires 0 <= i < |v| => v[i][y[i]]))
  }

  /** No allocation of the rooms has a larger total value than x. */
  ghost predicate MaxWelfare(v: seq<seq<real>>, x: seq<nat>)
    requires WellFormed(v, x)
  {
    forall y :: IsAllocation(y, |v|) ==> Welfare(v, y) <= Welfare(v, x)
  }

  /** Giving player k room r changes the total value by v[k][r] - v[k][y[k]]. */
  lemma {:induction false} WelfareUpdate(v: seq<seq<real>>, y: seq<nat>, k: nat, r: nat)
    requires Square(v) && RoomsInRange(y, |v|) && k < |v| && r < |v|
    ensures RoomsInRange(y[k := r], |v|)
    ensures Welfare(v, y[k := r]) == Welfare(v, y) - v[k][y[k]] + v[k][r]
  {
    var n := |v|;
    var before := seq(n, i requires 0 <= i < n => v[i][y[i]]);
    var after := seq(n, i requires 0 <= i < n => v[i][y[k := r][i]]);
    assert after == before[k := v[k][r]];
    SumUpdate(before, k, v[k][r]);
  }

  /**
   * Pass rooms along the cycle from position t on: player c[s] gets the room of
   * c[s + 1], for t <= s < |c| - 1; everybody else keeps their room.
   */
  ghost function Rotate(x: seq<nat>, c: seq<nat>, t: nat): (y: seq<nat>)
    requires |c| >= 1 && t <= |c| - 1
    requires forall s :: 0 <= s < |c| ==> c[s] < |x|
    ensures |y| == |x|
    decreases |c| - t
  {
    if t == |c| - 1 then x else Rotate(x, c, t + 1)[c[t] := x[c[t + 1]]]
  }

  /** What Rotate gives each player, when the cycle's first |c| - 1 vertices are distinct. */
  lemma {:induction false} RotateAt(x: seq<nat>, c: seq<nat>, t: nat)
    requires |c| >= 1 && t <= |c| - 1 && Distinct(c[..|c| - 1])
    requires forall s :: 0 <= s < |c| ==> c[s] < |x|
    ensures |Rotate(x, c, t)| == |x|
    ensures forall s :: t <= s < |c| - 1 ==> Rotate(x, c, t)[c[s]] == x[c[s + 1]]
    ensures forall i :: 0 <= i < |x| && (forall s :: t <= s < |c| - 1 ==> c[s] != i) ==> Rotate(x, c, t)[i] == x[i]
    decreases |c| - t
  {
    if t < |c| - 1 {
      RotateAt(x, c, t + 1);
      forall s | t < s < |c| - 1 ensures c[t] != c[s] {
        assert c[..|c| - 1][t] == c[t] && c[..|c| - 1][s] == c[s];
      }
    }
  }

  /** Rotating along a simple cycle turns an allocation into an allocation. */
  lemma {:induction false} RotateIsAllocation(v: seq<seq<real>>, x: seq<nat>, g: Graph, c: seq<nat>)
    requires WellFormed(v, x) && IsEnvyGraph(g, v, x) && IsSimpleCycle(g, c)
    ensures forall s :: 0 <= s < |c| ==> c[s] < |v|
    ensures IsAllocation(Rotate(x, c, 0), |v|)
  {
    CycleInRange(v, x, g, c);
    RotateInRange(x, c);
    RotateDistinct(x, c);
  }

  /** The vertices of a cycle of the envy graph are players. */
  lemma {:induction false} CycleInRange(v: seq<seq<real>>, x: seq<nat>, g: Graph, c: seq<nat>)
    requires WellFormed(v, x) && IsEnvyGraph(g, v, x) && IsSimpleCycle(g, c)
    ensures forall s :: 0 <= s < |c| ==> c[s] < |v|
  {
    forall s | 0 <= s < |c| ensures c[s] < |v| {
      if s < |c| - 1 {
        assert (c[s], c[s + 1]) in g;
      } else {
        assert (c[s - 1], c[s]) in g;
      }
    }
  }

  /** After the rotation every player again holds one of the rooms. */
  lemma {:induction false} RotateInRange(x: seq<nat>, c: seq<nat>)
    requires IsAllocation(x, |x|) && |c| >= 2 && c[0] == c[|c| - 1] && Distinct(c[..|c| - 1])
    requires forall s :: 0 <= s < |c| ==> c[s] < |x|
    ensures forall i :: 0 <= i < |x| ==> Rotate(x, c, 0)[i] < |x|
  {
    RotateAt(x, c, 0);
    var y := Rotate(x, c, 0);
    forall i | 0 <= i < |x| ensures y[i] < |x| {
      if s :| 0 <= s < |c| - 1 && c[s] == i {
        assert y[i] == x[c[s + 1]];
      } else {
        assert y[i] == x[i];
      }
    }
  }

  /** After the rotation no two players hold the same room. */
  lemma {:induction false} RotateDistinct(x: seq<nat>, c: seq<nat>)
    requires IsAllocation(x, |x|) && |c| >= 2 && c[0] == c[|c| - 1] && Distinct(c[..|c| - 1])
    requires forall s :: 0 <= s < |c| ==> c[s] < |x|
    ensures forall i, j :: 0 <= i < j < |x| ==> Rotate(x, c, 0)[i] != Rotate(x, c, 0)[j]
  {
    RotateAt(x, c, 0);
    var y := Rotate(x, c, 0);
    var L := |c| - 1;
    forall i, j | 0 <= i < j < |x| ensures y[i] != y[j] {
      if s :| 0 <= s < L && c[s] == i {
        if u :| 0 <= u < L && c[u] == j {
          NextDistinct(c, s, u);
        } else {
          OnCycleNext(c, s);
        }
      } else if u :| 0 <= u < L && c[u] == j {
        OnCycleNext(c, u);
      }
    }
  }

  /** The vertex after position s of a closed walk is again one of its first |c| - 1 vertices. */
  lemma {:induction false} OnCycleNext(c: seq<nat>, s: nat)
    requires |c| >= 2 && c[0] == c[|c| - 1] && s < |c| - 1
    ensures exists u :: 0 <= u < |c| - 1 && c[u] == c[s + 1]
  {
    if s + 1 == |c| - 1 {
      assert c[0] == c[s + 1];
    } else {
      assert c[s + 1] == c[s + 1];
    }
  }

  /** Different positions of a simple cycle have different successors. */
  lemma {:induction false} NextDistinct(c: seq<nat>, s: nat, u: nat)
    requires |c| >= 2 && c[0] == c[|c| - 1] && Distinct(c[..|c| - 1])
    requires s < |c| - 1 && u < |c| - 1 && s != u
    ensures c[s + 1] != c[u + 1]
  {
    var L := |c| - 1;
    var p := c[..L];
    if s + 1 < L && u + 1 < L {
      assert p[s + 1] != p[u + 1];
    } else if s + 1 == L {
      assert p[0] != p[u + 1];
    } else {
      assert p[0] != p[s + 1];
    }
  }

  /**
   * Rotating the rooms along the cycle from position t on raises the total value
   * by the weight of the cycle from position t on.
   */
  lemma {:induction false} RotateWelfare(v: seq<seq<real>>, x: seq<nat>, g: Graph, c: seq<nat>, t: nat)
    requires WellFormed(v, x) && IsEnvyGraph(g, v, x) && IsSimpleCycle(g, c)
    requires forall s :: 0 <= s < |c| ==> c[s] < |v|
    requires t <= |c| - 1
    ensures IsWalk(g, c[t..])
    ensures RoomsInRange(Rotate(x, c, t), |v|)
    ensures Welfare(v, Rotate(x, c, t)) == Welfare(v, x) + Weight(g, c[t..])
    decreases |c| - t
  {
    var n := |v|;
    assert IsWalk(g, c[t..]) by {
      forall s | 0 <= s < |c[t..]| - 1 ensures (c[t..][s], c[t..][s + 1]) in g {
        assert (c[t + s], c[t + s + 1]) in g;
      }
    }
    RotateAt(x, c, t);
    if t < |c| - 1 {
      RotateWelfare(v, x, g, c, t + 1);
      var y := Rotate(x, c, t + 1);
      forall s | t + 1 <= s < |c| - 1 ensures c[s] != c[t] {
        assert c[..|c| - 1][t] == c[t] && c[..|c| - 1][s] == c[s];
      }
      RotateAt(x, c, t + 1);
      assert y[c[t]] == x[c[t]];
      WelfareUpdate(v, y, c[t], x[c[t + 1]]);
      assert c[t..][1..] == c[t + 1..];
      assert (c[t], c[t + 1]) in g;
      assert g[(c[t], c[t + 1])] == Envy(v, x, c[t], c[t + 1]);
    }
  }

  /**
   * If the allocation maximises total value, no envy cycle has positive weight,
   * so the heaviest envy paths of the pricer exist.
   */
  lemma {:induction false} MaxWelfareNoPositiveCycle(g: Graph, v: seq<seq<real>>, x: seq<nat>)
    requires WellFormed(v, x) && IsEnvyGraph(g, v, x) && MaxWelfare(v, x)
    ensures NoPositiveCycle(g)
  {
    forall c | IsSimpleCycle(g, c) ensures Weight(g, c) <= 0.0 {
      RotateIsAllocation(v, x, g, c);
      RotateWelfare(v, x, g, c, 0);
      assert c[0..] == c;
    }
  }
}
