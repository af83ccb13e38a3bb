/**
 * Heaviest paths in a weighted directed graph without self-loops, the part of
 * the room pricer that the original hands to a Bellman-Ford routine (run on the
 * negated weights). A graph is a map from edges (u, v) to weights.
 *
 * Grants(g, n, k)[i] is the heaviest total weight of a walk that starts at i and
 * uses at most k edges (the walk that stays at i weighs 0). With n vertices and
 * no cycle of positive weight, k = n - 1 gives the heaviest path from i to any
 * vertex, which is the "grant" of player i.
 */
module EnvyPaths {
  import opened Sums
  import opened Sorting

  type Graph = map<(nat, nat), real>

  /** g has exactly the edges between distinct vertices below n. */
  ghost predicate Complete(g: Graph, n: nat)
  {
    forall e: (nat, nat) :: e in g <==> e.0 < n && e.1 < n && e.0 != e.1
  }

  /** max(0, the heaviest g[(i, j)] + prev[j] over j < m, j != i): one vertex of one relaxation round. */
  function Relax(g: Graph, n: nat, prev: seq<real>, i: nat, m: nat): real
    requires Complete(g, n) && |prev| == n && i < n && m <= n
  {
    if m == 0 then 0.0
    else if m - 1 == i then Relax(g, n, prev, i, m - 1)
    else Max(Relax(g, n, prev, i, m - 1), g[(i, m - 1)] + prev[m - 1])
  }

  /** One relaxation round over all vertices. */
  function Round(g: Graph, n: nat, prev: seq<real>): (r: seq<real>)
    requires Complete(g, n) && |prev| == n
    ensures |r| == n
  {
    seq(n, i requires 0 <= i < n => Relax(g, n, prev, i, n))
  }

  /** Heaviest weight of a walk from each vertex using at most k edges. */
  function Grants(g: Graph, n: nat, k: nat): (r: seq<real>)
    requires Complete(g, n)
    ensures |r| == n
    ensures forall i :: 0 <= i < n ==> 0.0 <= r[i]
  {
    if k == 0 then seq(n, _ => 0.0)
    else
      var prev := Grants(g, n, k - 1);
      var r := Round(g, n, prev);
      assert forall i :: 0 <= i < n ==> 0.0 <= r[i] by {
        forall i | 0 <= i < n ensures 0.0 <= r[i] {
          RelaxBounds(g, n, prev, i, n);
        }
      }
      r
  }

  /** Relax is at least 0 and at least every candidate it considers. */
  lemma {:induction false} RelaxBounds(g: Graph, n: nat, prev: seq<real>, i: nat, m: nat)
    requires Complete(g, n) && |prev| == n && i < n && m <= n
    ensures 0.0 <= Relax(g, n, prev, i, m)
    ensures forall j :: 0 <= j < m && j != i ==> g[(i, j)] + prev[j] <= Relax(g, n, prev, i, m)
  {
    if m > 0 {
      RelaxBounds(g, n, prev, i, m - 1);
    }
  }

  /** Relax is attained: it is 0, or the candidate of some j. */
  lemma {:induction false} RelaxAttained(g: Graph, n: nat, prev: seq<real>, i: nat, m: nat)
    returns (found: bool, j: nat)
    requires Complete(g, n) && |prev| == n && i < n && m <= n
    ensures !found ==> Relax(g, n, prev, i, m) == 0.0
    ensures found ==> j < m && j != i && Relax(g, n, prev, i, m) == g[(i, j)] + prev[j]
  {
    if m == 0 {
      found, j := false, 0;
    } else {
      found, j := RelaxAttained(g, n, prev, i, m - 1);
      if m - 1 != i && g[(i, m - 1)] + prev[m - 1] > Relax(g, n, prev, i, m - 1) {
        found, j := true, m - 1;
      }
    }
  }

  // ---------------------------------------------------------------------------
  // Walks

  /** w is a walk along edges of g (a single vertex is a walk of no edges). */
  ghost predicate IsWalk(g: Graph, w: seq<nat>)
  {
    |w| >= 1 && forall t :: 0 <= t < |w| - 1 ==> (w[t], w[t + 1]) in g
  }

  /** Total weight of the edges of a walk. */
  ghost function Weight(g: Graph, w: seq<nat>): real
    requires IsWalk(g, w)
  {
    if |w| == 1 then 0.0 else g[(w[0], w[1])] + Weight(g, w[1..])
  }

  /** A simple cycle: a closed walk that visits no vertex twice before returning. */
  ghost predicate IsSimpleCycle(g: Graph, c: seq<nat>)
  {
    |c| >= 2 && IsWalk(g, c) && c[0] == c[|c| - 1] && Distinct(c[..|c| - 1])
  }

  /** No simple cycle has positive total weight (the heaviest paths are then bounded). */
  ghost predicate NoPositiveCycle(g: Graph)
  {
    forall c :: IsSimpleCycle(g, c) ==> Weight(g, c) <= 0.0
  }

  /** Splitting a walk at a vertex splits its weight. */
  lemma {:induction false} WeightSplit(g: Graph, w: seq<nat>, m: nat)
    requires IsWalk(g, w) && m < |w|
    ensures IsWalk(g, w[..m + 1]) && IsWalk(g, w[m..])
    ensures Weight(g, w) == Weight(g, w[..m + 1]) + Weight(g, w[m..])
  {
    assert IsWalk(g, w[..m + 1]) && IsWalk(g, w[m..]) by {
      forall t | 0 <= t < |w[m..]| - 1 ensures (w[m..][t], w[m..][t + 1]) in g {
        assert (w[m + t], w[m + t + 1]) in g;
      }
    }
    if m > 0 {
      var w' := w[1..];
      assert IsWalk(g, w') by {
        forall t | 0 <= t < |w'| - 1 ensures (w'[t], w'[t + 1]) in g {
          assert (w[t + 1], w[t + 2]) in g;
        }
      }
      WeightSplit(g, w', m - 1);
      assert w'[..m] == w[..m + 1][1..];
      assert w'[m - 1..] == w[m..];
    } else {
      assert w[0..] == w;
    }
  }

  /** Joining a walk that ends at x to a walk that starts at x adds the weights. */
  lemma {:induction false} WeightJoin(g: Graph, u: seq<nat>, z: seq<nat>)
    requires IsWalk(g, u) && IsWalk(g, z) && u[|u| - 1] == z[0]
    ensures IsWalk(g, u[..|u| - 1] + z)
    ensures Weight(g, u[..|u| - 1] + z) == Weight(g, u) + Weight(g, z)
  {
    var j := u[..|u| - 1] + z;
    assert IsWalk(g, j) by {
      forall t | 0 <= t < |j| - 1 ensures (j[t], j[t + 1]) in g {
        if t + 1 < |u| - 1 {
          assert j[t] == u[t] && j[t + 1] == u[t + 1];
        } else if t + 1 == |u| - 1 {
          assert j[t] == u[t] && j[t + 1] == z[0] == u[t + 1];
        } else {
          assert j[t] == z[t - |u| + 1] && j[t + 1] == z[t - |u| + 2];
        }
      }
    }
    WeightSplit(g, j, |u| - 1);
    assert j[..|u|] == u;
    assert j[|u| - 1..] == z;
  }

  // ---------------------------------------------------------------------------
  // Grants are the heaviest walk weights

  /** No walk from i of at most k edges is heavier than Grants(g, n, k)[i]. */
  lemma {:induction false} WalkBelowGrant(g: Graph, n: nat, k: nat, w: seq<nat>)
    requires Complete(g, n) && IsWalk(g, w) && w[0] < n && |w| <= k + 1
    ensures Weight(g, w) <= Grants(g, n, k)[w[0]]
  {
    if |w| > 1 {
      var i, j := w[0], w[1];
      var w' := w[1..];
      assert IsWalk(g, w') by {
        forall t | 0 <= t < |w'| - 1 ensures (w'[t], w'[t + 1]) in g {
          assert (w[t + 1], w[t + 2]) in g;
        }
      }
      assert (i, j) in g;
      WalkBelowGrant(g, n, k - 1, w');
      RelaxBounds(g, n, Grants(g, n, k - 1), i, n);
    }
  }

  /** Some walk from i of at most k edges weighs exactly Grants(g, n, k)[i]. */
  lemma {:induction false} GrantAttained(g: Graph, n: nat, k: nat, i: nat) returns (w: seq<nat>)
    requires Complete(g, n) && i < n
    ensures IsWalk(g, w) && w[0] == i && |w| <= k + 1
    ensures forall t :: 0 <= t < |w| ==> w[t] < n
    ensures Weight(g, w) == Grants(g, n, k)[i]
  {
    if k == 0 {
      w := [i];
    } else {
      var prev := Grants(g, n, k - 1);
      var found, j := RelaxAttained(g, n, prev, i, n);
      if !found {
        w := [i];
      } else {
        var rest := GrantAttained(g, n, k - 1, j);
        w := [i] + rest;
        assert w[1..] == rest;
        assert IsWalk(g, w) by {
          forall t | 0 <= t < |w| - 1 ensures (w[t], w[t + 1]) in g {
            if t > 0 {
              assert w[t] == rest[t - 1] && w[t + 1] == rest[t];
            }
          }
        }
      }
    }
  }

  /**
   * Grants(g, n, k)[i] is the weight of the heaviest walk from i with at most k
   * edges: some such walk attains it and none exceeds it.
   */
  lemma {:induction false} GrantIsHeaviestWalk(g: Graph, n: nat, k: nat, i: nat) returns (w: seq<nat>)
    requires Complete(g, n) && i < n
    ensures IsWalk(g, w) && w[0] == i && |w| <= k + 1
    ensures Weight(g, w) == Grants(g, n, k)[i]
    ensures forall u :: IsWalk(g, u) && u[0] == i && |u| <= k + 1 ==> Weight(g, u) <= Weight(g, w)
  {
    w := GrantAttained(g, n, k, i);
    forall u | IsWalk(g, u) && u[0] == i && |u| <= k + 1 ensures Weight(g, u) <= Grants(g, n, k)[i] {
      WalkBelowGrant(g, n, k, u);
    }
  }

  /** Allowing more edges never lowers a grant. */
  lemma {:induction false} GrantsMonotone(g: Graph, n: nat, k: nat, i: nat)
    requires Complete(g, n) && i < n
    ensures Grants(g, n, k)[i] <= Grants(g, n, k + 1)[i]
  {
    var w := GrantAttained(g, n, k, i);
    WalkBelowGrant(g, n, k + 1, w);
  }

  // ---------------------------------------------------------------------------
  // Bounded grants and positive cycles

  /** One more relaxation round after n - 1 improves nothing. */
  ghost predicate Stable(g: Graph, n: nat)
    requires Complete(g, n) && n >= 1
  {
    forall i :: 0 <= i < n ==> Grants(g, n, n)[i] <= Grants(g, n, n - 1)[i]
  }

  /**
   * With stable grants every edge is covered: the grant of i is at least the
   * edge to j plus the grant of j.
   */
  lemma {:induction false} StableCovers(g: Graph, n: nat, i: nat, j: nat)
    requires Complete(g, n) && n >= 1 && Stable(g, n)
    requires i < n && j < n && i != j
    ensures Grants(g, n, n - 1)[i] >= g[(i, j)] + Grants(g, n, n - 1)[j]
  {
    var prev := Grants(g, n, n - 1);
    assert Grants(g, n, n) == Round(g, n, prev);
    assert Grants(g, n, n)[i] <= prev[i];
    RelaxBounds(g, n, prev, i, n);
  }

  /** Under stable grants a walk weighs at most the drop in grant from its start to its end. */
  lemma {:induction false} WalkBelowGrantDrop(g: Graph, n: nat, w: seq<nat>)
    requires Complete(g, n) && n >= 1 && Stable(g, n) && IsWalk(g, w)
    requires forall t :: 0 <= t < |w| ==> w[t] < n
    ensures Weight(g, w) <= Grants(g, n, n - 1)[w[0]] - Grants(g, n, n - 1)[w[|w| - 1]]
  {
    if |w| > 1 {
      var w' := w[1..];
      assert IsWalk(g, w') by {
        forall t | 0 <= t < |w'| - 1 ensures (w'[t], w'[t + 1]) in g {
          assert (w[t + 1], w[t + 2]) in g;
        }
      }
      WalkBelowGrantDrop(g, n, w');
      assert (w[0], w[1]) in g;
      StableCovers(g, n, w[0], w[1]);
    }
  }

  /** Stable grants rule out positive cycles. */
  lemma {:induction false} StableNoPositiveCycle(g: Graph, n: nat)
    requires Complete(g, n) && n >= 1 && Stable(g, n)
    ensures NoPositiveCycle(g)
  {
    forall c | IsSimpleCycle(g, c) ensures Weight(g, c) <= 0.0 {
      forall t | 0 <= t < |c| ensures c[t] < n {
        if t < |c| - 1 {
          assert (c[t], c[t + 1]) in g;
        } else {
          assert (c[t - 1], c[t]) in g;
        }
      }
      WalkBelowGrantDrop(g, n, c);
    }
  }

  /** A sequence with a repeated element has a first repetition: a < b, s[a] == s[b], s[..b] distinct. */
  lemma {:induction false} FirstRepeat(s: seq<nat>) returns (a: nat, b: nat)
    requires !Distinct(s)
    ensures a < b < |s| && s[a] == s[b] && Distinct(s[..b])
  {
    var p := s[..|s| - 1];
    if !Distinct(p) {
      a, b := FirstRepeat(p);
      assert p[..b] == s[..b];
    } else {
      var x, y :| 0 <= x < y < |s| && s[x] == s[y];
      if y < |s| - 1 {
        assert false;
      }
      a, b := x, y;
      assert s[..b] == p;
    }
  }

  /** A distinct sequence of vertices below n has at most n entries. */
  lemma {:induction false} DistinctBounded(s: seq<nat>, n: nat)
    requires Distinct(s)
    requires forall t :: 0 <= t < |s| ==> s[t] < n
    ensures |s| <= n
    decreases |s|
  {
    if s != [] {
      // drop the last vertex x and close the gap it leaves among the values
      var x := s[|s| - 1];
      var p := s[..|s| - 1];
      var s' := seq(|p|, t requires 0 <= t < |p| => if p[t] > x then p[t] - 1 else p[t]);
      assert forall t :: 0 <= t < |p| ==> p[t] != x;
      DistinctBounded(s', n - 1);
    }
  }

  /** Cutting the closed stretch w[a..b+1] out of a walk removes exactly its weight. */
  lemma {:induction false} CutCycle(g: Graph, w: seq<nat>, a: nat, b: nat)
    requires IsWalk(g, w) && a < b < |w| && w[a] == w[b]
    ensures IsWalk(g, w[a..b + 1]) && IsWalk(g, w[..a] + w[b..])
    ensures Weight(g, w) == Weight(g, w[..a] + w[b..]) + Weight(g, w[a..b + 1])
  {
    SliceFacts(w, a, b);
    WeightSplit(g, w, a);
    WeightSplit(g, w[a..], b - a);
    WeightJoin(g, w[..a + 1], w[b..]);
  }

  /** The slices CutCycle takes apart and puts together again. */
  lemma {:induction false} SliceFacts(w: seq<nat>, a: nat, b: nat)
    requires a < b < |w|
    ensures w[a..][..b - a + 1] == w[a..b + 1] && w[a..][b - a..] == w[b..]
    ensures w[..a + 1][..a] == w[..a] && w[..a + 1][a] == w[a]
  {
  }

  /**
   * Without positive cycles, a walk of n edges is no heavier than some walk of
   * fewer edges from the same vertex: cutting out its first repeated stretch
   * removes a simple cycle of weight at most 0.
   */
  lemma {:induction false} ShortenWalk(g: Graph, n: nat, w: seq<nat>) returns (w': seq<nat>)
    requires Complete(g, n) && NoPositiveCycle(g) && IsWalk(g, w)
    requires forall t :: 0 <= t < |w| ==> w[t] < n
    requires |w| == n + 1
    ensures IsWalk(g, w') && w'[0] == w[0] && |w'| <= n
    ensures Weight(g, w) <= Weight(g, w')
  {
    if Distinct(w) {
      DistinctBounded(w, n);
      assert false;
    }
    var a, b := FirstRepeat(w);
    CutCycle(g, w, a, b);
    CutIsSimpleCycle(g, w, a, b);
    w' := w[..a] + w[b..];
    if a == 0 {
      assert w' == w[b..];
    }
  }

  /** The stretch between the first repeat and the vertex it repeats is a simple cycle. */
  lemma {:induction false} CutIsSimpleCycle(g: Graph, w: seq<nat>, a: nat, b: nat)
    requires a < b < |w| && w[a] == w[b] && Distinct(w[..b]) && IsWalk(g, w[a..b + 1])
    ensures IsSimpleCycle(g, w[a..b + 1])
  {
    var c := w[a..b + 1];
    assert c[..|c| - 1] == w[..b][a..];
  }

  /** Without positive cycles one more round improves nothing. */
  lemma {:induction false} NoPositiveCycleStable(g: Graph, n: nat)
    requires Complete(g, n) && n >= 1 && NoPositiveCycle(g)
    ensures Stable(g, n)
  {
    forall i | 0 <= i < n ensures Grants(g, n, n)[i] <= Grants(g, n, n - 1)[i] {
      var w := GrantAttained(g, n, n, i);
      if |w| <= n {
        WalkBelowGrant(g, n, n - 1, w);
      } else {
        var w' := ShortenWalk(g, n, w);
        WalkBelowGrant(g, n, n - 1, w');
      }
    }
  }

  /** The detection round succeeds exactly when no simple cycle has positive weight. */
  lemma {:induction false} StableIffNoPositiveCycle(g: Graph, n: nat)
    requires Complete(g, n) && n >= 1
    ensures Stable(g, n) <==> NoPositiveCycle(g)
  {
    if Stable(g, n) {
      StableNoPositiveCycle(g, n);
    }
    if NoPositiveCycle(g) {
      NoPositiveCycleStable(g, n);
    }
  }
}
