/**
 * The airport game: a runway of length max(cost) serves every plane, and each
 * player's cost is the runway length their own plane needs. The cost of a
 * coalition is the largest cost among its members.
 *
 * AirportEfficient is the closed-form Shapley value: sorted by cost, the i-th
 * cheapest player pays the i-th cheapest player's share of every runway segment
 * up to their own, each segment split evenly among the players who still need
 * it. ChargeByMax is one pass of the sampling estimate: players arrive in a
 * given order and each is charged what they add to the running maximum.
 *
 * A cost dictionary is modelled by the list of its keys in insertion order and
 * a map from keys to costs.
 */
module AirportGame {
  import opened Sums
  import opened Sorting
  import opened Ledger

  /** players lists every key of cost exactly once. */
  ghost predicate IsCostTable<P(!new)>(players: seq<P>, cost: map<P, real>)
  {
    Distinct(players) && forall p :: p in cost <==> p in players
  }

  /** Sorting key: the player's cost. */
  function CostKey<P(==, !new)>(cost: map<P, real>): P -> real
  {
    p => Get(cost, p)
  }

  /** The costs of the players ps, in the order of ps. */
  function CostsOf<P(==, !new)>(ps: seq<P>, cost: map<P, real>): (cs: seq<real>)
    ensures |cs| == |ps|
    ensures forall i :: 0 <= i < |ps| ==> cs[i] == Get(cost, ps[i])
  {
    seq(|ps|, i requires 0 <= i < |ps| => Get(cost, ps[i]))
  }

  /** The players in order of increasing cost, ties in insertion order. */
  function Ranked<P(==, !new)>(players: seq<P>, cost: map<P, real>): (r: seq<P>)
    ensures SortedBy(r, CostKey(cost)) && multiset(r) == multiset(players)
  {
    SortByCorrect(players, CostKey(cost));
    SortBy(players, CostKey(cost))
  }

  /**
   * The share of the (i+1)-th cheapest of n players, given the costs c in
   * increasing order: the cheapest pays c[0] / n, and each next player pays
   * the previous share plus the extra runway c[i] - c[i-1] split among the
   * n - i players who need it.
   */
  function Share(c: seq<real>, i: nat): real
    requires i < |c|
  {
    if i == 0 then c[0] / (|c| as real)
    else (c[i] - c[i - 1]) / ((|c| - i) as real) + Share(c, i - 1)
  }

  function Shares(c: seq<real>): (r: seq<real>)
    ensures |r| == |c|
  {
    seq(|c|, i requires 0 <= i < |c| => Share(c, i))
  }

  /**
   * After the m cheapest shares, the n - m remaining players each owing the
   * m-th share would exactly pay for the runway up to c[m-1].
   */
  lemma {:induction false} ShareBalance(c: seq<real>, m: nat)
    requires 1 <= m <= |c|
    ensures Sum(Shares(c)[..m]) + ((|c| - m) as real) * Share(c, m - 1) == c[m - 1]
  {
    if m == 1 {
      ShareBalanceFirst(c, m);
    } else {
      ShareBalance(c, m - 1);
      ShareBalanceStep(c, m - 1, m);
    }
  }

  /** ShareBalance for the cheapest player alone. */
  lemma {:induction false} ShareBalanceFirst(c: seq<real>, m: nat)
    requires m == 1 <= |c|
    ensures Sum(Shares(c)[..m]) + ((|c| - m) as real) * Share(c, m - 1) == c[m - 1]
  {
    assert Sum(Shares(c)[..1]) == Share(c, 0) by {
      SumPrefix(Shares(c), 0);
      assert Shares(c)[..0] == [];
    }
    var n := |c| as real;
    assert (c[0] / n) * n == c[0];
    assert c[0] / n + (n - 1.0) * (c[0] / n) == n * (c[0] / n);
  }

  /** ShareBalance for m players from ShareBalance for k = m - 1. */
  lemma {:induction false} ShareBalanceStep(c: seq<real>, k: nat, m: nat)
    requires 2 <= m <= |c| && k == m - 1
    requires Sum(Shares(c)[..k]) + ((|c| - k) as real) * Share(c, k - 1) == c[k - 1]
    ensures Sum(Shares(c)[..m]) + ((|c| - m) as real) * Share(c, m - 1) == c[m - 1]
  {
    assert Sum(Shares(c)[..m]) == Sum(Shares(c)[..k]) + Share(c, k) by {
      SumPrefix(Shares(c), k);
    }
    ShareArith(Sum(Shares(c)[..k]), Sum(Shares(c)[..m]), Share(c, k), Share(c, k - 1), (|c| - k) as real,
               (|c| - m) as real, c[k] - c[k - 1], c[k - 1], c[k]);
  }

  /**
   * The arithmetic of one step of ShareBalance: when the total so far plus w
   * players owing t pays for a, and the next share s adds d / w to t, then the
   * total with s plus w - 1 players owing s pays for a + d.
   */
  lemma {:induction false} ShareArith(total: real, x: real, s: real, t: real, w: real, v: real, d: real, a: real, b: real)
    requires w >= 1.0 && v == w - 1.0 && total + w * t == a && s == d / w + t && d == b - a && x == total + s
    ensures x + v * s == b
  {
    assert w * (d / w) == d;
    assert s + v * s == w * s;
    assert w * s == w * (d / w) + w * t;
  }

  /** Efficiency: the shares pay for the longest runway exactly. */
  lemma {:induction false} ShareEfficiency(c: seq<real>)
    requires |c| >= 1
    ensures Sum(Shares(c)) == c[|c| - 1]
  {
    ShareBalance(c, |c|);
    assert Shares(c)[..|c|] == Shares(c);
  }

  /** A player who needs more runway never pays less. */
  lemma {:induction false} SharesMonotone(c: seq<real>, i: nat, j: nat)
    requires SortedBy(c, Identity) && i <= j < |c|
    ensures Share(c, i) <= Share(c, j)
  {
    if i < j {
      SharesMonotone(c, i, j - 1);
      assert Identity(c[j - 1]) <= Identity(c[j]);
      var w := (|c| - j) as real;
      assert (c[j] - c[j - 1]) / w >= 0.0;
    }
  }

  /** Players who need the same runway pay the same. */
  lemma {:induction false} EqualCostsEqualShares(c: seq<real>, i: nat, j: nat)
    requires SortedBy(c, Identity) && i <= j < |c| && c[i] == c[j]
    ensures Share(c, i) == Share(c, j)
  {
    if i < j {
      assert Identity(c[i]) <= Identity(c[j - 1]) <= Identity(c[j]) by {
        if i < j - 1 {
          assert Identity(c[i]) <= Identity(c[j - 1]);
        }
      }
      EqualCostsEqualShares(c, i, j - 1);
    }
  }

  /** The costs along the ranked order are increasing. */
  lemma {:induction false} RankedCostsSorted<P(!new)>(players: seq<P>, cost: map<P, real>)
    ensures SortedBy(CostsOf(Ranked(players, cost), cost), Identity)
  {
    var ranked := Ranked(players, cost);
    var c := CostsOf(ranked, cost);
    forall i, j | 0 <= i < j < |c| ensures Identity(c[i]) <= Identity(c[j]) {
      assert CostKey(cost)(ranked[i]) <= CostKey(cost)(ranked[j]);
    }
  }

  /** Where a player ended up in a rearrangement. */
  lemma {:induction false} PositionIn<T>(s: seq<T>, t: seq<T>, x: T) returns (k: nat)
    requires multiset(s) == multiset(t) && x in s
    ensures k < |t| && t[k] == x
  {
    assert x in multiset(t);
    k :| 0 <= k < |t| && t[k] == x;
  }

  /**
   * What AirportEfficient returns: one entry per player, and the k-th player in
   * cost order gets the k-th share.
   */
  ghost predicate SharesAssigned<P(!new)>(players: seq<P>, cost: map<P, real>, res: map<P, real>)
  {
    var ranked := Ranked(players, cost);
    (forall p :: p in res <==> p in players) &&
    forall k :: 0 <= k < |ranked| ==> ranked[k] in res && res[ranked[k]] == Share(CostsOf(ranked, cost), k)
  }

  /** The closed-form Shapley value of the airport game. */
  method AirportEfficient<P(==, !new)>(players: seq<P>, cost: map<P, real>) returns (res: map<P, real>)
    requires |players| >= 1 && IsCostTable(players, cost)
    ensures SharesAssigned(players, cost, res)
  {
    var ranked := SortBy(players, CostKey(cost));
    SortByCorrect(players, CostKey(cost));
    PermutationKeepsDistinct(players, ranked);
    SameMembers(players, ranked);
    res := ShareOut(ranked, cost);
    ShareMapFilled(ranked, CostsOf(ranked, cost), |ranked|);
  }

  /**
   * The shares of the first i players in cost order, entered one after the
   * other into a dictionary.
   */
  function ShareMap<P(==, !new)>(ranked: seq<P>, c: seq<real>, i: nat): map<P, real>
    requires 1 <= i <= |ranked| == |c|
  {
    if i == 1 then map[ranked[0] := Share(c, 0)]
    else ShareMap(ranked, c, i - 1)[ranked[i - 1] := Share(c, i - 1)]
  }

  /** With distinct players, the dictionary holds the first i players and each one's own share. */
  lemma {:induction false} ShareMapFilled<P(!new)>(ranked: seq<P>, c: seq<real>, i: nat)
    requires 1 <= i <= |ranked| == |c| && Distinct(ranked)
    ensures forall p :: p in ShareMap(ranked, c, i) <==> p in ranked[..i]
    ensures forall k :: 0 <= k < i ==> ranked[k] in ShareMap(ranked, c, i) && ShareMap(ranked, c, i)[ranked[k]] == Share(c, k)
  {
    assert ranked[..i] == ranked[..i - 1] + [ranked[i - 1]];
    if i > 1 {
      ShareMapFilled(ranked, c, i - 1);
      assert ranked[i - 1] !in ranked[..i - 1];
    }
  }

  /** The loop of AirportEfficient, over the players already in cost order. */
  method ShareOut<P(==, !new)>(ranked: seq<P>, cost: map<P, real>) returns (res: map<P, real>)
    requires |ranked| >= 1 && Distinct(ranked) && forall k :: 0 <= k < |ranked| ==> ranked[k] in cost
    ensures res == ShareMap(ranked, CostsOf(ranked, cost), |ranked|)
  {
    var n := |ranked|;
    ghost var c := CostsOf(ranked, cost);
    res := map[ranked[0] := cost[ranked[0]] / (n as real)];
    for i := 1 to n
      invariant res == ShareMap(ranked, c, i)
    {
      var marginal := cost[ranked[i]] - cost[ranked[i - 1]];
      ShareStep(ranked, cost, i);
      res := res[ranked[i] := marginal / ((n - i) as real) + res[ranked[i - 1]]];
    }
  }

  /** The share of the next player is the marginal cost split among those left, on top of the last share entered. */
  lemma {:induction false} ShareStep<P(!new)>(ranked: seq<P>, cost: map<P, real>, i: nat)
    requires 1 <= i < |ranked| && forall k :: 0 <= k < |ranked| ==> ranked[k] in cost
    ensures var c := CostsOf(ranked, cost);
      Share(c, i) == (cost[ranked[i]] - cost[ranked[i - 1]]) / ((|ranked| - i) as real) + ShareMap(ranked, c, i)[ranked[i - 1]]
  {
    var c := CostsOf(ranked, cost);
    assert c[i] == cost[ranked[i]] && c[i - 1] == cost[ranked[i - 1]];
    assert ShareMap(ranked, c, i)[ranked[i - 1]] == Share(c, i - 1);
  }

  /** A rearrangement has the same members. */
  lemma {:induction false} SameMembers<T>(s: seq<T>, t: seq<T>)
    requires multiset(s) == multiset(t)
    ensures forall x :: x in s <==> x in t
  {
    forall x ensures x in s <==> x in t {
      assert x in s <==> x in multiset(s);
      assert x in t <==> x in multiset(t);
    }
  }

  /** The share each player receives, read off the ranked order. */
  lemma {:induction false} ShareOf<P(!new)>(players: seq<P>, cost: map<P, real>, res: map<P, real>, p: P) returns (k: nat)
    requires IsCostTable(players, cost) && SharesAssigned(players, cost, res) && p in players
    ensures k < |players| && Ranked(players, cost)[k] == p
    ensures p in res && res[p] == Share(CostsOf(Ranked(players, cost), cost), k)
    ensures CostsOf(Ranked(players, cost), cost)[k] == cost[p]
  {
    k := PositionIn(players, Ranked(players, cost), p);
  }

  /**
   * A player with a cost at most another's pays at most as much, and players
   * with equal costs pay equal shares.
   */
  lemma {:induction false} AirportOrdered<P(!new)>(players: seq<P>, cost: map<P, real>, res: map<P, real>, p: P, q: P)
    requires IsCostTable(players, cost) && SharesAssigned(players, cost, res)
    requires p in players && q in players && cost[p] <= cost[q]
    ensures res[p] <= res[q]
    ensures cost[p] == cost[q] ==> res[p] == res[q]
  {
    var c := CostsOf(Ranked(players, cost), cost);
    RankedCostsSorted(players, cost);
    var i := ShareOf(players, cost, res, p);
    var j := ShareOf(players, cost, res, q);
    if i <= j {
      SharesMonotone(c, i, j);
      if cost[p] == cost[q] {
        EqualCostsEqualShares(c, i, j);
      }
    } else {
      assert Identity(c[j]) <= Identity(c[i]);
      EqualCostsEqualShares(c, j, i);
    }
  }

  /** The cheapest players each pay their cost divided by the number of players. */
  lemma {:induction false} AirportCheapest<P(!new)>(players: seq<P>, cost: map<P, real>, res: map<P, real>, p: P)
    requires IsCostTable(players, cost) && SharesAssigned(players, cost, res)
    requires p in players && forall q :: q in players ==> cost[p] <= cost[q]
    ensures res[p] == cost[p] / (|players| as real)
  {
    var ranked := Ranked(players, cost);
    var c := CostsOf(ranked, cost);
    RankedCostsSorted(players, cost);
    var i := ShareOf(players, cost, res, p);
    assert ranked[0] in multiset(players);
    assert cost[p] <= c[0];
    if i > 0 {
      assert Identity(c[0]) <= Identity(c[i]);
    }
    EqualCostsEqualShares(c, 0, i);
  }

  /** Efficiency: the players' shares add up to the largest cost. */
  lemma {:induction false} AirportEfficiency<P(!new)>(players: seq<P>, cost: map<P, real>, res: map<P, real>)
    requires |players| >= 1 && IsCostTable(players, cost) && SharesAssigned(players, cost, res)
    ensures forall q :: q in players ==> cost[q] <= SumOver(players, res)
    ensures exists q :: q in players && cost[q] == SumOver(players, res)
  {
    var ranked := Ranked(players, cost);
    var c := CostsOf(ranked, cost);
    var n := |ranked|;
    SumOverPermutation(players, ranked, res);
    SumOverMatches(ranked, res, Shares(c));
    ShareEfficiency(c);
    RankedCostsSorted(players, cost);
    forall q | q in players ensures cost[q] <= SumOver(players, res) {
      var k := ShareOf(players, cost, res, q);
      if k < n - 1 {
        assert Identity(c[k]) <= Identity(c[n - 1]);
      }
    }
    assert ranked[n - 1] in multiset(players);
    assert ranked[n - 1] in players;
  }

  /**
   * The running cost when players arrive in turn with costs cs: it starts at 0
   * and each arrival raises it to the larger of itself and the newcomer's cost.
   */
  function MaxPath(cs: seq<real>): (r: seq<real>)
    ensures |r| == |cs| + 1 && r[0] == 0.0
    ensures forall k :: 0 <= k < |cs| ==> r[k + 1] == Max(r[k], cs[k])
  {
    if cs == [] then [0.0]
    else
      var n := |cs| - 1;
      var prev := MaxPath(cs[..n]);
      prev + [Max(prev[n], cs[n])]
  }

  /**
   * The marginal costs of an arrival order are never negative, and they add up
   * to the largest cost (or 0 when every cost is negative or there is no one).
   */
  lemma {:induction false} MaxMarginals(cs: seq<real>)
    ensures forall k :: 0 <= k < |cs| ==> Steps(MaxPath(cs))[k] >= 0.0
    ensures Sum(Steps(MaxPath(cs))) == MaxPath(cs)[|cs|]
    ensures MaxPath(cs)[|cs|] >= 0.0
    ensures forall k :: 0 <= k < |cs| ==> cs[k] <= MaxPath(cs)[|cs|]
    ensures MaxPath(cs)[|cs|] == 0.0 || exists k :: 0 <= k < |cs| && MaxPath(cs)[|cs|] == cs[k]
  {
    var r := MaxPath(cs);
    forall k | 0 <= k < |cs| ensures Steps(r)[k] >= 0.0 {
      assert Steps(r)[k] == r[k + 1] - r[k];
    }
    StepsSum(r);
    MaxPathTop(cs);
  }

  /** The last running cost is at least 0 and every cost, and it is 0 or one of the costs. */
  lemma {:induction false} MaxPathTop(cs: seq<real>)
    ensures MaxPath(cs)[|cs|] >= 0.0
    ensures forall k :: 0 <= k < |cs| ==> cs[k] <= MaxPath(cs)[|cs|]
    ensures MaxPath(cs)[|cs|] == 0.0 || exists k :: 0 <= k < |cs| && MaxPath(cs)[|cs|] == cs[k]
  {
    if cs != [] {
      var n := |cs| - 1;
      MaxPathTop(cs[..n]);
      var r := MaxPath(cs);
      assert MaxPath(cs[..n]) == r[..n + 1];
      forall k | 0 <= k < n ensures cs[k] <= r[n + 1] {
        assert cs[..n][k] == cs[k];
      }
      if r[n + 1] != 0.0 && r[n + 1] != cs[n] {
        var k :| 0 <= k < n && r[n] == cs[..n][k];
        assert r[n + 1] == cs[k];
      }
    }
  }

  /**
   * The total charged in one pass depends only on which costs occur, not on
   * the arrival order or on repetitions.
   */
  lemma {:induction false} MaxPathSameMembers(cs: seq<real>, ds: seq<real>)
    requires forall x :: x in cs <==> x in ds
    ensures MaxPath(cs)[|cs|] == MaxPath(ds)[|ds|]
  {
    MaxMarginals(cs);
    MaxMarginals(ds);
    var a := MaxPath(cs)[|cs|];
    var b := MaxPath(ds)[|ds|];
    assert a <= b by {
      if a != 0.0 {
        var k :| 0 <= k < |cs| && a == cs[k];
        assert cs[k] in ds;
      }
    }
    assert b <= a by {
      if b != 0.0 {
        var k :| 0 <= k < |ds| && b == ds[k];
        assert ds[k] in cs;
      }
    }
  }

  /** Lists of the same players have the same costs. */
  lemma {:induction false} CostsOfSameMembers<P(!new)>(ps: seq<P>, qs: seq<P>, cost: map<P, real>)
    requires forall p :: p in ps <==> p in qs
    ensures forall x :: x in CostsOf(ps, cost) <==> x in CostsOf(qs, cost)
  {
    forall x | x in CostsOf(ps, cost) ensures x in CostsOf(qs, cost) {
      var k :| 0 <= k < |ps| && CostsOf(ps, cost)[k] == x;
      assert ps[k] in qs;
      var j :| 0 <= j < |qs| && qs[j] == ps[k];
      assert CostsOf(qs, cost)[j] == x;
    }
    forall x | x in CostsOf(qs, cost) ensures x in CostsOf(ps, cost) {
      var k :| 0 <= k < |qs| && CostsOf(qs, cost)[k] == x;
      assert qs[k] in ps;
      var j :| 0 <= j < |ps| && ps[j] == qs[k];
      assert CostsOf(ps, cost)[j] == x;
    }
  }

  /**
   * One pass of the sampling estimate in the airport game: players arrive in
   * the given order and each is credited with the amount they raise the
   * running maximum by.
   */
  method ChargeByMax<P(==, !new)>(order: seq<P>, cost: map<P, real>, acc: map<P, real>) returns (after: map<P, real>)
    requires forall p :: p in order ==> p in cost && p in acc
    ensures after == Credit(acc, order, Steps(MaxPath(CostsOf(order, cost))))
  {
    ghost var path := MaxPath(CostsOf(order, cost));
    ghost var d := Steps(path);
    var curr := 0.0;
    after := acc;
    for i := 0 to |order|
      invariant curr == path[i]
      invariant after == Credit(acc, order[..i], d[..i])
    {
      var newCost := Max(curr, cost[order[i]]);
      var marginal := newCost - curr;
      CreditKeys(acc, order[..i], d[..i]);
      assert order[..i + 1][..i] == order[..i] && d[..i + 1][..i] == d[..i];
      after := after[order[i] := after[order[i]] + marginal];
      curr := newCost;
    }
    assert order[..|order|] == order && d[..|order|] == d;
  }
}
