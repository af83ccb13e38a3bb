/**
 * Per-player ledgers kept by the Shapley routines: a dictionary from players to
 * amounts that is credited one player at a time (`acc[p] += marginal`, or
 * `res[p] = res.get(p, 0) + marginal`), summed over the players and finally
 * divided by the number of permutations.
 */
module Ledger {
  import opened Sums
  import opened Sorting

  /** The amount recorded for p, 0 when p has no entry yet. */
  function Get<P(==, !new)>(m: map<P, real>, p: P): real
  {
    if p in m then m[p] else 0.0
  }

  /** Credit d[k] to order[k], for k = 0, 1, ... in turn. */
  function Credit<P(==, !new)>(acc: map<P, real>, order: seq<P>, d: seq<real>): (r: map<P, real>)
    requires |order| == |d|
    ensures |order| >= 1 ==> order[|order| - 1] in r
  {
    if order == [] then acc
    else
      var n := |order| - 1;
      var prev := Credit(acc, order[..n], d[..n]);
      prev[order[n] := Get(prev, order[n]) + d[n]]
  }

  /** The credited ledger has an entry for exactly the players that had one or were credited. */
  lemma {:induction false} CreditKeys<P(!new)>(acc: map<P, real>, order: seq<P>, d: seq<real>)
    requires |order| == |d|
    ensures forall p :: p in Credit(acc, order, d) <==> p in acc || p in order
  {
    if order != [] {
      var n := |order| - 1;
      CreditKeys(acc, order[..n], d[..n]);
      assert order == order[..n] + [order[n]];
    }
  }

  /** When no player is credited twice, each one receives exactly its own amount. */
  lemma {:induction false} CreditAt<P(!new)>(acc: map<P, real>, order: seq<P>, d: seq<real>, k: nat)
    requires |order| == |d| && Distinct(order) && k < |order|
    ensures Get(Credit(acc, order, d), order[k]) == Get(acc, order[k]) + d[k]
  {
    var n := |order| - 1;
    var prev := Credit(acc, order[..n], d[..n]);
    assert Credit(acc, order, d) == prev[order[n] := Get(prev, order[n]) + d[n]];
    if k < n {
      assert order[..n][k] == order[k] != order[n];
      CreditAt(acc, order[..n], d[..n], k);
    } else {
      assert order[n] !in order[..n];
      CreditElsewhere(acc, order[..n], d[..n], order[n]);
    }
  }

  /** A player that is not in the order keeps their amount. */
  lemma {:induction false} CreditElsewhere<P(!new)>(acc: map<P, real>, order: seq<P>, d: seq<real>, p: P)
    requires |order| == |d| && p !in order
    ensures Get(Credit(acc, order, d), p) == Get(acc, p)
  {
    if order != [] {
      var n := |order| - 1;
      assert p !in order[..n] by {
        assert order == order[..n] + [order[n]];
      }
      CreditElsewhere(acc, order[..n], d[..n], p);
    }
  }

  /** The amounts of the players ps, added up in the order of ps. */
  function SumOver<P(==, !new)>(ps: seq<P>, m: map<P, real>): real
  {
    if ps == [] then 0.0 else SumOver(ps[..|ps| - 1], m) + Get(m, ps[|ps| - 1])
  }

  /** Summing amounts that are listed position by position in s gives Sum(s). */
  lemma {:induction false} SumOverMatches<P(!new)>(ps: seq<P>, m: map<P, real>, s: seq<real>)
    requires |ps| == |s| && forall i :: 0 <= i < |ps| ==> Get(m, ps[i]) == s[i]
    ensures SumOver(ps, m) == Sum(s)
  {
    if ps != [] {
      var n := |ps| - 1;
      SumOverMatches(ps[..n], m, s[..n]);
    }
  }

  /** Changing the amount of a player outside ps leaves the sum over ps alone. */
  lemma {:induction false} SumOverOutside<P(!new)>(ps: seq<P>, m: map<P, real>, q: P, x: real)
    requires q !in ps
    ensures SumOver(ps, m[q := x]) == SumOver(ps, m)
  {
    if ps != [] {
      var n := |ps| - 1;
      assert q !in ps[..n] by {
        assert ps == ps[..n] + [ps[n]];
      }
      SumOverOutside(ps[..n], m, q, x);
    }
  }

  /** Changing the amount of a player listed once in ps changes the sum by the difference. */
  lemma {:induction false} SumOverUpdate<P(!new)>(ps: seq<P>, m: map<P, real>, q: P, x: real)
    requires Distinct(ps) && q in ps
    ensures SumOver(ps, m[q := x]) == SumOver(ps, m) - Get(m, q) + x
  {
    var n := |ps| - 1;
    assert ps == ps[..n] + [ps[n]];
    if ps[n] == q {
      assert q !in ps[..n];
      SumOverOutside(ps[..n], m, q, x);
    } else {
      SumOverUpdate(ps[..n], m, q, x);
    }
  }

  /** Crediting players of ps adds the credited amounts to the sum over ps. */
  lemma {:induction false} SumOverCredit<P(!new)>(ps: seq<P>, acc: map<P, real>, order: seq<P>, d: seq<real>)
    requires |order| == |d| && Distinct(ps)
    requires forall k :: 0 <= k < |order| ==> order[k] in ps
    ensures SumOver(ps, Credit(acc, order, d)) == SumOver(ps, acc) + Sum(d)
  {
    if order != [] {
      var n := |order| - 1;
      SumOverCredit(ps, acc, order[..n], d[..n]);
      var prev := Credit(acc, order[..n], d[..n]);
      assert Credit(acc, order, d) == prev[order[n] := Get(prev, order[n]) + d[n]];
      assert order[n] in ps;
      SumOverUpdate(ps, prev, order[n], Get(prev, order[n]) + d[n]);
      assert Sum(d) == Sum(d[..n]) + d[n];
    }
  }

  /** Taking the last of ps and a matching entry of qs out of two permutations leaves permutations. */
  lemma {:induction false} RemoveMatching<P>(ps: seq<P>, qs: seq<P>, j: nat)
    requires multiset(ps) == multiset(qs) && |ps| >= 1 && j < |qs| && qs[j] == ps[|ps| - 1]
    ensures multiset(ps[..|ps| - 1]) == multiset(qs[..j] + qs[j + 1..])
  {
    var n, x := |ps| - 1, ps[|ps| - 1];
    var rest := qs[..j] + qs[j + 1..];
    assert ps == ps[..n] + [x];
    assert qs == qs[..j] + [x] + qs[j + 1..];
    assert multiset(ps) == multiset(ps[..n]) + multiset{x};
    assert multiset(qs) == multiset(qs[..j]) + multiset{x} + multiset(qs[j + 1..]);
    assert multiset(rest) == multiset(qs[..j]) + multiset(qs[j + 1..]);
    assert multiset{x} + multiset(rest) == multiset(qs);
    assert multiset{x} + multiset(ps[..n]) == multiset(ps);
    MultisetCancel(x, multiset(ps[..n]), multiset(rest));
  }

  /** Removing the entry at position j removes its amount from the sum. */
  lemma {:induction false} SumOverRemove<P(!new)>(ps: seq<P>, m: map<P, real>, j: nat)
    requires j < |ps|
    ensures SumOver(ps, m) == SumOver(ps[..j] + ps[j + 1..], m) + Get(m, ps[j])
  {
    var n := |ps| - 1;
    if j < n {
      var rest := ps[..j] + ps[j + 1..];
      assert rest[..|rest| - 1] == ps[..n][..j] + ps[..n][j + 1..];
      assert rest[|rest| - 1] == ps[n];
      SumOverRemove(ps[..n], m, j);
    } else {
      assert ps[..j] + ps[j + 1..] == ps[..n];
    }
  }

  /** The sum over the players does not depend on the order they are listed in. */
  lemma {:induction false} SumOverPermutation<P(!new)>(ps: seq<P>, qs: seq<P>, m: map<P, real>)
    requires multiset(ps) == multiset(qs)
    ensures SumOver(ps, m) == SumOver(qs, m)
  {
    if ps != [] {
      var n := |ps| - 1;
      var x := ps[n];
      assert x in multiset(qs) by {
        assert x in multiset(ps);
      }
      var j :| 0 <= j < |qs| && qs[j] == x;
      var rest := qs[..j] + qs[j + 1..];
      RemoveMatching(ps, qs, j);
      SumOverPermutation(ps[..n], rest, m);
      SumOverRemove(qs, m, j);
    }
  }

  /** Every amount divided by n (the averaging over n permutations). */
  function Average<P(==, !new)>(m: map<P, real>, n: nat): (r: map<P, real>)
    requires n >= 1
    ensures r.Keys == m.Keys
    ensures forall p :: Get(r, p) * (n as real) == Get(m, p)
  {
    map p | p in m :: m[p] / (n as real)
  }

  /** Averaging divides the total by n as well. */
  lemma {:induction false} SumOverAverage<P(!new)>(ps: seq<P>, m: map<P, real>, n: nat)
    requires n >= 1
    ensures SumOver(ps, Average(m, n)) * (n as real) == SumOver(ps, m)
  {
    if ps != [] {
      var k := |ps| - 1;
      SumOverAverage(ps[..k], m, n);
      var a := SumOver(ps[..k], Average(m, n));
      var b := Get(Average(m, n), ps[k]);
      assert (a + b) * (n as real) == a * (n as real) + b * (n as real);
    }
  }

  /** The successive differences of a running cost: the marginal costs. */
  function Steps(path: seq<real>): (d: seq<real>)
    requires |path| >= 1
    ensures |d| == |path| - 1
  {
    seq(|path| - 1, k requires 0 <= k < |path| - 1 => path[k + 1] - path[k])
  }

  /** The marginal costs add up to the final cost minus the initial one. */
  lemma {:induction false} StepsSum(path: seq<real>)
    requires |path| >= 1
    ensures Sum(Steps(path)) == path[|path| - 1] - path[0]
  {
    Telescope(path, Steps(path));
  }
}
