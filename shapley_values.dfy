/**
 * The first sampling estimate of the Shapley value: the players are the
 * characters of a string, and a coalition's cost is looked up under its
 * members joined into a string in character order. It is the table-priced
 * sampling estimate with characters ranked by code point.
 */
module ShapleyValues {
  import opened Sorting
  import opened Ledger
  import opened ShapleySampling

  /** Python orders one-character strings by code point. */
  function CharRank(c: char): (r: real)
    ensures r >= 0.0
  {
    c as int as real
  }

  /** Different characters have different code points. */
  lemma {:induction false} CharRankInjective()
    ensures Injective(CharRank)
  {
    forall a: char, b: char | CharRank(a) == CharRank(b) ensures a == b {
      assert a as int == b as int;
    }
  }

  /**
   * The estimate over the given shuffles of allPlayers; the cost table is
   * keyed by the sorted members joined into a string.
   */
  method Values(allPlayers: string, cost: map<string, real>, perms: seq<string>) returns (out: Estimate<char>)
    requires forall k :: 0 <= k < |perms| ==> multiset(perms[k]) == multiset(allPlayers)
    ensures out == Outcome(BySubset(cost), CharRank, perms)
  {
    out := ShapleySampling.Values(allPlayers, CharRank, BySubset(cost), perms);
  }

  /**
   * The estimated values of distinct players add up to the cost of the whole
   * string sorted, and that entry exists.
   */
  lemma {:induction false} Efficiency(allPlayers: string, cost: map<string, real>, perms: seq<string>, v: map<char, real>)
    requires Distinct(allPlayers) && |allPlayers| >= 1 && |perms| >= 1
    requires forall k :: 0 <= k < |perms| ==> multiset(perms[k]) == multiset(allPlayers)
    requires Outcome(BySubset(cost), CharRank, perms) == Estimated(v)
    ensures SortBy(allPlayers, CharRank) in cost
    ensures SumOver(allPlayers, v) == cost[SortBy(allPlayers, CharRank)]
  {
    CharRankInjective();
    SubsetEfficiency(cost, CharRank, allPlayers, perms, v);
  }
}
