/**
 * One step of the Method of Equal Shares for participatory budgeting.
 *
 * Every citizen has a balance and a set of items they support. For each item
 * with a cost, the step pools the balances of its supporters and asks how much
 * every citizen would have to be given so that the supporters together can pay
 * for it. The item needing the smallest top-up is elected (the first one in the
 * order of the cost list on ties), everybody gets that top-up, and the
 * supporters of the elected item spend all their money on it.
 */
module EqualShares {
  import opened Sums

  type Item = string

  /**
   * What the step reports. The original leaves a name unbound when there are
   * no items and fails on a missing key when a listed item has no supporter;
   * those two runs end in NoItems and Unsupported here.
   */
  datatype Outcome = Chosen(item: Item, topUp: real) | NoItems | Unsupported(item: Item)

  /** Number of citizens supporting item. */
  function Count(votes: seq<set<Item>>, item: Item): (r: nat)
    ensures r <= |votes|
  {
    if |votes| == 0 then 0
    else Count(votes[..|votes| - 1], item) + (if item in votes[|votes| - 1] then 1 else 0)
  }

  /** Total balance of the citizens supporting item. */
  function Pooled(votes: seq<set<Item>>, b: seq<real>, item: Item): real
    requires |votes| == |b|
  {
    if |votes| == 0 then 0.0
    else
      var n := |votes| - 1;
      Pooled(votes[..n], b[..n], item) + (if item in votes[n] then b[n] else 0.0)
  }

  /** An item has supporters exactly when some citizen votes for it. */
  lemma {:induction false} CountPositive(votes: seq<set<Item>>, item: Item)
    ensures Count(votes, item) > 0 <==> exists p :: 0 <= p < |votes| && item in votes[p]
  {
    if |votes| > 0 {
      var n := |votes| - 1;
      CountPositive(votes[..n], item);
      if exists p :: 0 <= p < n && item in votes[..n][p] {
        var p :| 0 <= p < n && item in votes[..n][p];
        assert item in votes[p];
      }
      if p :| 0 <= p < |votes| && item in votes[p] {
        if p < n {
          assert item in votes[..n][p];
        }
      }
    }
  }

  /** Giving every citizen d more raises an item's pool by d for each supporter. */
  lemma {:induction false} PooledShift(votes: seq<set<Item>>, b: seq<real>, c: seq<real>, item: Item, d: real)
    requires |votes| == |b| == |c|
    requires forall p :: 0 <= p < |b| ==> c[p] == b[p] + d
    ensures Pooled(votes, c, item) == Pooled(votes, b, item) + (Count(votes, item) as real) * d
  {
    if |votes| > 0 {
      var n := |votes| - 1;
      PooledShift(votes[..n], b[..n], c[..n], item, d);
    }
  }

  /** An item nobody supports pools nothing. */
  lemma {:induction false} PooledUnsupported(votes: seq<set<Item>>, b: seq<real>, item: Item)
    requires |votes| == |b| && Count(votes, item) == 0
    ensures Pooled(votes, b, item) == 0.0
  {
    if |votes| > 0 {
      var n := |votes| - 1;
      PooledUnsupported(votes[..n], b[..n], item);
    }
  }

  /** Empty balances pool nothing. */
  lemma {:induction false} PooledZero(votes: seq<set<Item>>, b: seq<real>, item: Item)
    requires |votes| == |b| && forall p :: 0 <= p < |b| ==> b[p] == 0.0
    ensures Pooled(votes, b, item) == 0.0
  {
    if |votes| > 0 {
      var n := |votes| - 1;
      PooledZero(votes[..n], b[..n], item);
    }
  }

  /** The per-supporter top-up that makes the pool of an item reach its cost. */
  function Needed(votes: seq<set<Item>>, b: seq<real>, cost: (Item, real)): real
    requires |votes| == |b| && Count(votes, cost.0) > 0
  {
    (cost.1 - Pooled(votes, b, cost.0)) / (Count(votes, cost.0) as real)
  }

  /** After every citizen receives Needed, the supporters of the item hold exactly its cost. */
  lemma {:induction false} TopUpCoversCost(votes: seq<set<Item>>, b: seq<real>, cost: (Item, real))
    requires |votes| == |b| && Count(votes, cost.0) > 0
    ensures Pooled(votes, b, cost.0) + (Count(votes, cost.0) as real) * Needed(votes, b, cost) == cost.1
    ensures Pooled(votes, seq(|b|, p requires 0 <= p < |b| => b[p] + Needed(votes, b, cost)), cost.0) == cost.1
  {
    CancelDivision(cost.1 - Pooled(votes, b, cost.0), Count(votes, cost.0) as real);
    PooledShift(votes, b, seq(|b|, p requires 0 <= p < |b| => b[p] + Needed(votes, b, cost)), cost.0, Needed(votes, b, cost));
  }

  /** The two tables built by the first pass: pooled balance and supporter count per supported item. */
  ghost predicate Aggregated(votes: seq<set<Item>>, b: seq<real>, balanceOf: map<Item, real>, countOf: map<Item, nat>)
    requires |votes| == |b|
  {
    && balanceOf.Keys == countOf.Keys
    && (forall item :: item in countOf <==> Count(votes, item) > 0)
    && (forall item :: item in countOf ==> countOf[item] == Count(votes, item) && balanceOf[item] == Pooled(votes, b, item))
  }

  /** First pass: go over the citizens and, for each, over the items they support. */
  method Aggregate(votes: seq<set<Item>>, b: seq<real>) returns (balanceOf: map<Item, real>, countOf: map<Item, nat>)
    requires |votes| == |b|
    ensures Aggregated(votes, b, balanceOf, countOf)
  {
    balanceOf, countOf := map[], map[];
    for v := 0 to |votes|
      invariant Aggregated(votes[..v], b[..v], balanceOf, countOf)
    {
      balanceOf, countOf := AddCitizen(votes, b, v, balanceOf, countOf);
    }
    assert votes[..|votes|] == votes;
    assert b[..|b|] == b;
  }

  /** Adding citizen v to both tables: one more supporter and b[v] more balance for each item they support. */
  method AddCitizen(votes: seq<set<Item>>, b: seq<real>, v: nat, balanceOf: map<Item, real>, countOf: map<Item, nat>)
    returns (balanceOf': map<Item, real>, countOf': map<Item, nat>)
    requires |votes| == |b| && v < |votes|
    requires Aggregated(votes[..v], b[..v], balanceOf, countOf)
    ensures Aggregated(votes[..v + 1], b[..v + 1], balanceOf', countOf')
  {
    balanceOf', countOf' := balanceOf, countOf;
    var rest := votes[v];
    while rest != {}
      invariant rest <= votes[v]
      invariant balanceOf'.Keys == countOf'.Keys
      invariant forall item :: item in countOf' <==> Count(votes[..v], item) > 0 || item in votes[v] - rest
      invariant forall item :: item in countOf' ==>
        && countOf'[item] == Count(votes[..v], item) + (if item in votes[v] - rest then 1 else 0)
        && balanceOf'[item] == Pooled(votes[..v], b[..v], item) + (if item in votes[v] - rest then b[v] else 0.0)
      decreases rest
    {
      var item :| item in rest;
      if item !in countOf' {
        PooledUnsupported(votes[..v], b[..v], item);
      }
      balanceOf' := balanceOf'[item := (if item in balanceOf' then balanceOf'[item] else 0.0) + b[v]];
      countOf' := countOf'[item := (if item in countOf' then countOf'[item] else 0) + 1];
      rest := rest - {item};
    }
    CitizenStep(votes, b, v);
  }

  /** The counts and pools over the first v + 1 citizens add citizen v's support to those over the first v. */
  lemma {:induction false} CitizenStep(votes: seq<set<Item>>, b: seq<real>, v: nat)
    requires |votes| == |b| && v < |votes|
    ensures forall item :: Count(votes[..v + 1], item) == Count(votes[..v], item) + (if item in votes[v] then 1 else 0)
    ensures forall item ::
      Pooled(votes[..v + 1], b[..v + 1], item) == Pooled(votes[..v], b[..v], item) + (if item in votes[v] then b[v] else 0.0)
  {
    assert votes[..v + 1][..v] == votes[..v];
    assert b[..v + 1][..v] == b[..v];
  }

  /** Every listed item has at least one supporter. */
  ghost predicate AllSupported(votes: seq<set<Item>>, costs: seq<(Item, real)>)
  {
    forall k :: 0 <= k < |costs| ==> Count(votes, costs[k].0) > 0
  }

  /** Item k needs the smallest top-up, and every item listed before it needs strictly more. */
  ghost predicate FirstCheapest(votes: seq<set<Item>>, b: seq<real>, costs: seq<(Item, real)>, k: int)
    requires |votes| == |b| && AllSupported(votes, costs)
  {
    && 0 <= k < |costs|
    && (forall j :: 0 <= j < |costs| ==> Needed(votes, b, costs[k]) <= Needed(votes, b, costs[j]))
    && (forall j :: 0 <= j < k ==> Needed(votes, b, costs[k]) < Needed(votes, b, costs[j]))
  }

  /**
   * Second pass: scan the cost list for the smallest top-up. The running
   * minimum starts at infinity, so the first item always replaces it; a strict
   * comparison keeps the earliest of equal top-ups.
   */
  method SelectItem(votes: seq<set<Item>>, b: seq<real>, costs: seq<(Item, real)>,
                    balanceOf: map<Item, real>, countOf: map<Item, nat>) returns (out: Outcome)
    requires |votes| == |b| && Aggregated(votes, b, balanceOf, countOf)
    ensures out == NoItems <==> |costs| == 0
    ensures out.Unsupported? <==> exists k :: 0 <= k < |costs| && Count(votes, costs[k].0) == 0
    ensures out.Unsupported? ==>
      exists k :: 0 <= k < |costs| && costs[k].0 == out.item && Count(votes, out.item) == 0 && AllSupported(votes, costs[..k])
    ensures out.Chosen? ==> AllSupported(votes, costs)
    ensures out.Chosen? ==>
      exists k :: FirstCheapest(votes, b, costs, k) && out == Chosen(costs[k].0, Needed(votes, b, costs[k]))
  {
    var found := false;
    var minCost: real := 0.0;
    var chosen: Item := [];
    ghost var at := 0;
    var k := 0;
    while k < |costs|
      invariant 0 <= k <= |costs|
      invariant forall j :: 0 <= j < k ==> Count(votes, costs[j].0) > 0
      invariant found <==> k > 0
      invariant found ==> 0 <= at < k && chosen == costs[at].0 && Count(votes, chosen) > 0 && minCost == Needed(votes, b, costs[at])
      invariant found ==> forall j :: 0 <= j < k ==> minCost <= Needed(votes, b, costs[j])
      invariant found ==> forall j :: 0 <= j < at ==> minCost < Needed(votes, b, costs[j])
    {
      var (item, cost) := costs[k];
      if item !in countOf {
        assert costs[..k][..] == costs[..k];
        return Unsupported(item);
      }
      var needed := (cost - balanceOf[item]) / (countOf[item] as real);
      if !found || needed < minCost {
        found, minCost, chosen, at := true, needed, item, k;
      }
      k := k + 1;
    }
    if !found {
      return NoItems;
    }
    out := Chosen(chosen, minCost);
    assert FirstCheapest(votes, b, costs, at);
  }

  /** Balances after everybody gets d and the supporters of chosen spend everything. */
  function AfterTopUp(votes: seq<set<Item>>, b: seq<real>, chosen: Item, d: real): (r: seq<real>)
    requires |votes| == |b|
    ensures |r| == |b|
  {
    seq(|b|, p requires 0 <= p < |b| => if chosen in votes[p] then 0.0 else b[p] + d)
  }

  /** The supporters of the elected item are left with nothing. */
  lemma {:induction false} SupportersSpent(votes: seq<set<Item>>, b: seq<real>, chosen: Item, d: real)
    requires |votes| == |b|
    ensures Pooled(votes, AfterTopUp(votes, b, chosen, d), chosen) == 0.0
  {
    if |votes| > 0 {
      var n := |votes| - 1;
      assert AfterTopUp(votes, b, chosen, d)[..n] == AfterTopUp(votes[..n], b[..n], chosen, d);
      SupportersSpent(votes[..n], b[..n], chosen, d);
    }
  }

  /** Third pass: update the balances in place. */
  method TopUp(votes: seq<set<Item>>, balances: array<real>, chosen: Item, d: real)
    requires |votes| == balances.Length
    modifies balances
    ensures balances[..] == AfterTopUp(votes, old(balances[..]), chosen, d)
  {
    for p := 0 to balances.Length
      invariant forall q :: 0 <= q < p ==> balances[q] == (if chosen in votes[q] then 0.0 else old(balances[q]) + d)
      invariant forall q :: p <= q < balances.Length ==> balances[q] == old(balances[q])
    {
      balances[p] := balances[p] + d;
      if chosen in votes[p] {
        balances[p] := 0.0;
      }
    }
  }

  /**
   * The whole step. On the two failing runs the balances are untouched; on the
   * successful one the elected item is the first cheapest, its supporters are
   * spent, and every other citizen holds exactly the top-up more.
   */
  method ElectNextBudgetItem(votes: seq<set<Item>>, balances: array<real>, costs: seq<(Item, real)>) returns (out: Outcome)
    requires |votes| == balances.Length
    modifies balances
    ensures out == NoItems <==> |costs| == 0
    ensures out.Unsupported? <==> exists k :: 0 <= k < |costs| && Count(votes, costs[k].0) == 0
    ensures out.Unsupported? ==>
      exists k :: 0 <= k < |costs| && costs[k].0 == out.item && Count(votes, out.item) == 0 && AllSupported(votes, costs[..k])
    ensures !out.Chosen? ==> balances[..] == old(balances[..])
    ensures out.Chosen? ==> AllSupported(votes, costs)
    ensures out.Chosen? ==>
      exists k :: FirstCheapest(votes, old(balances[..]), costs, k) && out == Chosen(costs[k].0, Needed(votes, old(balances[..]), costs[k]))
    ensures out.Chosen? ==> balances[..] == AfterTopUp(votes, old(balances[..]), out.item, out.topUp)
  {
    var b := balances[..];
    var balanceOf, countOf := Aggregate(votes, b);
    out := SelectItem(votes, b, costs, balanceOf, countOf);
    if out.Chosen? {
      TopUp(votes, balances, out.item, out.topUp);
    }
  }

  /**
   * The demonstration: five citizens with empty balances, three items of cost
   * 1. Item "a" has four supporters and needs the smallest top-up, 1/4.
   */
  method DemoElection() returns (out: Outcome, after: seq<real>)
    ensures out == Chosen("a", 0.25)
    ensures after == [0.0, 0.25, 0.0, 0.0, 0.0]
  {
    var v1 := [{"a", "b"}];
    var v2 := v1 + [{"b", "c"}];
    var v3 := v2 + [{"a", "c"}];
    var v4 := v3 + [{"a"}];
    var votes := v4 + [{"a", "c"}];
    assert v2[..1] == v1 && v3[..2] == v2 && v4[..3] == v3 && votes[..4] == v4;
    assert Count(v1, "a") == 1 && Count(v1, "b") == 1 && Count(v1, "c") == 0;
    assert Count(v2, "a") == 1 && Count(v2, "b") == 2 && Count(v2, "c") == 1;
    assert Count(v3, "a") == 2 && Count(v3, "b") == 2 && Count(v3, "c") == 2;
    assert Count(v4, "a") == 3 && Count(v4, "b") == 2 && Count(v4, "c") == 2;
    assert Count(votes, "a") == 4 && Count(votes, "b") == 2 && Count(votes, "c") == 3;
    var costs := [("a", 1.0), ("b", 1.0), ("c", 1.0)];
    var balances := new real[5](_ => 0.0);
    var zero := balances[..];
    PooledZero(votes, zero, "a");
    PooledZero(votes, zero, "b");
    PooledZero(votes, zero, "c");
    assert Needed(votes, zero, costs[0]) == 0.25;
    assert Needed(votes, zero, costs[1]) == 0.5;
    assert Needed(votes, zero, costs[2]) == 1.0 / 3.0;
    out := ElectNextBudgetItem(votes, balances, costs);
    after := balances[..];
  }
}
