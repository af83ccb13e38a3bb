/**
 * Estimating Shapley values by sampling permutations. For each permutation the
 * players arrive one after the other; each is charged the cost of the
 * coalition so far including them minus the cost without them, and the
 * charges are finally averaged over the permutations.
 *
 * Two ways of pricing a coalition are modelled. BySubset looks the coalition
 * up in a table keyed by its members in sorted order (a Python tuple or a
 * joined string); the list of members is kept sorted by appending the newcomer
 * and sorting again. ByMax is the airport game: the coalition costs the
 * largest member cost, computed as a running maximum. The random shuffles are
 * not modelled: the permutations are given, each a rearrangement of the
 * players.
 */
module ShapleySampling {
  import opened Sums
  import opened Sorting
  import opened Ledger
  import opened AirportGame

  datatype Option<T> = None | Some(value: T)

  datatype CostModel<P(==)> =
    | BySubset(subsetCost: map<seq<P>, real>)
    | ByMax(playerCost: map<P, real>)

  /** The averaged charges, or a coalition or player the cost table has no entry for. */
  datatype Estimate<P(==)> = Estimated(values: map<P, real>) | MissingCost

  /**
   * The member list after the players of prefix arrived in turn, each one
   * appended and the list sorted again.
   */
  function Arranged<P>(prefix: seq<P>, rank: P -> real): (r: seq<P>)
    ensures |r| == |prefix|
  {
    if prefix == [] then []
    else SortBy(Arranged(prefix[..|prefix| - 1], rank) + [prefix[|prefix| - 1]], rank)
  }

  /** The member list holds exactly the arrived players, sorted by rank. */
  lemma {:induction false} ArrangedCorrect<P>(prefix: seq<P>, rank: P -> real)
    ensures multiset(Arranged(prefix, rank)) == multiset(prefix) && SortedBy(Arranged(prefix, rank), rank)
  {
    if prefix != [] {
      var n := |prefix| - 1;
      ArrangedCorrect(prefix[..n], rank);
      SortByCorrect(Arranged(prefix[..n], rank) + [prefix[n]], rank);
      assert prefix == prefix[..n] + [prefix[n]];
    }
  }

  /**
   * When the ranking tells players apart, the member list is the sorted
   * coalition whatever order its members arrived in.
   */
  lemma {:induction false} ArrivalOrderIrrelevant<P(!new)>(prefix: seq<P>, other: seq<P>, rank: P -> real)
    requires Injective(rank) && multiset(prefix) == multiset(other)
    ensures Arranged(prefix, rank) == SortBy(other, rank)
  {
    ArrangedCorrect(prefix, rank);
    SortByCorrect(other, rank);
    SortedUnique(Arranged(prefix, rank), SortBy(other, rank), rank);
  }

  /** The running cost after the last player of prefix arrives, curr being the cost before. */
  function NextCost<P(==)>(model: CostModel<P>, rank: P -> real, prefix: seq<P>, curr: real): Option<real>
    requires |prefix| >= 1
  {
    match model
    case BySubset(m) =>
      var key := Arranged(prefix, rank);
      if key in m then Some(m[key]) else None
    case ByMax(m) =>
      var p := prefix[|prefix| - 1];
      if p in m then Some(Max(m[p], curr)) else None
  }

  /**
   * The running costs of one permutation: 0 before anyone arrives, then the
   * cost after each arrival; None when a lookup fails.
   */
  function CostPath<P(==)>(model: CostModel<P>, rank: P -> real, perm: seq<P>): (r: Option<seq<real>>)
    ensures r.Some? ==> |r.value| == |perm| + 1 && r.value[0] == 0.0
  {
    if perm == [] then Some([0.0])
    else
      var n := |perm| - 1;
      match CostPath(model, rank, perm[..n])
      case None => None
      case Some(path) =>
        match NextCost(model, rank, perm, path[n])
        case None => None
        case Some(c) => Some(path + [c])
  }

  /** The state of one pass after some arrivals: running cost, sorted members, ledger. */
  datatype Pass<P> = Pass(cost: real, members: seq<P>, ledger: map<P, real>)

  /**
   * One arrival: look the new cost up, credit the player with the increase
   * and move on; None when the cost table has no entry. The member list is
   * only kept when coalitions are priced by table.
   */
  function Arrive<P(==, !new)>(model: CostModel<P>, rank: P -> real, s: Pass<P>, player: P): Option<Pass<P>>
  {
    match model
    case BySubset(m) =>
      var members := SortBy(s.members + [player], rank);
      if members in m then
        Some(Pass(m[members], members, s.ledger[player := Get(s.ledger, player) + (m[members] - s.cost)]))
      else None
    case ByMax(m) =>
      if player in m then
        var c := Max(m[player], s.cost);
        Some(Pass(c, s.members, s.ledger[player := Get(s.ledger, player) + (c - s.cost)]))
      else None
  }

  /** The players of perm arriving in turn, starting from the ledger start. */
  function Walk<P(==, !new)>(model: CostModel<P>, rank: P -> real, perm: seq<P>, start: map<P, real>): Option<Pass<P>>
  {
    if perm == [] then Some(Pass(0.0, [], start))
    else
      match Walk(model, rank, perm[..|perm| - 1], start)
      case None => None
      case Some(s) => Arrive(model, rank, s, perm[|perm| - 1])
  }

  /** One permutation's charges credited to res. */
  function Charge<P(==, !new)>(model: CostModel<P>, rank: P -> real, perm: seq<P>, res: map<P, real>): Option<map<P, real>>
  {
    match Walk(model, rank, perm, res)
    case None => None
    case Some(s) => Some(s.ledger)
  }

  /** The charges of all permutations, summed per player. */
  function Tally<P(==, !new)>(model: CostModel<P>, rank: P -> real, perms: seq<seq<P>>): Option<map<P, real>>
  {
    if perms == [] then Some(map[])
    else
      match Tally(model, rank, perms[..|perms| - 1])
      case None => None
      case Some(res) => Charge(model, rank, perms[|perms| - 1], res)
  }

  /** The averaged charges: what the sampling estimate returns. */
  function Outcome<P(==, !new)>(model: CostModel<P>, rank: P -> real, perms: seq<seq<P>>): Estimate<P>
  {
    match Tally(model, rank, perms)
    case None => MissingCost
    case Some(res) => if |perms| == 0 then Estimated(res) else Estimated(Average(res, |perms|))
  }

  lemma {:induction false} StepsAppend(path: seq<real>, x: real)
    requires |path| >= 1
    ensures Steps(path + [x]) == Steps(path) + [x - path[|path| - 1]]
  {
  }

  /** Extending a permutation's prefix by one player extends the running costs by one lookup. */
  lemma {:induction false} CostPathStep<P>(model: CostModel<P>, rank: P -> real, perm: seq<P>, path: seq<real>)
    requires |perm| >= 1 && CostPath(model, rank, perm[..|perm| - 1]) == Some(path)
    ensures CostPath(model, rank, perm) ==
      match NextCost(model, rank, perm, path[|perm| - 1])
      case None => None
      case Some(c) => Some(path + [c])
  {
  }

  /** The member list grows by inserting the newcomer into the sorted list. */
  lemma {:induction false} ArrangedStep<P>(perm: seq<P>, rank: P -> real)
    requires |perm| >= 1
    ensures Arranged(perm, rank) == SortBy(Arranged(perm[..|perm| - 1], rank) + [perm[|perm| - 1]], rank)
  {
  }

  /** Crediting one more player's marginal cost. */
  lemma {:induction false} CreditStep<P(!new)>(start: map<P, real>, perm: seq<P>, path: seq<real>, c: real)
    requires |perm| >= 1 && |path| == |perm|
    ensures Credit(start, perm, Steps(path + [c])) ==
      var res := Credit(start, perm[..|perm| - 1], Steps(path));
      res[perm[|perm| - 1] := Get(res, perm[|perm| - 1]) + (c - path[|perm| - 1])]
  {
    var n, d := |perm| - 1, Steps(path + [c]);
    StepsAppend(path, c);
    assert d[..n] == Steps(path) && d[n] == c - path[n];
  }

  /** The state a pass reaches along the running costs path. */
  function Reached<P(==, !new)>(model: CostModel<P>, rank: P -> real, perm: seq<P>, start: map<P, real>, path: seq<real>): Pass<P>
    requires |path| == |perm| + 1
  {
    Pass(path[|perm|], if model.BySubset? then Arranged(perm, rank) else [], Credit(start, perm, Steps(path)))
  }

  /** What a pass over perm leaves behind, given its running costs. */
  ghost predicate PassMatches<P(!new)>(model: CostModel<P>, rank: P -> real, perm: seq<P>, start: map<P, real>)
  {
    && (Walk(model, rank, perm, start).Some? <==> CostPath(model, rank, perm).Some?)
    && (CostPath(model, rank, perm).Some? ==>
         Walk(model, rank, perm, start).value == Reached(model, rank, perm, start, CostPath(model, rank, perm).value))
  }

  /** One arrival from the reached state makes the same lookup as the running costs. */
  lemma {:induction false} ArriveStep<P(!new)>(model: CostModel<P>, rank: P -> real, perm: seq<P>, start: map<P, real>, path: seq<real>)
    requires |perm| >= 1 && |path| == |perm|
    ensures Arrive(model, rank, Reached(model, rank, perm[..|perm| - 1], start, path), perm[|perm| - 1]) ==
      match NextCost(model, rank, perm, path[|perm| - 1])
      case None => None
      case Some(c) => Some(Reached(model, rank, perm, start, path + [c]))
  {
    if model.BySubset? {
      ArriveBySubset(model, rank, perm, start, path);
    } else {
      ArriveByMax(model, rank, perm, start, path);
    }
  }

  /** ArriveStep for a cost table: the lookup key is the sorted coalition. */
  lemma {:induction false} ArriveBySubset<P(!new)>(model: CostModel<P>, rank: P -> real, perm: seq<P>, start: map<P, real>, path: seq<real>)
    requires model.BySubset? && |perm| >= 1 && |path| == |perm|
    ensures Arrive(model, rank, Reached(model, rank, perm[..|perm| - 1], start, path), perm[|perm| - 1]) ==
      match NextCost(model, rank, perm, path[|perm| - 1])
      case None => None
      case Some(c) => Some(Reached(model, rank, perm, start, path + [c]))
  {
    var n := |perm| - 1;
    var s := Reached(model, rank, perm[..n], start, path);
    var key := Arranged(perm, rank);
    ArrangedStep(perm, rank);
    assert s.members + [perm[n]] == Arranged(perm[..n], rank) + [perm[n]];
    if key in model.subsetCost {
      ArrivalCredit(model, rank, perm, start, path, model.subsetCost[key]);
    }
  }

  /** ArriveStep for the running maximum of the players' costs. */
  lemma {:induction false} ArriveByMax<P(!new)>(model: CostModel<P>, rank: P -> real, perm: seq<P>, start: map<P, real>, path: seq<real>)
    requires model.ByMax? && |perm| >= 1 && |path| == |perm|
    ensures Arrive(model, rank, Reached(model, rank, perm[..|perm| - 1], start, path), perm[|perm| - 1]) ==
      match NextCost(model, rank, perm, path[|perm| - 1])
      case None => None
      case Some(c) => Some(Reached(model, rank, perm, start, path + [c]))
  {
    var n := |perm| - 1;
    if perm[n] in model.playerCost {
      ArrivalCredit(model, rank, perm, start, path, Max(model.playerCost[perm[n]], path[n]));
    }
  }

  /** The ledger and the cost after an arrival that costs c in total. */
  lemma {:induction false} ArrivalCredit<P(!new)>(model: CostModel<P>, rank: P -> real, perm: seq<P>, start: map<P, real>, path: seq<real>, c: real)
    requires |perm| >= 1 && |path| == |perm|
    ensures var s := Reached(model, rank, perm[..|perm| - 1], start, path);
      var r := Reached(model, rank, perm, start, path + [c]);
      && r.cost == c
      && r.ledger == s.ledger[perm[|perm| - 1] := Get(s.ledger, perm[|perm| - 1]) + (c - s.cost)]
  {
    CreditStep(start, perm, path, c);
  }

  /** One arrival keeps the pass in step with the running costs. */
  lemma {:induction false} WalkStep<P(!new)>(model: CostModel<P>, rank: P -> real, perm: seq<P>, start: map<P, real>)
    requires |perm| >= 1 && PassMatches(model, rank, perm[..|perm| - 1], start)
    ensures PassMatches(model, rank, perm, start)
  {
    var n := |perm| - 1;
    var cp := CostPath(model, rank, perm[..n]);
    if cp.Some? {
      var path := cp.value;
      CostPathStep(model, rank, perm, path);
      ArriveStep(model, rank, perm, start, path);
      assert Walk(model, rank, perm, start) == Arrive(model, rank, Reached(model, rank, perm[..n], start, path), perm[n]);
    }
  }

  /**
   * A pass succeeds exactly when every lookup of the running costs does, and
   * it then credits each player with the increase of the running cost at
   * their arrival.
   */
  lemma {:induction false} WalkCredits<P(!new)>(model: CostModel<P>, rank: P -> real, perm: seq<P>, start: map<P, real>)
    ensures PassMatches(model, rank, perm, start)
  {
    if perm != [] {
      WalkCredits(model, rank, perm[..|perm| - 1], start);
      WalkStep(model, rank, perm, start);
    }
  }

  /** A pass that fails on a prefix of the permutation fails on all of it. */
  lemma {:induction false} WalkFails<P(!new)>(model: CostModel<P>, rank: P -> real, perm: seq<P>, start: map<P, real>, j: nat)
    requires j <= |perm| && Walk(model, rank, perm[..j], start).None?
    ensures Walk(model, rank, perm, start).None?
  {
    if j < |perm| {
      var n := |perm| - 1;
      assert perm[..n][..j] == perm[..j];
      WalkFails(model, rank, perm[..n], start, j);
      assert perm[..|perm| - 1] == perm[..n];
    } else {
      assert perm[..j] == perm;
    }
  }

  /** Once a permutation fails, the whole run fails. */
  lemma {:induction false} TallyFails<P(!new)>(model: CostModel<P>, rank: P -> real, perms: seq<seq<P>>, r: nat)
    requires r <= |perms| && Tally(model, rank, perms[..r]).None?
    ensures Tally(model, rank, perms).None?
  {
    if r < |perms| {
      var n := |perms| - 1;
      assert perms[..n][..r] == perms[..r];
      TallyFails(model, rank, perms[..n], r);
      assert perms[..|perms| - 1] == perms[..n];
    } else {
      assert perms[..r] == perms;
    }
  }

  /**
   * One permutation of the sampling loop: players arrive in the order of perm
   * and each is credited with the cost they add.
   */
  method ChargePermutation<P(==, !new)>(model: CostModel<P>, rank: P -> real, perm: seq<P>, start: map<P, real>)
    returns (out: Option<map<P, real>>)
    ensures out == Charge(model, rank, perm, start)
  {
    var res := start;
    var curr := 0.0;
    var subset: seq<P> := [];
    for j := 0 to |perm|
      invariant Walk(model, rank, perm[..j], start) == Some(Pass(curr, subset, res))
    {
      var player := perm[j];
      assert perm[..j + 1][..j] == perm[..j];
      var newCost;
      if model.BySubset? {
        subset := SortBy(subset + [player], rank);
        if subset !in model.subsetCost {
          WalkFails(model, rank, perm, start, j + 1);
          return None;
        }
        newCost := model.subsetCost[subset];
      } else {
        if player !in model.playerCost {
          WalkFails(model, rank, perm, start, j + 1);
          return None;
        }
        newCost := Max(model.playerCost[player], curr);
      }
      var marginal := newCost - curr;
      res := res[player := Get(res, player) + marginal];
      curr := newCost;
    }
    assert perm[..|perm|] == perm;
    return Some(res);
  }

  /** With player costs, a pass finds all its costs exactly when every player has one. */
  lemma {:induction false} MaxCostDefined<P(!new)>(m: map<P, real>, rank: P -> real, perm: seq<P>)
    ensures CostPath(ByMax(m), rank, perm).Some? <==> forall k :: 0 <= k < |perm| ==> perm[k] in m
  {
    if perm != [] {
      var n := |perm| - 1;
      MaxCostDefined(m, rank, perm[..n]);
      if CostPath(ByMax(m), rank, perm[..n]).None? {
        var k :| 0 <= k < n && perm[..n][k] !in m;
        assert perm[k] !in m;
      } else if perm[n] in m {
        forall k | 0 <= k < |perm| ensures perm[k] in m {
          if k < n {
            assert perm[..n][k] == perm[k];
          }
        }
      }
    }
  }

  /** With player costs, the running costs are the running maximum of the costs so far. */
  lemma {:induction false} MaxCostPath<P(!new)>(m: map<P, real>, rank: P -> real, perm: seq<P>)
    requires CostPath(ByMax(m), rank, perm).Some?
    ensures CostPath(ByMax(m), rank, perm).value == MaxPath(CostsOf(perm, m))
  {
    if perm != [] {
      var n := |perm| - 1;
      MaxCostPath(m, rank, perm[..n]);
      assert CostsOf(perm, m)[..n] == CostsOf(perm[..n], m);
    }
  }

  /** With a table of coalition costs, a pass finds all its costs exactly when every sorted coalition has an entry. */
  lemma {:induction false} SubsetCostDefined<P(!new)>(m: map<seq<P>, real>, rank: P -> real, perm: seq<P>)
    ensures CostPath(BySubset(m), rank, perm).Some? <==> forall j :: 1 <= j <= |perm| ==> Arranged(perm[..j], rank) in m
  {
    if perm != [] {
      var n := |perm| - 1;
      var prev := perm[..n];
      SubsetCostDefined(m, rank, prev);
      SubsetPathStep(m, rank, perm);
      var key := (s: seq<P>) => Arranged(s, rank);
      if forall j :: 1 <= j <= |perm| ==> Arranged(perm[..j], rank) in m {
        PrefixesShrink(m.Keys, key, perm, prev);
      } else if CostPath(BySubset(m), rank, perm).Some? {
        PrefixesGrow(m.Keys, key, perm, prev);
      }
    }
  }

  /** When every prefix of a sequence has its key in a set, so does every prefix of its first part, and the whole. */
  lemma {:induction false} PrefixesShrink<P>(keys: set<seq<P>>, key: seq<P> -> seq<P>, perm: seq<P>, prev: seq<P>)
    requires |perm| >= 1 && prev == perm[..|perm| - 1]
    requires forall j :: 1 <= j <= |perm| ==> key(perm[..j]) in keys
    ensures forall j :: 1 <= j <= |prev| ==> key(prev[..j]) in keys
    ensures key(perm) in keys
  {
    forall j | 1 <= j <= |prev| ensures key(prev[..j]) in keys {
      assert prev[..j] == perm[..j];
    }
    assert perm[..|perm|] == perm;
  }

  /** When every prefix of the first part has its key in a set and so does the whole, every prefix has. */
  lemma {:induction false} PrefixesGrow<P>(keys: set<seq<P>>, key: seq<P> -> seq<P>, perm: seq<P>, prev: seq<P>)
    requires |perm| >= 1 && prev == perm[..|perm| - 1]
    requires forall j :: 1 <= j <= |prev| ==> key(prev[..j]) in keys
    requires key(perm) in keys
    ensures forall j :: 1 <= j <= |perm| ==> key(perm[..j]) in keys
  {
    forall j | 1 <= j <= |perm| ensures key(perm[..j]) in keys {
      if j < |perm| {
        assert prev[..j] == perm[..j];
      } else {
        assert perm[..j] == perm;
      }
    }
  }

  /** One more arrival is priced exactly when the earlier ones were and the new sorted coalition has an entry. */
  lemma {:induction false} SubsetPathStep<P(!new)>(m: map<seq<P>, real>, rank: P -> real, perm: seq<P>)
    requires |perm| >= 1
    ensures CostPath(BySubset(m), rank, perm).Some? <==>
      CostPath(BySubset(m), rank, perm[..|perm| - 1]).Some? && Arranged(perm, rank) in m
  {
  }

  /** With a table of coalition costs, a pass ends at the cost of the whole sorted coalition. */
  lemma {:induction false} SubsetFinalCost<P(!new)>(m: map<seq<P>, real>, rank: P -> real, perm: seq<P>)
    requires |perm| >= 1 && CostPath(BySubset(m), rank, perm).Some?
    ensures Arranged(perm, rank) in m
    ensures CostPath(BySubset(m), rank, perm).value[|perm|] == m[Arranged(perm, rank)]
  {
  }

  /** The keys of a tally: every player once some permutation was charged, none before. */
  lemma {:induction false} TallyKeys<P(!new)>(model: CostModel<P>, rank: P -> real, players: seq<P>, perms: seq<seq<P>>, res: map<P, real>)
    requires forall k :: 0 <= k < |perms| ==> multiset(perms[k]) == multiset(players)
    requires Tally(model, rank, perms) == Some(res)
    ensures forall p :: p in res <==> |perms| >= 1 && p in players
  {
    if perms != [] {
      var n := |perms| - 1;
      var prev := Tally(model, rank, perms[..n]).value;
      TallyKeys(model, rank, players, perms[..n], prev);
      var perm := perms[n];
      WalkCredits(model, rank, perm, prev);
      var path := CostPath(model, rank, perm).value;
      CreditKeys(prev, perm, Steps(path));
      forall p ensures p in perm <==> p in players {
        assert p in perm <==> p in multiset(perm);
      }
    }
  }

  /** The run succeeds exactly when every permutation finds all its costs. */
  lemma {:induction false} TallyDefined<P(!new)>(model: CostModel<P>, rank: P -> real, perms: seq<seq<P>>)
    ensures Tally(model, rank, perms).Some? <==> forall k :: 0 <= k < |perms| ==> CostPath(model, rank, perms[k]).Some?
  {
    if perms != [] {
      var n := |perms| - 1;
      TallyDefined(model, rank, perms[..n]);
      if Tally(model, rank, perms[..n]).Some? {
        WalkCredits(model, rank, perms[n], Tally(model, rank, perms[..n]).value);
      }
      AllFoundSplit(model, rank, perms, n);
    }
  }

  /** Every permutation finds its costs exactly when all but the last do and the last does. */
  lemma {:induction false} AllFoundSplit<P(!new)>(model: CostModel<P>, rank: P -> real, perms: seq<seq<P>>, n: nat)
    requires n == |perms| - 1
    ensures (forall k :: 0 <= k < |perms| ==> CostPath(model, rank, perms[k]).Some?) <==>
      (forall k :: 0 <= k < n ==> CostPath(model, rank, perms[..n][k]).Some?) && CostPath(model, rank, perms[n]).Some?
  {
    assert forall k :: 0 <= k < n ==> perms[..n][k] == perms[k];
  }

  /** One charged permutation adds its final running cost to the players' total. */
  lemma {:induction false} ChargeTotal<P(!new)>(model: CostModel<P>, rank: P -> real, players: seq<P>, perm: seq<P>, prev: map<P, real>)
    requires Distinct(players) && multiset(perm) == multiset(players)
    requires Charge(model, rank, perm, prev).Some?
    ensures CostPath(model, rank, perm).Some?
    ensures SumOver(players, Charge(model, rank, perm, prev).value) ==
      SumOver(players, prev) + CostPath(model, rank, perm).value[|perm|]
  {
    WalkCredits(model, rank, perm, prev);
    var path := CostPath(model, rank, perm).value;
    forall k | 0 <= k < |perm| ensures perm[k] in players {
      assert perm[k] in multiset(players);
    }
    SumOverCredit(players, prev, perm, Steps(path));
    StepsSum(path);
  }

  /**
   * Summed over the players, a tally holds what every permutation cost in the
   * end: each pass hands out exactly its final running cost.
   */
  lemma {:induction false} TallyTotal<P(!new)>(model: CostModel<P>, rank: P -> real, players: seq<P>, perms: seq<seq<P>>, total: real)
    requires Distinct(players)
    requires forall k :: 0 <= k < |perms| ==> multiset(perms[k]) == multiset(players)
    requires forall k :: 0 <= k < |perms| && CostPath(model, rank, perms[k]).Some? ==>
      CostPath(model, rank, perms[k]).value[|perms[k]|] == total
    requires Tally(model, rank, perms).Some?
    ensures SumOver(players, Tally(model, rank, perms).value) == Repeated(|perms|, total)
  {
    if perms == [] {
      SumOverEmpty(players);
      assert Tally(model, rank, perms).value == map[];
    } else {
      var n := |perms| - 1;
      var prev := Tally(model, rank, perms[..n]).value;
      assert forall k :: 0 <= k < n ==> perms[..n][k] == perms[k];
      TallyTotal(model, rank, players, perms[..n], total);
      assert Tally(model, rank, perms) == Charge(model, rank, perms[n], prev);
      ChargeTotal(model, rank, players, perms[n], prev);
      assert CostPath(model, rank, perms[n]).value[|perms[n]|] == total;
    }
  }

  /** x added up k times. */
  function Repeated(k: nat, x: real): real
  {
    if k == 0 then 0.0 else Repeated(k - 1, x) + x
  }

  /** k copies of x are k times x. */
  lemma {:induction false} RepeatedTimes(k: nat, x: real)
    ensures Repeated(k, x) == (k as real) * x
  {
    if k > 0 {
      RepeatedTimes(k - 1, x);
    }
  }

  /** Averaging n copies of a total gives the total back. */
  lemma {:induction false} AverageTotal<P(!new)>(players: seq<P>, res: map<P, real>, n: nat, total: real)
    requires n >= 1 && SumOver(players, res) == Repeated(n, total)
    ensures SumOver(players, Average(res, n)) == total
  {
    SumOverAverage(players, res, n);
    CancelRepeated(SumOver(players, Average(res, n)), SumOver(players, res), n, total);
  }

  /** A quantity that, taken n times, is n copies of b, is b. */
  lemma {:induction false} CancelRepeated(a: real, s: real, n: nat, b: real)
    requires n >= 1 && a * (n as real) == s && s == Repeated(n, b)
    ensures a == b
  {
    RepeatedTimes(n, b);
    var k := n as real;
    assert a * k == k * b;
    assert (a - b) * k == 0.0;
  }

  /** When every permutation ends at the same total, the averaged values add up to it. */
  lemma {:induction false} EstimateTotal<P(!new)>(model: CostModel<P>, rank: P -> real, players: seq<P>, perms: seq<seq<P>>, v: map<P, real>, total: real)
    requires Distinct(players) && |perms| >= 1
    requires forall k :: 0 <= k < |perms| ==> multiset(perms[k]) == multiset(players)
    requires forall k :: 0 <= k < |perms| && CostPath(model, rank, perms[k]).Some? ==>
      CostPath(model, rank, perms[k]).value[|perms[k]|] == total
    requires Outcome(model, rank, perms) == Estimated(v)
    ensures SumOver(players, v) == total
  {
    var res := Tally(model, rank, perms).value;
    assert v == Average(res, |perms|);
    TallyTotal(model, rank, players, perms, total);
    AverageTotal(players, res, |perms|, total);
  }

  /** With a table and a ranking that tells players apart, every permutation ends at the grand coalition. */
  lemma {:induction false} SubsetFinals<P(!new)>(m: map<seq<P>, real>, rank: P -> real, players: seq<P>, perms: seq<seq<P>>)
    requires Injective(rank) && |players| >= 1
    requires forall k :: 0 <= k < |perms| ==> multiset(perms[k]) == multiset(players)
    ensures forall k :: 0 <= k < |perms| && CostPath(BySubset(m), rank, perms[k]).Some? ==>
      SortBy(players, rank) in m && CostPath(BySubset(m), rank, perms[k]).value[|perms[k]|] == m[SortBy(players, rank)]
  {
    forall k | 0 <= k < |perms| && CostPath(BySubset(m), rank, perms[k]).Some?
      ensures SortBy(players, rank) in m
      ensures CostPath(BySubset(m), rank, perms[k]).value[|perms[k]|] == m[SortBy(players, rank)]
    {
      assert |perms[k]| == |players| by {
        assert |multiset(perms[k])| == |multiset(players)|;
      }
      SubsetFinalCost(m, rank, perms[k]);
      ArrivalOrderIrrelevant(perms[k], players, rank);
    }
  }

  /**
   * Efficiency of the estimate when coalitions are priced by table and the
   * ranking tells players apart: the estimated values add up to the cost of
   * the grand coalition, whichever permutations were drawn.
   */
  lemma {:induction false} SubsetEfficiency<P(!new)>(m: map<seq<P>, real>, rank: P -> real, players: seq<P>, perms: seq<seq<P>>, v: map<P, real>)
    requires Injective(rank) && Distinct(players) && |players| >= 1 && |perms| >= 1
    requires forall k :: 0 <= k < |perms| ==> multiset(perms[k]) == multiset(players)
    requires Outcome(BySubset(m), rank, perms) == Estimated(v)
    ensures SortBy(players, rank) in m
    ensures SumOver(players, v) == m[SortBy(players, rank)]
  {
    TallyDefined(BySubset(m), rank, perms);
    assert CostPath(BySubset(m), rank, perms[0]).Some?;
    SubsetFinals(m, rank, players, perms);
    EstimateTotal(BySubset(m), rank, players, perms, v, m[SortBy(players, rank)]);
  }

  /** In the airport game every permutation ends at the largest cost. */
  lemma {:induction false} MaxFinals<P(!new)>(m: map<P, real>, rank: P -> real, players: seq<P>, perms: seq<seq<P>>)
    requires forall k :: 0 <= k < |perms| ==> multiset(perms[k]) == multiset(players)
    ensures forall k :: 0 <= k < |perms| && CostPath(ByMax(m), rank, perms[k]).Some? ==>
      CostPath(ByMax(m), rank, perms[k]).value[|perms[k]|] == MaxPath(CostsOf(players, m))[|players|]
  {
    forall k | 0 <= k < |perms| && CostPath(ByMax(m), rank, perms[k]).Some?
      ensures CostPath(ByMax(m), rank, perms[k]).value[|perms[k]|] == MaxPath(CostsOf(players, m))[|players|]
    {
      MaxCostPath(m, rank, perms[k]);
      SameMembers(perms[k], players);
      CostsOfSameMembers(perms[k], players, m);
      MaxPathSameMembers(CostsOf(perms[k], m), CostsOf(players, m));
    }
  }

  /**
   * Efficiency of the estimate in the airport game: the estimated values add
   * up to the largest player cost (0 when every cost is negative), whichever
   * permutations were drawn.
   */
  lemma {:induction false} MaxEfficiency<P(!new)>(m: map<P, real>, rank: P -> real, players: seq<P>, perms: seq<seq<P>>, v: map<P, real>)
    requires Distinct(players) && |perms| >= 1
    requires forall k :: 0 <= k < |perms| ==> multiset(perms[k]) == multiset(players)
    requires Outcome(ByMax(m), rank, perms) == Estimated(v)
    ensures SumOver(players, v) == MaxPath(CostsOf(players, m))[|players|]
  {
    MaxFinals(m, rank, players, perms);
    EstimateTotal(ByMax(m), rank, players, perms, v, MaxPath(CostsOf(players, m))[|players|]);
  }

  /** Nothing is recorded in an empty ledger. */
  lemma {:induction false} SumOverEmpty<P(!new)>(players: seq<P>)
    ensures SumOver(players, map[]) == 0.0
  {
    if players != [] {
      SumOverEmpty(players[..|players| - 1]);
    }
  }

  /** Divide every entry by n, in place, one key at a time. */
  method Mean<P(==, !new)>(res: map<P, real>, n: nat) returns (avg: map<P, real>)
    requires n >= 1
    ensures avg == Average(res, n)
  {
    avg := res;
    var keys := res.Keys;
    while keys != {}
      invariant keys <= res.Keys && avg.Keys == res.Keys
      invariant forall p :: p in res ==> avg[p] == if p in keys then res[p] else res[p] / (n as real)
      decreases |keys|
    {
      var p :| p in keys;
      avg := avg[p := avg[p] / (n as real)];
      keys := keys - {p};
    }
  }

  /**
   * The sampling estimate of the Shapley value over the given permutations of
   * allPlayers.
   */
  method Values<P(==, !new)>(allPlayers: seq<P>, rank: P -> real, model: CostModel<P>, perms: seq<seq<P>>)
    returns (out: Estimate<P>)
    requires forall k :: 0 <= k < |perms| ==> multiset(perms[k]) == multiset(allPlayers)
    ensures out == Outcome(model, rank, perms)
  {
    var res: map<P, real> := map[];
    for r := 0 to |perms|
      invariant Tally(model, rank, perms[..r]) == Some(res)
    {
      assert perms[..r + 1][..r] == perms[..r];
      var charged := ChargePermutation(model, rank, perms[r], res);
      if charged.None? {
        TallyFails(model, rank, perms, r + 1);
        return MissingCost;
      }
      res := charged.value;
    }
    assert perms[..|perms|] == perms;
    if |perms| == 0 {
      return Estimated(res);
    }
    var avg := Mean(res, |perms|);
    return Estimated(avg);
  }
  /** Player q has an estimate within tol times its true value. */
  predicate Close<P(!new)>(q: P, truth: map<P, real>, p: map<P, real>, tol: real)
    requires q in truth
  {
    q in p && Abs(p[q] - truth[q]) <= tol * truth[q]
  }

  /**
   * Whether every estimate is within tol times the true value. The players of
   * the true values are checked in their order, stopping at the first that is
   * not close; None when a player checked has no estimate (a missing key).
   */
  function IsClose<P(==, !new)>(order: seq<P>, truth: map<P, real>, p: map<P, real>, tol: real): (r: Option<bool>)
    requires forall q :: q in order ==> q in truth
  {
    if order == [] then Some(true)
    else
      var q := order[0];
      if q !in p then None
      else if Close(q, truth, p, tol) then IsClose(order[1..], truth, p, tol)
      else Some(false)
  }

  /** The estimate is close exactly when every player has an estimate within tolerance. */
  lemma {:induction false} IsCloseMeans<P(!new)>(order: seq<P>, truth: map<P, real>, p: map<P, real>, tol: real)
    requires forall q :: q in order ==> q in truth
    ensures IsClose(order, truth, p, tol) == Some(true) <==>
      forall k :: 0 <= k < |order| ==> Close(order[k], truth, p, tol)
  {
    if order != [] {
      var rest := order[1..];
      IsCloseMeans(rest, truth, p, tol);
      if Close(order[0], truth, p, tol) {
        assert IsClose(order, truth, p, tol) == IsClose(rest, truth, p, tol);
        if forall k :: 0 <= k < |rest| ==> Close(rest[k], truth, p, tol) {
          forall k | 0 <= k < |order| ensures Close(order[k], truth, p, tol) {
            if k > 0 {
              assert order[k] == rest[k - 1];
            }
          }
        } else {
          var k :| 0 <= k < |rest| && !Close(rest[k], truth, p, tol);
          assert order[k + 1] == rest[k];
        }
      } else {
        assert IsClose(order, truth, p, tol) != Some(true);
      }
    }
  }

  /** The tolerance is_close uses when none is given. */
  const DefaultTolerance: real := 0.01

  /**
   * Checking the players of the true values, each once and no other: the
   * estimate is close exactly when every player of the true values has an
   * estimate within the tolerance (DefaultTolerance unless another is given).
   */
  lemma {:induction false} IsCloseAll<P(!new)>(order: seq<P>, truth: map<P, real>, p: map<P, real>, tol: real)
    requires forall q :: q in order <==> q in truth
    ensures IsClose(order, truth, p, tol) == Some(true) <==>
      forall q :: q in truth ==> Close(q, truth, p, tol)
  {
    IsCloseMeans(order, truth, p, tol);
    if forall k :: 0 <= k < |order| ==> Close(order[k], truth, p, tol) {
      forall q | q in truth ensures Close(q, truth, p, tol) {
        var k :| 0 <= k < |order| && order[k] == q;
      }
    }
  }

  /**
   * The check fails on a player that is present but too far off, and has no
   * answer because of a player with no estimate, every earlier player passing.
   */
  lemma {:induction false} IsCloseStops<P(!new)>(order: seq<P>, truth: map<P, real>, p: map<P, real>, tol: real)
    requires forall q :: q in order ==> q in truth
    ensures IsClose(order, truth, p, tol) == Some(false) ==>
      exists k :: 0 <= k < |order| && order[k] in p && !Close(order[k], truth, p, tol)
    ensures IsClose(order, truth, p, tol) == None ==> exists k :: 0 <= k < |order| && order[k] !in p
  {
    if order != [] && Close(order[0], truth, p, tol) {
      var rest := order[1..];
      IsCloseStops(rest, truth, p, tol);
      if IsClose(rest, truth, p, tol) == Some(false) {
        var k :| 0 <= k < |rest| && rest[k] in p && !Close(rest[k], truth, p, tol);
        assert order[k + 1] == rest[k];
      } else if IsClose(rest, truth, p, tol) == None {
        var k :| 0 <= k < |rest| && rest[k] !in p;
        assert order[k + 1] == rest[k];
      }
    }
  }

  /** The true values are close to themselves when none is negative and the tolerance is not. */
  lemma {:induction false} IsCloseReflexive<P(!new)>(order: seq<P>, truth: map<P, real>, tol: real)
    requires forall q :: q in order ==> q in truth && truth[q] >= 0.0
    requires tol >= 0.0
    ensures IsClose(order, truth, truth, tol) == Some(true)
  {
    if order != [] {
      var q := order[0];
      assert Abs(truth[q] - truth[q]) == 0.0;
      assert tol * truth[q] >= 0.0;
      IsCloseReflexive(order[1..], truth, tol);
    }
  }
}
