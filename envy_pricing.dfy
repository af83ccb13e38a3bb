/**
 * Envy-graph rent pricing (week-4/q5.py, envy_free_room_allocation after the
 * room allocation is fixed). Player i values room r at v[i][r]; x[i] is the room
 * of player i. The envy of i for j's room is v[i][x[j]] - v[i][x[i]].
 *
 * Each player receives a grant equal to the heaviest envy path starting from it;
 * its price is minus its grant, and then every price is raised by the same
 * amount so that the prices add up to the rent.
 */
module EnvyPricing {
  import opened Sums
  import opened EnvyPaths

  /** Square valuations: as many rooms as players. */
  ghost predicate Square(v: seq<seq<real>>)
  {
    forall i :: 0 <= i < |v| ==> |v[i]| == |v|
  }

  /** x gives each of the n players a different room below n (a bijection). */
  ghost predicate IsAllocation(x: seq<nat>, n: nat)
  {
    && |x| == n
    && (forall i :: 0 <= i < n ==> x[i] < n)
    && (forall i, j :: 0 <= i < j < n ==> x[i] != x[j])
  }

  ghost predicate WellFormed(v: seq<seq<real>>, x: seq<nat>)
  {
    Square(v) && IsAllocation(x, |v|)
  }

  /** How much more i values j's room than its own. */
  function Envy(v: seq<seq<real>>, x: seq<nat>, i: nat, j: nat): real
    requires WellFormed(v, x) && i < |v| && j < |v|
  {
    v[i][x[j]] - v[i][x[i]]
  }

  /** g has an edge i -> j weighted by i's envy of j for every ordered pair of distinct players, and no other edge. */
  ghost predicate IsEnvyGraph(g: Graph, v: seq<seq<real>>, x: seq<nat>)
    requires WellFormed(v, x)
  {
    Complete(g, |v|) && forall i: nat, j: nat :: i < |v| && j < |v| && i != j ==> g[(i, j)] == Envy(v, x, i, j)
  }

  /** The edges i -> j for every j < m other than i. */
  ghost function RowEdges(v: seq<seq<real>>, x: seq<nat>, i: nat, m: nat): (row: Graph)
    requires WellFormed(v, x) && i < |v| && m <= |v|
    ensures forall e :: e in row <==> e.0 == i && e.1 < m && e.1 != i
    ensures forall e :: e in row ==> row[e] == Envy(v, x, e.0, e.1)
  {
    if m == 0 then map[]
    else if m - 1 == i then RowEdges(v, x, i, m - 1)
    else RowEdges(v, x, i, m - 1)[(i, m - 1) := Envy(v, x, i, m - 1)]
  }

  /** The edges out of every player below m. */
  ghost function EdgesFrom(v: seq<seq<real>>, x: seq<nat>, m: nat): (g: Graph)
    requires WellFormed(v, x) && m <= |v|
    ensures forall e :: e in g <==> e.0 < m && e.1 < |v| && e.1 != e.0
    ensures forall e :: e in g ==> g[e] == Envy(v, x, e.0, e.1)
  {
    if m == 0 then map[] else EdgesFrom(v, x, m - 1) + RowEdges(v, x, m - 1, |v|)
  }

  /** The envy graph of an allocation. */
  ghost function EnvyGraph(v: seq<seq<real>>, x: seq<nat>): (g: Graph)
    requires WellFormed(v, x)
    ensures IsEnvyGraph(g, v, x)
  {
    EdgesFrom(v, x, |v|)
  }

  /** Two graphs that both carry the envy of every ordered pair are the same graph. */
  lemma {:induction false} EnvyGraphUnique(g: Graph, h: Graph, v: seq<seq<real>>, x: seq<nat>)
    requires WellFormed(v, x) && IsEnvyGraph(g, v, x) && IsEnvyGraph(h, v, x)
    ensures g == h
  {
    forall e | e in g ensures g[e] == h[e] {
      assert e.0 < |v| && e.1 < |v| && e.0 != e.1;
    }
  }

  /**
   * The players a graph built only by adding edges knows about: the tails of
   * its edges (every edge is added together with its reverse).
   */
  ghost function NodesOf(g: Graph): set<nat>
  {
    set e | e in g :: e.0
  }

  /**
   * As written, the heaviest paths are computed for the graph's nodes only and
   * only they get a price. With one player no pair is formed, the graph has no
   * nodes, and player 0 is left without a price.
   */
  lemma {:induction false} SinglePlayerUnpriced(g: Graph, v: seq<seq<real>>, x: seq<nat>)
    requires WellFormed(v, x) && IsEnvyGraph(g, v, x) && |v| == 1
    ensures NodesOf(g) == {}
  {
    assert Complete(g, 1);
    assert forall e :: e in g ==> e.0 < 1 && e.1 < 1 && e.0 != e.1;
    assert g.Keys == {};
  }

  /** With two players or more, every player is a node of the envy graph, and nothing else is. */
  lemma {:induction false} EnvyGraphNodes(g: Graph, v: seq<seq<real>>, x: seq<nat>)
    requires WellFormed(v, x) && IsEnvyGraph(g, v, x) && |v| >= 2
    ensures forall i: nat :: i in NodesOf(g) <==> i < |v|
  {
    forall i: nat | i < |v| ensures i in NodesOf(g) {
      var j: nat := if i == 0 then 1 else 0;
      var e: (nat, nat) := (i, j);
      assert e in g;
    }
    forall i | i in NodesOf(g) ensures i < |v| {
      var e :| e in g && e.0 == i;
    }
  }

  /**
   * Neither player envies the other's room at these prices: the inequality
   * v[i][x[i]] - p[i] >= v[i][x[j]] - p[j] for every ordered pair.
   */
  ghost predicate EnvyFree(v: seq<seq<real>>, x: seq<nat>, p: seq<real>)
    requires WellFormed(v, x) && |p| == |v|
  {
    forall i, j :: 0 <= i < |v| && 0 <= j < |v| ==> v[i][x[i]] - p[i] >= v[i][x[j]] - p[j]
  }

  /** Edges added so far when the pair loop is at (i, j): pairs lo < hi before (i, j) in combination order. */
  ghost predicate Added(n: nat, i: nat, j: nat, e: (nat, nat))
  {
    var lo, hi := if e.0 < e.1 then e.0 else e.1, if e.0 < e.1 then e.1 else e.0;
    e.0 < n && e.1 < n && e.0 != e.1 && (lo < i || (lo == i && hi < j))
  }

  /**
   * Build the envy graph pair by pair (every unordered pair i < j once, in
   * combination order), adding both directed edges of each pair.
   */
  method BuildEnvyGraph(v: seq<seq<real>>, x: seq<nat>) returns (g: Graph)
    requires WellFormed(v, x)
    ensures IsEnvyGraph(g, v, x)
  {
    var n := |v|;
    g := map[];
    for i := 0 to n
      invariant forall e :: e in g <==> Added(n, i, i + 1, e)
      invariant EnvyEdges(g, v, x)
    {
      g := AddRow(v, x, i, g);
      AddedRow(n, i);
    }
    AddedAll(n);
  }

  /** Every edge of g joins two players and carries the envy of its tail for its head. */
  ghost predicate EnvyEdges(g: Graph, v: seq<seq<real>>, x: seq<nat>)
    requires WellFormed(v, x)
  {
    forall e :: e in g ==> e.0 < |v| && e.1 < |v| && g[e] == Envy(v, x, e.0, e.1)
  }

  /** The inner loop for player i: add the pairs (i, j) for every later player j. */
  method AddRow(v: seq<seq<real>>, x: seq<nat>, i: nat, g: Graph) returns (g': Graph)
    requires WellFormed(v, x) && i < |v|
    requires forall e :: e in g <==> Added(|v|, i, i + 1, e)
    requires EnvyEdges(g, v, x)
    ensures forall e :: e in g' <==> Added(|v|, i, |v|, e)
    ensures EnvyEdges(g', v, x)
  {
    var n := |v|;
    g' := g;
    for j := i + 1 to n
      invariant forall e :: e in g' <==> Added(n, i, j, e)
      invariant EnvyEdges(g', v, x)
    {
      var xi, xj := x[i], x[j];
      var iEnvy, jEnvy := v[i][xj] - v[i][xi], v[j][xi] - v[j][xj];
      AddPairStep(g', v, x, i, j, iEnvy, jEnvy);
      g' := g'[(i, j) := iEnvy][(j, i) := jEnvy];
    }
  }

  /** Adding both edges of the pair (i, j) keeps the edges right and moves the loop to (i, j + 1). */
  lemma {:induction false} AddPairStep(g: Graph, v: seq<seq<real>>, x: seq<nat>, i: nat, j: nat, iEnvy: real, jEnvy: real)
    requires WellFormed(v, x) && i < j < |v|
    requires iEnvy == Envy(v, x, i, j) && jEnvy == Envy(v, x, j, i)
    requires forall e :: e in g <==> Added(|v|, i, j, e)
    requires EnvyEdges(g, v, x)
    ensures var g' := g[(i, j) := iEnvy][(j, i) := jEnvy];
      (forall e :: e in g' <==> Added(|v|, i, j + 1, e)) && EnvyEdges(g', v, x)
  {
    AddedPair(|v|, i, j);
  }

  /** Adding the pair (i, j) moves the loop from (i, j) to (i, j + 1). */
  lemma {:induction false} AddedPair(n: nat, i: nat, j: nat)
    requires i < j < n
    ensures forall e: (nat, nat) :: Added(n, i, j + 1, e) <==> Added(n, i, j, e) || e == (i, j) || e == (j, i)
  {
  }

  /** Finishing row i is starting row i + 1. */
  lemma {:induction false} AddedRow(n: nat, i: nat)
    requires i < n
    ensures forall e: (nat, nat) :: Added(n, i, n, e) <==> Added(n, i + 1, i + 2, e)
  {
  }

  /** After the last row every ordered pair of distinct players has been added. */
  lemma {:induction false} AddedAll(n: nat)
    ensures forall e: (nat, nat) :: Added(n, n, n + 1, e) <==> e.0 < n && e.1 < n && e.0 != e.1
  {
  }

  /** One relaxation round: for every player, the best of staying put and every edge followed by the previous round's value. */
  method RelaxRound(g: Graph, n: nat, prev: seq<real>) returns (next: seq<real>)
    requires Complete(g, n) && |prev| == n
    ensures next == Round(g, n, prev)
  {
    next := [];
    for i := 0 to n
      invariant next == Round(g, n, prev)[..i]
    {
      var best := 0.0;
      for j := 0 to n
        invariant best == Relax(g, n, prev, i, j)
      {
        if j != i && g[(i, j)] + prev[j] > best {
          best := g[(i, j)] + prev[j];
        }
      }
      next := next + [best];
    }
  }

  /**
   * The heaviest envy path from every player (n - 1 rounds of relaxation), and
   * whether it is bounded: one extra round that still raises some value
   * reveals a cycle of positive envy, where the original's shortest-path
   * routine raises an error.
   */
  method HeaviestEnvyPaths(g: Graph, n: nat) returns (grants: seq<real>, bounded: bool)
    requires Complete(g, n) && n >= 1
    ensures grants == Grants(g, n, n - 1)
    ensures bounded <==> NoPositiveCycle(g)
  {
    grants := seq(n, _ => 0.0);
    for k := 0 to n - 1
      invariant grants == Grants(g, n, k)
    {
      grants := RelaxRound(g, n, grants);
    }
    var extra := RelaxRound(g, n, grants);
    bounded := true;
    for i := 0 to n
      invariant bounded <==> forall k :: 0 <= k < i ==> extra[k] <= grants[k]
    {
      if extra[i] > grants[i] {
        bounded := false;
      }
    }
    assert extra == Grants(g, n, n);
    StableIffNoPositiveCycle(g, n);
  }

  datatype Pricing = Priced(prices: seq<real>) | NoPlayers | UnboundedEnvy

  /**
   * Price the rooms of a fixed allocation: grants from the heaviest envy paths,
   * provisional prices minus the grants, then one common shift
   * (total grants + rent) / n. With no players the shift would divide by zero;
   * with a cycle of positive envy the heaviest paths do not exist.
   */
  method EnvyFreeRoomPricing(v: seq<seq<real>>, x: seq<nat>, rent: real) returns (r: Pricing)
    requires WellFormed(v, x)
    ensures r == NoPlayers <==> |v| == 0
    ensures |v| >= 1 ==> (r == UnboundedEnvy <==> !NoPositiveCycle(EnvyGraph(v, x)))
    ensures r.Priced? ==> |r.prices| == |v| && Sum(r.prices) == rent && EnvyFree(v, x, r.prices)
    ensures r.Priced? ==> ShiftedGrants(r.prices, Grants(EnvyGraph(v, x), |v|, |v| - 1), rent)
  {
    var n := |v|;
    if n == 0 {
      return NoPlayers;
    }
    var g := BuildEnvyGraph(v, x);
    EnvyGraphUnique(g, EnvyGraph(v, x), v, x);
    var grants, bounded := HeaviestEnvyPaths(g, n);
    if !bounded {
      return UnboundedEnvy;
    }
    var prices := GrantPricing(grants, rent);
    GrantPricesEnvyFree(g, v, x, prices, (Sum(grants) + rent) / (n as real));
    return Priced(prices);
  }

  /** Each price is minus the player's grant plus the common shift (total grants + rent) / n. */
  ghost predicate ShiftedGrants(prices: seq<real>, grants: seq<real>, rent: real)
  {
    && |prices| == |grants| >= 1
    && forall i :: 0 <= i < |grants| ==> prices[i] == -grants[i] + (Sum(grants) + rent) / (|grants| as real)
  }

  /**
   * Turn grants into prices: each player's provisional price is minus its grant,
   * then every price is raised by (total grants + rent) / n, so that the prices
   * add up to the rent.
   */
  method GrantPricing(grants: seq<real>, rent: real) returns (pricing: seq<real>)
    requires |grants| >= 1
    ensures ShiftedGrants(pricing, grants, rent)
    ensures Sum(pricing) == rent
  {
    var n := |grants|;
    pricing := [];
    var totalGrants := 0.0;
    for player := 0 to n
      invariant |pricing| == player
      invariant forall k :: 0 <= k < player ==> pricing[k] == -grants[k]
      invariant totalGrants == Sum(grants[..player])
    {
      pricing := pricing + [-grants[player]];
      SumPrefix(grants, player);
      totalGrants := totalGrants + grants[player];
    }
    assert grants[..n] == grants;
    var priceForAll := (totalGrants + rent) / (n as real);
    for player := 0 to n
      invariant |pricing| == n
      invariant forall k :: 0 <= k < player ==> pricing[k] == -grants[k] + priceForAll
      invariant forall k :: player <= k < n ==> pricing[k] == -grants[k]
    {
      pricing := pricing[player := pricing[player] + priceForAll];
    }
    ShiftedGrantsBalanced(grants, pricing, rent, priceForAll);
  }

  /** Minus the grants, shifted by c = (total grants + rent) / n, add up to the rent. */
  lemma {:induction false} ShiftedGrantsBalanced(grants: seq<real>, prices: seq<real>, rent: real, c: real)
    requires |grants| == |prices| >= 1
    requires c == (Sum(grants) + rent) / (|grants| as real)
    requires forall k :: 0 <= k < |grants| ==> prices[k] == -grants[k] + c
    ensures Sum(prices) == rent
  {
    ShiftedSum(grants, prices, c);
    RentBalance(Sum(grants), rent, |grants| as real, c);
  }

  /** Minus the grants, each shifted by c, add up to minus their total plus n copies of c. */
  lemma {:induction false} ShiftedSum(grants: seq<real>, prices: seq<real>, c: real)
    requires |grants| == |prices|
    requires forall k :: 0 <= k < |grants| ==> prices[k] == -grants[k] + c
    ensures Sum(prices) == -Sum(grants) + (|grants| as real) * c
  {
    if grants != [] {
      var n := |grants| - 1;
      ShiftedSum(grants[..n], prices[..n], c);
    }
  }

  /** n copies of (s + rent) / n, less s, leave the rent. */
  lemma {:induction false} RentBalance(s: real, rent: real, n: real, c: real)
    requires n != 0.0 && c == (s + rent) / n
    ensures -s + n * c == rent
  {
    CancelDivision(s + rent, n);
  }

  /**
   * The grant of i covers its envy of any other player j plus j's grant, when no
   * envy cycle is positive (the heaviest-path triangle inequality).
   */
  lemma {:induction false} GrantsTriangle(g: Graph, v: seq<seq<real>>, x: seq<nat>, i: nat, j: nat)
    requires WellFormed(v, x) && IsEnvyGraph(g, v, x) && NoPositiveCycle(g)
    requires i < |v| && j < |v| && i != j
    ensures Grants(g, |v|, |v| - 1)[i] >= Envy(v, x, i, j) + Grants(g, |v|, |v| - 1)[j]
  {
    StableIffNoPositiveCycle(g, |v|);
    StableCovers(g, |v|, i, j);
  }

  /**
   * Prices that are minus the grants plus one common shift c are envy-free when
   * there is no positive envy cycle.
   */
  lemma {:induction false} GrantPricesEnvyFree(g: Graph, v: seq<seq<real>>, x: seq<nat>, prices: seq<real>, c: real)
    requires WellFormed(v, x) && IsEnvyGraph(g, v, x) && NoPositiveCycle(g)
    requires |v| >= 1 && |prices| == |v|
    requires forall k :: 0 <= k < |v| ==> prices[k] == -Grants(g, |v|, |v| - 1)[k] + c
    ensures EnvyFree(v, x, prices)
  {
    var n := |v|;
    forall i, j | 0 <= i < n && 0 <= j < n ensures v[i][x[i]] - prices[i] >= v[i][x[j]] - prices[j] {
      if i != j {
        GrantsTriangle(g, v, x, i, j);
      }
    }
  }

  /** Shifting every price by the same amount keeps every envy inequality. */
  lemma {:induction false} UniformShiftKeepsEnvyFree(v: seq<seq<real>>, x: seq<nat>, p: seq<real>, q: seq<real>, c: real)
    requires WellFormed(v, x) && |p| == |v| && |q| == |v|
    requires forall k :: 0 <= k < |v| ==> q[k] == p[k] + c
    ensures EnvyFree(v, x, p) <==> EnvyFree(v, x, q)
  {
  }

  /** A graph on one player has no edges, so it has no cycle at all. */
  lemma {:induction false} SinglePlayerNoCycle(g: Graph, v: seq<seq<real>>, x: seq<nat>)
    requires WellFormed(v, x) && IsEnvyGraph(g, v, x) && |v| == 1
    ensures NoPositiveCycle(g)
  {
    assert forall e :: e in g ==> e.0 < 1 && e.1 < 1 && e.0 != e.1;
    assert g == map[];
  }

  /** A lone player is priced at the whole rent. */
  method SinglePlayerPricing(v: seq<seq<real>>, x: seq<nat>, rent: real) returns (r: Pricing)
    requires WellFormed(v, x) && |v| == 1
    ensures r == Priced([rent])
  {
    SinglePlayerNoCycle(EnvyGraph(v, x), v, x);
    r := EnvyFreeRoomPricing(v, x, rent);
    assert r.Priced?;
    assert r.prices == [r.prices[0]];
    SumSingle(r.prices[0]);
  }

  /** In the instance [[150, 0], [140, 10]] with rooms {0: 0, 1: 1}, player 1 envies player 0 by 130. */
  lemma {:induction false} DemoEnvy()
    ensures var g := EnvyGraph([[150.0, 0.0], [140.0, 10.0]], [0, 1]);
      (0, 1) in g && (1, 0) in g && g[(0, 1)] == -150.0 && g[(1, 0)] == 130.0
  {
  }

  /** The heaviest envy paths of that instance grant 0 and 130, and a further round changes nothing. */
  lemma {:induction false} DemoGrants()
    ensures var g := EnvyGraph([[150.0, 0.0], [140.0, 10.0]], [0, 1]);
      Grants(g, 2, 1) == [0.0, 130.0] && NoPositiveCycle(g)
  {
    var g := EnvyGraph([[150.0, 0.0], [140.0, 10.0]], [0, 1]);
    DemoEnvy();
    assert Grants(g, 2, 0) == [0.0, 0.0];
    assert Grants(g, 2, 1) == [0.0, 130.0] by {
      assert Relax(g, 2, [0.0, 0.0], 0, 1) == 0.0;
      assert Relax(g, 2, [0.0, 0.0], 0, 2) == 0.0;
      assert Relax(g, 2, [0.0, 0.0], 1, 1) == 130.0;
      assert Relax(g, 2, [0.0, 0.0], 1, 2) == 130.0;
    }
    assert Grants(g, 2, 2) == [0.0, 130.0] by {
      assert Relax(g, 2, [0.0, 130.0], 0, 1) == 0.0;
      assert Relax(g, 2, [0.0, 130.0], 0, 2) == 0.0;
      assert Relax(g, 2, [0.0, 130.0], 1, 1) == 130.0;
      assert Relax(g, 2, [0.0, 130.0], 1, 2) == 130.0;
    }
    StableIffNoPositiveCycle(g, 2);
  }

  /** The instance [[150, 0], [140, 10]] with rent 130 and rooms {0: 0, 1: 1} is priced 130 and 0. */
  method DemoPricing() returns (r: Pricing)
    ensures r == Priced([130.0, 0.0])
  {
    DemoGrants();
    r := EnvyFreeRoomPricing([[150.0, 0.0], [140.0, 10.0]], [0, 1], 130.0);
    assert Sum([0.0, 130.0]) == 130.0 by {
      SumFront([0.0, 130.0]);
      SumSingle(130.0);
      assert [0.0, 130.0][1..] == [130.0];
    }
    assert r.prices == [130.0, 0.0];
  }
}
