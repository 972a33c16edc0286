/** Slot-wise crossover (crossover): each child slot copies the route of one
    parent, drops trailing clients until the route fits, and the child is
    then repaired. */
module Crossover {
  import opened Routes
  import Evaluation
  import Repair

  /** The longest prefix of `route` whose load is within capacity, or the
      empty route when none is. */
  function FitPrefix(route: Route, demands: seq<int>, capacity: int): (r: Route)
    ensures r <= route
    ensures r == [] || Load(r, demands) <= capacity
    ensures forall m :: |r| < m <= |route| ==> Load(route[..m], demands) > capacity
    decreases |route|
  {
    if route == [] || Load(route, demands) <= capacity then route
    else
      var r := FitPrefix(route[..|route| - 1], demands, capacity);
      assert forall m :: |r| < m < |route| ==> route[..m] == route[..|route| - 1][..m];
      assert route[..|route|] == route;
      r
  }

  /** The `while route_demand > vehicle_capacity and route: route.pop()`
      loop of genetic_algorithm.py:70-73 (and 80-83). */
  method TruncateToCapacity(route: Route, demands: seq<int>, capacity: int) returns (r: Route)
    ensures r == FitPrefix(route, demands, capacity)
  {
    r := route;
    var routeDemand := Load(r, demands);
    while routeDemand > capacity && r != []
      invariant r <= route && routeDemand == Load(r, demands)
      invariant FitPrefix(r, demands, capacity) == FitPrefix(route, demands, capacity)
      decreases |r|
    {
      r := r[..|r| - 1];
      routeDemand := Load(r, demands);
    }
  }

  /** The coin drawn for slot `i`; a slot past the end of the draws reads
      as a draw of at least one half. */
  function Coin(coins: seq<bool>, i: nat): (r: bool)
    ensures i >= |coins| ==> !r
  {
    i < |coins| && coins[i]
  }

  /** The route a child takes into slot `i` before truncation
      (genetic_algorithm.py:66-69): `own`'s route when only `own` has the
      slot or the coin falls below one half, otherwise `other`'s route, or
      nothing when neither parent has the slot. */
  function SlotRoute(own: Individual, other: Individual, i: nat, coin: bool): (r: Route)
    ensures i < |own| && (i >= |other| || coin) ==> r == own[i]
    ensures i < |other| && (i >= |own| || !coin) ==> r == other[i]
    ensures i >= |own| && i >= |other| ==> r == []
  {
    if i < |own| && (i >= |other| || coin) then own[i]
    else if i < |other| then other[i]
    else []
  }

  /** A child before repair. The first child is `Recombine(p1, p2, ...)`,
      the second `Recombine(p2, p1, ...)`: its coins decide for `p2`. Every
      slot is the fitting prefix of the route one of the parents has in that
      slot; the coin decides only where both parents have it. */
  function Recombine(own: Individual, other: Individual, coins: seq<bool>, demands: seq<int>, capacity: int): (r: Individual)
    ensures |r| == if |own| >= |other| then |own| else |other|
    ensures forall i :: 0 <= i < |r| ==>
      (i < |own| && r[i] == FitPrefix(own[i], demands, capacity)) ||
      (i < |other| && r[i] == FitPrefix(other[i], demands, capacity))
    ensures forall i :: |other| <= i < |own| ==> r[i] == FitPrefix(own[i], demands, capacity)
    ensures forall i :: |own| <= i < |other| ==> r[i] == FitPrefix(other[i], demands, capacity)
  {
    var n := if |own| >= |other| then |own| else |other|;
    seq(n, i requires 0 <= i < n => FitPrefix(SlotRoute(own, other, i, Coin(coins, i)), demands, capacity))
  }

  /** crossover (genetic_algorithm.py:60-88). `coins1[i]` and `coins2[i]`
      are the draws `random.random() < 0.5` for the two children at slot
      `i`; `order1` and `order2` are the orders in which the repair meets
      the children's missing clients. */
  method Cross(parent1: Individual, parent2: Individual, demands: seq<int>, capacity: int,
               coins1: seq<bool>, coins2: seq<bool>, order1: seq<Client>, order2: seq<Client>)
    returns (child1: Individual, child2: Individual)
    requires InRange(parent1, |demands|) && InRange(parent2, |demands|)
    requires IsEnumeration(order1, |demands|) && IsEnumeration(order2, |demands|)
    ensures InRange(Recombine(parent1, parent2, coins1, demands, capacity), |demands|)
    ensures InRange(Recombine(parent2, parent1, coins2, demands, capacity), |demands|)
    ensures child1 == Repair.Repaired(Recombine(parent1, parent2, coins1, demands, capacity), demands, capacity, order1)
    ensures child2 == Repair.Repaired(Recombine(parent2, parent1, coins2, demands, capacity), demands, capacity, order2)
    ensures InRange(child1, |demands|) && InRange(child2, |demands|)
  {
    var c1, c2 := Recombination(parent1, parent2, demands, capacity, coins1, coins2);
    RecombineInRange(parent1, parent2, coins1, demands, capacity);
    RecombineInRange(parent2, parent1, coins2, demands, capacity);
    child1 := Repair.EnsureAllClients(c1, demands, capacity, order1);
    child2 := Repair.EnsureAllClients(c2, demands, capacity, order2);
  }

  /** The loop of lines 64-83: both children filled slot by slot, each slot
      truncated in place. */
  method Recombination(parent1: Individual, parent2: Individual, demands: seq<int>, capacity: int,
                       coins1: seq<bool>, coins2: seq<bool>)
    returns (c1: Individual, c2: Individual)
    ensures c1 == Recombine(parent1, parent2, coins1, demands, capacity)
    ensures c2 == Recombine(parent2, parent1, coins2, demands, capacity)
  {
    var numVehicles := if |parent1| >= |parent2| then |parent1| else |parent2|;
    c1 := EmptyRoutes(numVehicles);
    c2 := EmptyRoutes(numVehicles);
    ghost var pre1 := Recombine(parent1, parent2, coins1, demands, capacity);
    ghost var pre2 := Recombine(parent2, parent1, coins2, demands, capacity);
    for i := 0 to numVehicles
      invariant |c1| == numVehicles && |c2| == numVehicles
      invariant forall j :: 0 <= j < i ==> c1[j] == pre1[j] && c2[j] == pre2[j]
    {
      var route: Route;
      if i < |parent1| && (i >= |parent2| || Coin(coins1, i)) {
        route := parent1[i];
      } else {
        route := if i < |parent2| then parent2[i] else [];
      }
      route := TruncateToCapacity(route, demands, capacity);
      c1 := c1[i := route];

      if i < |parent2| && (i >= |parent1| || Coin(coins2, i)) {
        route := parent2[i];
      } else {
        route := if i < |parent1| then parent1[i] else [];
      }
      route := TruncateToCapacity(route, demands, capacity);
      c2 := c2[i := route];
    }
  }

  // ---------------------------------------------------------------------
  // What a child is made of.

  /** A child only visits clients its parents visit in the same slot, so a
      child of in-range parents visits only client indices. */
  lemma RecombineInRange(own: Individual, other: Individual, coins: seq<bool>, demands: seq<int>, capacity: int)
    requires InRange(own, |demands|) && InRange(other, |demands|)
    ensures var r := Recombine(own, other, coins, demands, capacity);
      forall i, j :: 0 <= i < |r| && 0 <= j < |r[i]| ==>
        (i < |own| && r[i][j] in own[i]) || (i < |other| && r[i][j] in other[i])
    ensures InRange(Recombine(own, other, coins, demands, capacity), |demands|)
  {
    var r := Recombine(own, other, coins, demands, capacity);
    forall i, j | 0 <= i < |r| && 0 <= j < |r[i]|
      ensures (i < |own| && r[i][j] in own[i]) || (i < |other| && r[i][j] in other[i])
      ensures r[i][j] < |demands|
    {
      var source := SlotRoute(own, other, i, Coin(coins, i));
      assert r[i] <= source;
      assert r[i][j] == source[j];
    }
  }

  /** Before repair every child route is within capacity (or empty). */
  lemma RecombineWithinCapacity(own: Individual, other: Individual, coins: seq<bool>, demands: seq<int>, capacity: int)
    requires capacity >= 0
    ensures Evaluation.WithinCapacity(Recombine(own, other, coins, demands, capacity), demands, capacity)
  {
    var r := Recombine(own, other, coins, demands, capacity);
    forall i | 0 <= i < |r| ensures Load(r[i], demands) <= capacity {
      if r[i] == [] {
        assert Load(r[i], demands) == 0;
      }
    }
  }

  /** Both children have as many routes as the longer parent and, for a
      capacity that is not negative, every route is within capacity. */
  lemma ChildrenShape(parent1: Individual, parent2: Individual, demands: seq<int>, capacity: int,
                      coins: seq<bool>, order: seq<Client>)
    requires InRange(parent1, |demands|) && InRange(parent2, |demands|)
    requires IsEnumeration(order, |demands|)
    ensures InRange(Recombine(parent1, parent2, coins, demands, capacity), |demands|)
    ensures var child := Repair.Repaired(Recombine(parent1, parent2, coins, demands, capacity), demands, capacity, order);
      |child| == (if |parent1| >= |parent2| then |parent1| else |parent2|) && InRange(child, |demands|) &&
      (capacity >= 0 ==> Evaluation.WithinCapacity(child, demands, capacity))
  {
    RecombineInRange(parent1, parent2, coins, demands, capacity);
    var pre := Recombine(parent1, parent2, coins, demands, capacity);
    Repair.RepairedCapacity(pre, demands, capacity, order);
    if capacity >= 0 {
      RecombineWithinCapacity(parent1, parent2, coins, demands, capacity);
    }
  }
}
