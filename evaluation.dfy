/** Fitness evaluation (calculate_fitness): the total length of all routes, or
    the infeasibility sentinel when a route is over capacity or a client is
    left unserved. */
module Evaluation {
  import opened Routes

  /** A square matrix of distances over the depot (row 0) and the clients
      (row c + 1 for client c). */
  predicate IsDistanceMatrix(dist: seq<seq<real>>, size: nat) {
    |dist| == size && forall i :: 0 <= i < size ==> |dist[i]| == size
  }

  /** Every distance is nonnegative, as in the Euclidean matrix built by the
      driver. */
  predicate NonNegativeDistances(dist: seq<seq<real>>, size: nat)
    requires IsDistanceMatrix(dist, size)
  {
    forall i, j :: 0 <= i < size && 0 <= j < size ==> dist[i][j] >= 0.0
  }

  // ---------------------------------------------------------------------
  // The evaluation as the source performs it: one pass over the routes,
  // accumulating the distance and the set of attended clients.
  // ---------------------------------------------------------------------

  /** The inner loop over one route: from matrix row `prev`, walk to each
      visit that names a client, adding each leg to `total` and each client to
      `attended`. Gives the new total, the last row reached, and the new set. */
  function Walk(route: Route, n: nat, dist: seq<seq<real>>, prev: nat, total: real, attended: set<Client>)
    : (r: (real, nat, set<Client>))
    requires IsDistanceMatrix(dist, n + 1) && prev <= n
    ensures r.1 <= n
  {
    if route == [] then (total, prev, attended)
    else if route[0] < n then
      Walk(route[1..], n, dist, route[0] + 1, total + dist[prev][route[0] + 1], attended + {route[0]})
    else
      Walk(route[1..], n, dist, prev, total, attended)
  }

  /** The outer loop over the routes (genetic_algorithm.py:39-52). */
  function Scan(routes: Individual, demands: seq<int>, capacity: int, dist: seq<seq<real>>,
                total: real, attended: set<Client>): (r: Fitness)
    requires IsDistanceMatrix(dist, |demands| + 1)
    ensures r.Dist? ==> WithinCapacity(routes, demands, capacity)
  {
    if routes == [] then
      if |attended| != |demands| then Infeasible else Dist(total)
    else if Load(routes[0], demands) > capacity then Infeasible
    else
      var w := Walk(routes[0], |demands|, dist, 0, total, attended);
      Scan(routes[1..], demands, capacity, dist, w.0 + dist[w.1][0], w.2)
  }

  /** calculate_fitness: `demands[c]` is the demand of client c, `dist` the
      distance matrix. The depot position is not used by the source. */
  function Evaluate(ind: Individual, demands: seq<int>, capacity: int, dist: seq<seq<real>>): (r: Fitness)
    requires IsDistanceMatrix(dist, |demands| + 1)
    ensures r.Dist? ==> WithinCapacity(ind, demands, capacity)
  {
    Scan(ind, demands, capacity, dist, 0.0, {})
  }

  // ---------------------------------------------------------------------
  // Reference definitions: what the evaluation is meant to compute.
  // ---------------------------------------------------------------------

  /** Matrix rows of the visits of a route that name a client, in order. */
  function Stops(route: Route, n: nat): (r: seq<nat>)
    ensures forall k :: 0 <= k < |r| ==> 1 <= r[k] <= n
  {
    if route == [] then []
    else (if route[0] < n then [route[0] + 1] else []) + Stops(route[1..], n)
  }

  /** Length of the trip from matrix row `prev` through the rows `stops` in
      order and back to the depot (row 0). */
  function Tour(prev: nat, stops: seq<nat>, dist: seq<seq<real>>, n: nat): real
    requires IsDistanceMatrix(dist, n + 1) && prev <= n
    requires forall k :: 0 <= k < |stops| ==> 1 <= stops[k] <= n
    decreases |stops|
  {
    if stops == [] then dist[prev][0] else dist[prev][stops[0]] + Tour(stops[0], stops[1..], dist, n)
  }

  /** Length of the tour depot -> each client of the route in order -> depot. */
  function RouteLength(route: Route, n: nat, dist: seq<seq<real>>): real
    requires IsDistanceMatrix(dist, n + 1)
  {
    Tour(0, Stops(route, n), dist, n)
  }

  /** Total length of all the routes of an individual. */
  function TotalLength(ind: Individual, n: nat, dist: seq<seq<real>>): real
    requires IsDistanceMatrix(dist, n + 1)
  {
    if ind == [] then 0.0 else RouteLength(ind[0], n, dist) + TotalLength(ind[1..], n, dist)
  }

  /** The clients `0..n-1`. */
  function AllClients(n: nat): (r: set<Client>)
    ensures forall c: Client :: c in r <==> c < n
  {
    if n == 0 then {} else AllClients(n - 1) + {n - 1}
  }

  /** Clients of `0..n-1` that a route visits. */
  function ClientsOf(route: Route, n: nat): set<Client> {
    set c | c in route && c < n
  }

  /** Clients of `0..n-1` that some route visits. */
  function Visited(ind: Individual, n: nat): set<Client> {
    if ind == [] then {} else ClientsOf(ind[0], n) + Visited(ind[1..], n)
  }

  lemma {:induction false} VisitedMeaning(ind: Individual, n: nat, c: Client)
    ensures c in Visited(ind, n) <==> c < n && Serves(ind, c)
  {
    if ind != [] {
      VisitedMeaning(ind[1..], n, c);
      if Serves(ind, c) {
        var i :| 0 <= i < |ind| && c in ind[i];
        if i > 0 { assert c in ind[1..][i - 1]; }
      }
      if Serves(ind[1..], c) {
        var i :| 0 <= i < |ind[1..]| && c in ind[1..][i];
        assert c in ind[i + 1];
      }
    }
  }

  /** Every route within capacity and every client served: the feasibility the
      sentinel stands for. */
  predicate Feasible(ind: Individual, demands: seq<int>, capacity: int) {
    WithinCapacity(ind, demands, capacity) && ServesAll(ind, |demands|)
  }

  /** No route carries more than the vehicle capacity. */
  predicate WithinCapacity(ind: Individual, demands: seq<int>, capacity: int) {
    forall i :: 0 <= i < |ind| ==> Load(ind[i], demands) <= capacity
  }

  /** Every client `0..n-1` is on some route. */
  predicate ServesAll(ind: Individual, n: nat) {
    forall c :: 0 <= c < n ==> Serves(ind, c)
  }

  // ---------------------------------------------------------------------
  // The evaluation computes the reference definitions.
  // ---------------------------------------------------------------------

  /** The inner loop, followed by the leg back to the depot, adds the tour
      from `prev` through the route's clients. */
  lemma {:induction false} WalkTotal(route: Route, n: nat, dist: seq<seq<real>>, prev: nat, total: real, attended: set<Client>)
    requires IsDistanceMatrix(dist, n + 1) && prev <= n
    ensures var w := Walk(route, n, dist, prev, total, attended);
            w.0 + dist[w.1][0] == total + Tour(prev, Stops(route, n), dist, n)
  {
    if route != [] {
      var rest := route[1..];
      if route[0] < n {
        var p := route[0] + 1;
        WalkTotal(rest, n, dist, p, total + dist[prev][p], attended + {route[0]});
        assert Stops(route, n) == [p] + Stops(rest, n);
      } else {
        WalkTotal(rest, n, dist, prev, total, attended);
        assert Stops(route, n) == Stops(rest, n);
      }
    }
  }

  /** The inner loop attends exactly the route's clients. */
  lemma {:induction false} WalkAttends(route: Route, n: nat, dist: seq<seq<real>>, prev: nat, total: real, attended: set<Client>)
    requires IsDistanceMatrix(dist, n + 1) && prev <= n
    ensures Walk(route, n, dist, prev, total, attended).2 == attended + ClientsOf(route, n)
  {
    if route == [] {
      assert ClientsOf(route, n) == {};
    } else {
      var rest := route[1..];
      ClientsOfCons(route, n);
      if route[0] < n {
        var p := route[0] + 1;
        WalkAttends(rest, n, dist, p, total + dist[prev][p], attended + {route[0]});
      } else {
        WalkAttends(rest, n, dist, prev, total, attended);
      }
    }
  }

  lemma ClientsOfCons(route: Route, n: nat)
    requires route != []
    ensures ClientsOf(route, n) == (if route[0] < n then {route[0]} else {}) + ClientsOf(route[1..], n)
  {
    assert route == [route[0]] + route[1..];
    forall c ensures c in route <==> c == route[0] || c in route[1..] {
    }
  }

  lemma WalkShift(route: Route, n: nat, dist: seq<seq<real>>, total: real, attended: set<Client>)
    requires IsDistanceMatrix(dist, n + 1)
    ensures var w := Walk(route, n, dist, 0, total, attended);
            w.0 + dist[w.1][0] == total + RouteLength(route, n, dist) &&
            w.2 == attended + ClientsOf(route, n)
  {
    WalkTotal(route, n, dist, 0, total, attended);
    WalkAttends(route, n, dist, 0, total, attended);
  }

  lemma {:induction false} AllClientsSize(n: nat)
    ensures |AllClients(n)| == n
  {
    if n > 0 {
      AllClientsSize(n - 1);
    }
  }

  /** A set of clients of `0..n-1` has n elements exactly when it is all of them. */
  lemma {:induction false} FullExactlyWhenAll(s: set<Client>, n: nat)
    requires s <= AllClients(n)
    ensures |s| == n <==> s == AllClients(n)
  {
    AllClientsSize(n);
    if s != AllClients(n) {
      var x :| x in AllClients(n) && x !in s;
      assert s <= AllClients(n) - {x};
      SubsetSize(s, AllClients(n) - {x});
    }
  }

  lemma {:induction false} SubsetSize(a: set<Client>, b: set<Client>)
    requires a <= b
    ensures |a| <= |b|
  {
    assert b == a + (b - a);
  }

  /** WithinCapacity, route by route. */
  function RoutesFit(routes: Individual, demands: seq<int>, capacity: int): bool {
    routes == [] || (Load(routes[0], demands) <= capacity && RoutesFit(routes[1..], demands, capacity))
  }

  lemma {:induction false} RoutesFitMeaning(routes: Individual, demands: seq<int>, capacity: int)
    ensures RoutesFit(routes, demands, capacity) == WithinCapacity(routes, demands, capacity)
  {
    if routes != [] {
      RoutesFitMeaning(routes[1..], demands, capacity);
      if Load(routes[0], demands) <= capacity && WithinCapacity(routes[1..], demands, capacity) {
        forall i | 0 <= i < |routes| ensures Load(routes[i], demands) <= capacity {
          if i > 0 { assert routes[i] == routes[1..][i - 1]; }
        }
      }
    }
  }

  /** The set of attended clients after the outer loop, accumulated the way
      the loop accumulates it. */
  function FinalSet(routes: Individual, n: nat, attended: set<Client>): set<Client> {
    if routes == [] then attended else FinalSet(routes[1..], n, attended + ClientsOf(routes[0], n))
  }

  /** The distance after the outer loop, accumulated the way the loop
      accumulates it. */
  function FinalTotal(routes: Individual, n: nat, dist: seq<seq<real>>, total: real): real
    requires IsDistanceMatrix(dist, n + 1)
  {
    if routes == [] then total else FinalTotal(routes[1..], n, dist, total + RouteLength(routes[0], n, dist))
  }

  lemma {:induction false} FinalSetMeaning(routes: Individual, n: nat, attended: set<Client>)
    ensures FinalSet(routes, n, attended) == attended + Visited(routes, n)
  {
    if routes != [] {
      FinalSetMeaning(routes[1..], n, attended + ClientsOf(routes[0], n));
      assert Visited(routes, n) == ClientsOf(routes[0], n) + Visited(routes[1..], n);
    }
  }

  lemma {:induction false} FinalTotalMeaning(routes: Individual, n: nat, dist: seq<seq<real>>, total: real)
    requires IsDistanceMatrix(dist, n + 1)
    ensures FinalTotal(routes, n, dist, total) == total + TotalLength(routes, n, dist)
  {
    if routes != [] {
      FinalTotalMeaning(routes[1..], n, dist, total + RouteLength(routes[0], n, dist));
    }
  }

  /** The outer loop stops at the first route over capacity; otherwise it
      compares the number of attended clients with the number of clients. */
  lemma {:induction false} ScanMeaning(routes: Individual, demands: seq<int>, capacity: int, dist: seq<seq<real>>,
                                       total: real, attended: set<Client>)
    requires IsDistanceMatrix(dist, |demands| + 1)
    ensures Scan(routes, demands, capacity, dist, total, attended) ==
            if !RoutesFit(routes, demands, capacity) then Infeasible
            else if |FinalSet(routes, |demands|, attended)| != |demands| then Infeasible
            else Dist(FinalTotal(routes, |demands|, dist, total))
  {
    if routes != [] && Load(routes[0], demands) <= capacity {
      var n := |demands|;
      ScanStep(routes, demands, capacity, dist, total, attended);
      ScanMeaning(routes[1..], demands, capacity, dist,
                  total + RouteLength(routes[0], n, dist), attended + ClientsOf(routes[0], n));
    }
  }

  /** One iteration of the outer loop over a route within capacity. */
  lemma ScanStep(routes: Individual, demands: seq<int>, capacity: int, dist: seq<seq<real>>,
                 total: real, attended: set<Client>)
    requires IsDistanceMatrix(dist, |demands| + 1)
    requires routes != [] && Load(routes[0], demands) <= capacity
    ensures Scan(routes, demands, capacity, dist, total, attended) ==
            Scan(routes[1..], demands, capacity, dist,
                 total + RouteLength(routes[0], |demands|, dist), attended + ClientsOf(routes[0], |demands|))
  {
    WalkShift(routes[0], |demands|, dist, total, attended);
  }

  /** calculate_fitness returns the sentinel exactly when some route is over
      capacity or some client is unserved, and otherwise the exact sum of the
      route tours depot -> c1 -> ... -> ck -> depot. */
  lemma EvaluateMeaning(ind: Individual, demands: seq<int>, capacity: int, dist: seq<seq<real>>)
    requires IsDistanceMatrix(dist, |demands| + 1)
    ensures Evaluate(ind, demands, capacity, dist) ==
            if Feasible(ind, demands, capacity) then Dist(TotalLength(ind, |demands|, dist)) else Infeasible
  {
    ScanMeaning(ind, demands, capacity, dist, 0.0, {});
    RoutesFitMeaning(ind, demands, capacity);
    AllAttended(ind, |demands|);
    FinalTotalMeaning(ind, |demands|, dist, 0.0);
  }

  /** The loop attends as many clients as there are exactly when every
      client is served. */
  lemma AllAttended(ind: Individual, n: nat)
    ensures |FinalSet(ind, n, {})| == n <==> ServesAll(ind, n)
  {
    FinalSetMeaning(ind, n, {});
    assert ({} + Visited(ind, n)) == Visited(ind, n);
    forall c: Client ensures c in Visited(ind, n) <==> c < n && Serves(ind, c) {
      VisitedMeaning(ind, n, c);
    }
    FullExactlyWhenAll(Visited(ind, n), n);
  }

  // ---------------------------------------------------------------------
  // Consequences.
  // ---------------------------------------------------------------------

  lemma {:induction false} TourNonnegative(prev: nat, stops: seq<nat>, dist: seq<seq<real>>, n: nat)
    requires IsDistanceMatrix(dist, n + 1) && NonNegativeDistances(dist, n + 1) && prev <= n
    requires forall k :: 0 <= k < |stops| ==> 1 <= stops[k] <= n
    ensures Tour(prev, stops, dist, n) >= 0.0
    decreases |stops|
  {
    if stops != [] {
      TourNonnegative(stops[0], stops[1..], dist, n);
    }
  }

  lemma {:induction false} TotalLengthNonnegative(ind: Individual, n: nat, dist: seq<seq<real>>)
    requires IsDistanceMatrix(dist, n + 1) && NonNegativeDistances(dist, n + 1)
    ensures TotalLength(ind, n, dist) >= 0.0
  {
    if ind != [] {
      TourNonnegative(0, Stops(ind[0], n), dist, n);
      TotalLengthNonnegative(ind[1..], n, dist);
    }
  }

  /** Over a matrix of nonnegative distances, a feasible individual never
      scores below zero. */
  lemma EvaluateNonnegative(ind: Individual, demands: seq<int>, capacity: int, dist: seq<seq<real>>)
    requires IsDistanceMatrix(dist, |demands| + 1) && NonNegativeDistances(dist, |demands| + 1)
    ensures Evaluate(ind, demands, capacity, dist).Dist? ==> Evaluate(ind, demands, capacity, dist).total >= 0.0
  {
    EvaluateMeaning(ind, demands, capacity, dist);
    TotalLengthNonnegative(ind, |demands|, dist);
  }

  /** A client whose demand alone exceeds the capacity makes every individual
      infeasible (with capacity 4 and demands 5 and 5, nothing is feasible). */
  lemma OversizedClientMakesAllInfeasible(ind: Individual, demands: seq<int>, capacity: int, dist: seq<seq<real>>, c: Client)
    requires IsDistanceMatrix(dist, |demands| + 1)
    requires forall d :: 0 <= d < |demands| ==> demands[d] >= 0
    requires c < |demands| && demands[c] > capacity
    ensures Evaluate(ind, demands, capacity, dist) == Infeasible
  {
    EvaluateMeaning(ind, demands, capacity, dist);
    if Feasible(ind, demands, capacity) {
      assert Serves(ind, c);
      var i :| 0 <= i < |ind| && c in ind[i];
      LoadCoversVisit(ind[i], c, demands);
    }
  }

  /** Two clients of demand 5 on one vehicle of capacity 10: the single route
      visiting both, in either order, scores exactly its tour. */
  lemma TwoClientsOneVehicle(a: Client, b: Client, dist: seq<seq<real>>)
    requires IsDistanceMatrix(dist, 3)
    requires (a == 0 && b == 1) || (a == 1 && b == 0)
    ensures Evaluate([[a, b]], [5, 5], 10, dist) == Dist(dist[0][a + 1] + dist[a + 1][b + 1] + dist[b + 1][0])
  {
    var demands := [5, 5];
    var route: Route := [a, b];
    var ind: Individual := [route];
    EvaluateMeaning(ind, demands, 10, dist);
    LoadAppend([], a, demands);
    LoadAppend([a], b, demands);
    assert [] + [a] == [a] && [a] + [b] == route;
    assert WithinCapacity(ind, demands, 10);
    assert Serves(ind, 0) && Serves(ind, 1) by {
      assert ind[0] == route;
    }
    TwoStopLength(a, b, dist);
    assert TotalLength(ind, 2, dist) == RouteLength(route, 2, dist) by {
      assert ind[1..] == [];
    }
  }

  /** The tour of a route of two clients: out to the first, across, back. */
  lemma TwoStopLength(a: Client, b: Client, dist: seq<seq<real>>)
    requires IsDistanceMatrix(dist, 3) && a < 2 && b < 2
    ensures RouteLength([a, b], 2, dist) == dist[0][a + 1] + dist[a + 1][b + 1] + dist[b + 1][0]
  {
    var route: Route := [a, b];
    assert Stops([b], 2) == [b + 1] by {
      assert [b][1..] == [];
    }
    assert Stops(route, 2) == [a + 1, b + 1] by {
      assert route[1..] == [b];
    }
    assert [a + 1, b + 1][1..] == [b + 1];
    assert [b + 1][1..] == [];
    assert Tour(a + 1, [b + 1], dist, 2) == dist[a + 1][b + 1] + Tour(b + 1, [], dist, 2);
  }

  /** A client listed twice is not penalised: the duplicate visit only adds
      its legs (here the leg on the diagonal). */
  lemma DuplicateVisitNotPenalised(c: Client, demands: seq<int>, capacity: int, dist: seq<seq<real>>)
    requires IsDistanceMatrix(dist, 2)
    requires |demands| == 1 && c == 0 && 2 * demands[0] <= capacity
    ensures Evaluate([[c, c]], demands, capacity, dist) == Dist(dist[0][1] + dist[1][1] + dist[1][0])
  {
    var route: Route := [c, c];
    var ind: Individual := [route];
    EvaluateMeaning(ind, demands, capacity, dist);
    LoadAppend([], c, demands);
    LoadAppend([c], c, demands);
    assert [] + [c] == [c] && [c] + [c] == route;
    assert WithinCapacity(ind, demands, capacity);
    assert Serves(ind, 0) by {
      assert ind[0] == route;
    }
    assert Stops([c], 1) == [1] by {
      assert [c][1..] == [];
    }
    assert Stops(route, 1) == [1, 1] by {
      assert route[1..] == [c];
    }
    assert Tour(0, [1, 1], dist, 1) == dist[0][1] + dist[1][1] + dist[1][0] by {
      assert [1, 1][1..] == [1];
      assert [1][1..] == [];
      assert Tour(1, [], dist, 1) == dist[1][0];
      assert Tour(1, [1], dist, 1) == dist[1][1] + Tour(1, [], dist, 1);
    }
    assert TotalLength(ind, 1, dist) == RouteLength(route, 1, dist) by {
      assert ind[1..] == [];
    }
  }

  lemma {:induction false} TotalLengthAppendEmpty(ind: Individual, n: nat, dist: seq<seq<real>>)
    requires IsDistanceMatrix(dist, n + 1)
    ensures TotalLength(ind + [[]], n, dist) == TotalLength(ind, n, dist) + dist[0][0]
  {
    if ind == [] {
      assert (ind + [[]])[1..] == [];
      assert Stops([], n) == [];
    } else {
      assert (ind + [[]])[1..] == ind[1..] + [[]];
      TotalLengthAppendEmpty(ind[1..], n, dist);
    }
  }

  /** An extra empty route changes nothing but adds the depot-to-depot entry
      `dist[0][0]` to a finite score. */
  lemma EmptyRouteAddsDiagonal(ind: Individual, demands: seq<int>, capacity: int, dist: seq<seq<real>>)
    requires IsDistanceMatrix(dist, |demands| + 1)
    requires capacity >= 0
    ensures Evaluate(ind + [[]], demands, capacity, dist) ==
            match Evaluate(ind, demands, capacity, dist)
            case Infeasible => Infeasible
            case Dist(t) => Dist(t + dist[0][0])
  {
    var ind' := ind + [[]];
    EvaluateMeaning(ind, demands, capacity, dist);
    EvaluateMeaning(ind', demands, capacity, dist);
    TotalLengthAppendEmpty(ind, |demands|, dist);
    assert WithinCapacity(ind', demands, capacity) <==> WithinCapacity(ind, demands, capacity) by {
      assert ind'[|ind|] == [];
      assert forall i :: 0 <= i < |ind| ==> ind'[i] == ind[i];
    }
    assert ServesAll(ind', |demands|) <==> ServesAll(ind, |demands|) by {
      forall c ensures Serves(ind', c) <==> Serves(ind, c) {
        if Serves(ind', c) {
          var i :| 0 <= i < |ind'| && c in ind'[i];
          assert i < |ind| && ind[i] == ind'[i];
        }
        if Serves(ind, c) {
          var i :| 0 <= i < |ind| && c in ind[i];
          assert ind'[i] == ind[i];
        }
      }
    }
  }
}
