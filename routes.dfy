/** Shared vocabulary of the solver: clients, routes, individuals, demand
    arithmetic, fitness values and the errors the engine and its driver raise. */
module Routes {

  /** A client is named by its index into the client list (the depot is not a client). */
  type Client = nat

  /** The visits of one vehicle, in order; the depot is implicit at both ends. */
  type Route = seq<Client>

  /** One candidate solution: one route per vehicle slot. */
  type Individual = seq<Route>

  /** The exceptions the engine and its driver raise. */
  datatype Error =
    | InvalidInstance          // initialize_population: no client or no vehicle
    | DemandExceedsFleet       // driver precheck: total demand above fleet capacity
    | NoClients                // driver precheck: empty client list
    | NoVehicle                // driver precheck: fewer than one vehicle
    | NoValidInitialSolution   // driver: every initial individual is infeasible
    | NoOtherRoute             // mutate: random.choice on an empty candidate list (IndexError)

  datatype Result<T> = Ok(value: T) | Err(error: Error)

  datatype Option<T> = None | Some(value: T)

  /** Fitness of an individual: a total distance, or the infeasibility sentinel
      (float('inf') in the source), which compares above every distance. */
  datatype Fitness = Infeasible | Dist(total: real)

  /** `a <= b` on fitness values, with the sentinel as the largest value. */
  predicate Le(a: Fitness, b: Fitness) {
    b.Infeasible? || (a.Dist? && a.total <= b.total)
  }

  /** `a < b` on fitness values; the sentinel is not below itself. */
  predicate Lt(a: Fitness, b: Fitness) {
    !Le(b, a)
  }

  lemma LeTotal(a: Fitness, b: Fitness)
    ensures Le(a, b) || Le(b, a)
  {
  }

  lemma LeTransitive(a: Fitness, b: Fitness, c: Fitness)
    requires Le(a, b) && Le(b, c)
    ensures Le(a, c)
  {
  }

  /** Demand of a visit; a visit that indexes no client counts for nothing,
      as the filter `idx < len(clients)` does in the source. */
  function Demand(demands: seq<int>, c: Client): int {
    if c < |demands| then demands[c] else 0
  }

  /** Summed demand of a route. */
  function Load(route: Route, demands: seq<int>): int {
    if route == [] then 0 else Load(route[..|route| - 1], demands) + Demand(demands, route[|route| - 1])
  }

  lemma LoadAppend(route: Route, c: Client, demands: seq<int>)
    ensures Load(route + [c], demands) == Load(route, demands) + Demand(demands, c)
  {
    assert (route + [c])[..|route|] == route;
  }

  lemma {:induction false} LoadConcat(a: Route, b: Route, demands: seq<int>)
    ensures Load(a + b, demands) == Load(a, demands) + Load(b, demands)
    decreases |b|
  {
    if b != [] {
      var b' := b[..|b| - 1];
      assert a + b == (a + b') + [b[|b| - 1]];
      LoadAppend(a + b', b[|b| - 1], demands);
      LoadConcat(a, b', demands);
    } else {
      assert a + b == a;
    }
  }

  /** With demands that are never negative, a longer prefix never carries less. */
  lemma {:induction false} LoadPrefixMonotone(prefix: Route, route: Route, demands: seq<int>)
    requires prefix <= route
    requires forall c :: 0 <= c < |demands| ==> demands[c] >= 0
    ensures Load(prefix, demands) <= Load(route, demands)
    decreases |route|
  {
    if |prefix| < |route| {
      var r' := route[..|route| - 1];
      assert route == r' + [route[|route| - 1]];
      LoadAppend(r', route[|route| - 1], demands);
      LoadPrefixMonotone(prefix, r', demands);
    } else {
      assert prefix == route;
    }
  }

  /** Summed demand of a route whose visits all name a client, summed without
      the filter (as genetic_algorithm.py:29 and :108 do; an index outside
      the client list would raise IndexError there). */
  function RawLoad(route: Route, demands: seq<int>): int
    requires forall k :: 0 <= k < |route| ==> route[k] < |demands|
  {
    if route == [] then 0 else RawLoad(route[..|route| - 1], demands) + demands[route[|route| - 1]]
  }

  /** Without visits outside the client list the filter changes nothing. */
  lemma {:induction false} RawLoadIsLoad(route: Route, demands: seq<int>)
    requires forall k :: 0 <= k < |route| ==> route[k] < |demands|
    ensures RawLoad(route, demands) == Load(route, demands)
  {
    if route != [] {
      RawLoadIsLoad(route[..|route| - 1], demands);
    }
  }

  /** The load of every route, in slot order. */
  function Loads(ind: Individual, demands: seq<int>): (r: seq<int>)
    ensures |r| == |ind| && forall i :: 0 <= i < |ind| ==> r[i] == Load(ind[i], demands)
  {
    seq(|ind|, i requires 0 <= i < |ind| => Load(ind[i], demands))
  }

  /** The unfiltered load of every route, in slot order. */
  function RawLoads(ind: Individual, demands: seq<int>): (r: seq<int>)
    requires InRange(ind, |demands|)
    ensures |r| == |ind| && forall i :: 0 <= i < |ind| ==> r[i] == RawLoad(ind[i], demands)
  {
    seq(|ind|, i requires 0 <= i < |ind| => RawLoad(ind[i], demands))
  }

  /** The first slot whose load leaves room for `demand` (the scans
      `for route in individual: if load + demand <= capacity: ...; break`). */
  function FirstFit(loads: seq<int>, demand: int, capacity: int): (r: Option<nat>)
    ensures r.Some? ==> r.value < |loads| && loads[r.value] + demand <= capacity
    ensures r.Some? ==> forall j :: 0 <= j < r.value ==> loads[j] + demand > capacity
    ensures r.None? ==> forall j :: 0 <= j < |loads| ==> loads[j] + demand > capacity
  {
    if loads == [] then None
    else if loads[0] + demand <= capacity then Some(0)
    else match FirstFit(loads[1..], demand, capacity)
      case None => None
      case Some(k) => Some(k + 1)
  }

  /** With demands that are never negative, a route carries at least the
      demand of each client on it. */
  lemma {:induction false} LoadCoversVisit(route: Route, c: Client, demands: seq<int>)
    requires c in route
    requires forall d :: 0 <= d < |demands| ==> demands[d] >= 0
    ensures Load(route, demands) >= Demand(demands, c)
    decreases |route|
  {
    var init := route[..|route| - 1];
    assert route == init + [route[|route| - 1]];
    if c == route[|route| - 1] {
      LoadPrefixMonotone([], init, demands);
    } else {
      LoadCoversVisit(init, c, demands);
      if route[|route| - 1] < |demands| {
        assert demands[route[|route| - 1]] >= 0;
      }
    }
  }

  /** Every visit of the individual names a client of a list of length `n`. */
  predicate InRange(ind: Individual, n: nat) {
    forall i, j :: 0 <= i < |ind| && 0 <= j < |ind[i]| ==> ind[i][j] < n
  }

  /** All visits of an individual, route after route. */
  function Flatten(ind: Individual): Route {
    if ind == [] then [] else Flatten(ind[..|ind| - 1]) + ind[|ind| - 1]
  }

  /** Some route of the individual visits client `c`. */
  predicate Serves(ind: Individual, c: Client) {
    exists i :: 0 <= i < |ind| && c in ind[i]
  }

  /** No element occurs twice. */
  ghost predicate Distinct(s: seq<Client>) {
    forall c :: multiset(s)[c] <= 1
  }

  /** No client is visited twice across the whole individual. */
  ghost predicate NoDuplicateVisits(ind: Individual) {
    Distinct(Flatten(ind))
  }

  /** `order` lists every client of `0..n-1` exactly once and nothing else:
      a shuffled `list(range(n))`, or the iteration order of a set of clients. */
  ghost predicate IsEnumeration(order: seq<Client>, n: nat) {
    (forall i :: 0 <= i < |order| ==> order[i] < n) &&
    (forall c :: 0 <= c < n ==> c in order) &&
    Distinct(order)
  }

  /** `list(range(n))`. */
  function Ascending(n: nat): (r: seq<Client>)
    ensures |r| == n
  {
    if n == 0 then [] else Ascending(n - 1) + [n - 1]
  }

  /** Position `i` of `list(range(n))` holds `i`. */
  lemma {:induction false} AscendingAt(n: nat)
    ensures forall i :: 0 <= i < n ==> Ascending(n)[i] == i
  {
    if n > 0 {
      AscendingAt(n - 1);
    }
  }

  lemma {:induction false} AscendingIsEnumeration(n: nat)
    ensures IsEnumeration(Ascending(n), n)
  {
    var s := Ascending(n);
    AscendingAt(n);
    forall c | 0 <= c < n ensures c in s {
      assert s[c] == c;
    }
    forall c ensures multiset(s)[c] <= 1 {
      AscendingCount(n, c);
    }
  }

  lemma {:induction false} AscendingCount(n: nat, c: Client)
    ensures multiset(Ascending(n))[c] == if c < n then 1 else 0
  {
    if n > 0 {
      var last: Client := n - 1;
      AscendingCount(last, c);
      AppendCount(Ascending(last), last, c);
    }
  }

  lemma AppendCount(s: seq<Client>, x: Client, c: Client)
    ensures multiset(s + [x])[c] == multiset(s)[c] + if c == x then 1 else 0
  {
    assert multiset(s + [x]) == multiset(s) + multiset{x};
  }

  lemma FlattenAppend(ind: Individual, route: Route)
    ensures Flatten(ind + [route]) == Flatten(ind) + route
  {
    assert (ind + [route])[..|ind|] == ind;
  }

  lemma {:induction false} FlattenMembership(ind: Individual, c: Client)
    ensures c in Flatten(ind) <==> Serves(ind, c)
  {
    if ind != [] {
      var init := ind[..|ind| - 1];
      FlattenMembership(init, c);
      assert ind == init + [ind[|ind| - 1]];
      if Serves(ind, c) && !Serves(init, c) {
        var i :| 0 <= i < |ind| && c in ind[i];
        assert i == |ind| - 1;
      }
      if Serves(init, c) {
        var i :| 0 <= i < |init| && c in init[i];
        assert ind[i] == init[i];
      }
    }
  }

  /** Replacing route `i` by `route` trades that route's visits for the new ones. */
  lemma {:induction false} FlattenUpdate(ind: Individual, i: nat, route: Route)
    requires i < |ind|
    ensures multiset(Flatten(ind[i := route])) + multiset(ind[i])
         == multiset(Flatten(ind)) + multiset(route)
  {
    var last := |ind| - 1;
    var init := ind[..last];
    assert ind == init + [ind[last]];
    if i == last {
      assert ind[i := route] == init + [route];
      FlattenAppend(init, route);
      FlattenAppend(init, ind[last]);
    } else {
      FlattenUpdate(init, i, route);
      assert init[i] == ind[i];
      assert ind[i := route] == init[i := route] + [ind[last]];
      FlattenAppend(init[i := route], ind[last]);
      FlattenAppend(init, ind[last]);
      assert multiset(Flatten(ind[i := route])) == multiset(Flatten(init[i := route])) + multiset(ind[last]);
      assert multiset(Flatten(ind)) == multiset(Flatten(init)) + multiset(ind[last]);
      var lhs := multiset(Flatten(ind[i := route])) + multiset(ind[i]);
      var rhs := multiset(Flatten(ind)) + multiset(route);
      forall x ensures lhs[x] == rhs[x] {
        assert (multiset(Flatten(init[i := route])) + multiset(init[i]))[x]
            == (multiset(Flatten(init)) + multiset(route))[x];
        assert (multiset(Flatten(init[i := route])) + multiset(ind[last]))[x]
            == multiset(Flatten(ind[i := route]))[x];
        assert (multiset(Flatten(init)) + multiset(ind[last]))[x] == multiset(Flatten(ind))[x];
      }
      assert lhs == rhs;
    }
  }

  /** Appending client `c` to route `i` adds exactly one visit of `c`. */
  lemma AppendVisit(ind: Individual, i: nat, c: Client)
    requires i < |ind|
    ensures multiset(Flatten(ind[i := ind[i] + [c]])) == multiset(Flatten(ind)) + multiset{c}
  {
    var after := multiset(Flatten(ind[i := ind[i] + [c]]));
    FlattenUpdate(ind, i, ind[i] + [c]);
    assert multiset(ind[i] + [c]) == multiset(ind[i]) + multiset{c};
    forall x ensures after[x] == (multiset(Flatten(ind)) + multiset{c})[x] {
      assert (after + multiset(ind[i]))[x] == (multiset(Flatten(ind)) + multiset(ind[i] + [c]))[x];
      assert (multiset(ind[i]) + multiset{c})[x] == multiset(ind[i] + [c])[x];
    }
    assert after == multiset(Flatten(ind)) + multiset{c};
  }

  /** Keeping the first `k` routes keeps a sub-multiset of the visits. */
  lemma {:induction false} FlattenTake(ind: Individual, k: nat)
    requires k <= |ind|
    ensures multiset(Flatten(ind[..k])) <= multiset(Flatten(ind))
    decreases |ind|
  {
    if k < |ind| {
      var init := ind[..|ind| - 1];
      assert ind == init + [ind[|ind| - 1]];
      FlattenAppend(init, ind[|ind| - 1]);
      assert ind[..k] == init[..k];
      FlattenTake(init, k);
    } else {
      assert ind[..k] == ind;
    }
  }

  lemma DistinctSub(a: seq<Client>, b: seq<Client>)
    requires multiset(a) <= multiset(b)
    requires Distinct(b)
    ensures Distinct(a)
  {
    forall c ensures multiset(a)[c] <= 1 {
      assert multiset(a)[c] <= multiset(b)[c];
    }
  }

  /** Two listings with the same elements enumerate the same clients. */
  lemma EnumerationByMultiset(a: seq<Client>, b: seq<Client>, n: nat)
    requires multiset(a) == multiset(b)
    requires IsEnumeration(b, n)
    ensures IsEnumeration(a, n)
  {
    forall i | 0 <= i < |a| ensures a[i] < n {
      assert a[i] in multiset(a);
      assert a[i] in b;
    }
    forall c | 0 <= c < n ensures c in a {
      assert c in b;
      assert c in multiset(a);
    }
  }

  /** `[[] for _ in range(k)]`. */
  function EmptyRoutes(k: nat): (r: Individual)
    ensures |r| == k && forall i :: 0 <= i < k ==> r[i] == []
  {
    if k == 0 then [] else EmptyRoutes(k - 1) + [[]]
  }

  lemma {:induction false} EmptyRoutesVisitNothing(k: nat)
    ensures Flatten(EmptyRoutes(k)) == []
  {
    if k > 0 {
      EmptyRoutesVisitNothing(k - 1);
      FlattenAppend(EmptyRoutes(k - 1), []);
    }
  }

  /** Appending to a route after which every route is empty appends to the
      flattened visits. */
  lemma {:induction false} FlattenAppendAt(ind: Individual, v: nat, c: Client)
    requires v < |ind| && forall j :: v < j < |ind| ==> ind[j] == []
    ensures Flatten(ind[v := ind[v] + [c]]) == Flatten(ind) + [c]
    decreases |ind|
  {
    var init := ind[..|ind| - 1];
    var after := ind[v := ind[v] + [c]];
    assert ind == init + [ind[|ind| - 1]];
    if v == |ind| - 1 {
      assert after == init + [ind[v] + [c]];
      FlattenAppend(init, ind[v] + [c]);
      FlattenAppend(init, ind[v]);
    } else {
      assert after == init[v := init[v] + [c]] + [[]];
      FlattenAppend(init[v := init[v] + [c]], []);
      FlattenAppend(init, []);
      FlattenAppendAt(init, v, c);
    }
  }

  /** Two positions of a sequence without repeats hold different elements. */
  lemma DistinctAt(s: seq<Client>, p: nat, q: nat)
    requires Distinct(s) && p < q < |s|
    ensures s[p] != s[q]
  {
    var x := s[p];
    var a, b, c := s[..p], s[p + 1..q], s[q + 1..];
    assert s == a + [x] + b + [s[q]] + c;
    assert multiset(s)[x] == multiset(a)[x] + multiset([x])[x] + multiset(b)[x] + multiset([s[q]])[x] + multiset(c)[x];
  }

  /** Python's `list.index`: the first position holding `x`, or `|s|` when
      there is none (where Python raises ValueError). */
  function IndexOf<T(==)>(s: seq<T>, x: T): (r: nat)
    ensures r <= |s|
    ensures x in s ==> r < |s| && s[r] == x
    ensures x !in s[..r]
    ensures x !in s ==> r == |s|
  {
    if s == [] then 0
    else if s[0] == x then 0
    else
      assert s[1..][..IndexOf(s[1..], x)] == s[1..IndexOf(s[1..], x) + 1];
      1 + IndexOf(s[1..], x)
  }

  /** Replacing a route by one whose visits all name a client keeps every
      visit in range. */
  lemma InRangeUpdate(ind: Individual, k: nat, route: Route, n: nat)
    requires InRange(ind, n) && k < |ind|
    requires forall j :: 0 <= j < |route| ==> route[j] in ind[k] || route[j] < n
    ensures InRange(ind[k := route], n)
  {
  }
}
