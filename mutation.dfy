/** Route mutation (mutate): per route, a swap of two stops and a relocation
    of one client to another route, then the repair. */
module Mutation {
  import opened Routes
  import Evaluation
  import Repair

  /** The random draws for one route. `swap` and `move` are the two
      `random.random() < mutation_rate` tests; `first` and `second` pick the
      two distinct positions of `random.sample`, `pick` the client of
      `random.choice(route)` and `target` the entry of the candidate list,
      each reduced modulo the size it chooses from. */
  datatype RouteDraw = RouteDraw(swap: bool, first: nat, second: nat, move: bool, pick: nat, target: nat)

  /** The draws of route `k`; a route past the end of the draws is left
      alone. */
  function DrawAt(draws: seq<RouteDraw>, k: nat): RouteDraw {
    if k < |draws| then draws[k] else RouteDraw(false, 0, 0, false, 0, 0)
  }

  /** Line 124-126: with at least two stops, two distinct positions trade
      their clients. */
  function Swapped(route: Route, d: RouteDraw): (r: Route)
    ensures |r| == |route| && multiset(r) == multiset(route)
    ensures forall j :: 0 <= j < |r| ==> r[j] in route
  {
    if d.swap && |route| >= 2 then
      var i := d.first % |route|;
      var j := (i + 1 + d.second % (|route| - 1)) % |route|;
      route[i := route[j]][j := route[i]]
    else route
  }

  /** `route.remove(c)`: the first occurrence of `c` is taken out. */
  function RemoveFirst(route: Route, c: Client): (r: Route)
    requires c in route
    ensures |r| == |route| - 1
    ensures multiset(r) == multiset(route) - multiset{c}
    ensures forall j :: 0 <= j < |r| ==> r[j] in route
    ensures exists p :: 0 <= p < |route| && route[p] == c && c !in route[..p] && r == route[..p] + route[p + 1..]
  {
    var p := IndexOf(route, c);
    assert route == route[..p] + [c] + route[p + 1..];
    route[..p] + route[p + 1..]
  }

  /** `[i for i in range(len(individual)) if individual[i] != route]` with
      `route` the route in slot `k`: the slots whose content differs, in
      increasing order (OthersMeaning). */
  function Others(ind: Individual, k: nat): (r: seq<nat>)
    requires k < |ind|
    ensures forall j :: 0 <= j < |r| ==> r[j] < |ind|
  {
    OthersFrom(ind, k, 0)
  }

  function OthersFrom(ind: Individual, k: nat, from: nat): (r: seq<nat>)
    requires k < |ind| && from <= |ind|
    ensures forall j :: 0 <= j < |r| ==> from <= r[j] < |ind|
    decreases |ind| - from
  {
    if from == |ind| then []
    else if ind[from] != ind[k] then [from] + OthersFrom(ind, k, from + 1)
    else OthersFrom(ind, k, from + 1)
  }

  /** The candidate list holds exactly the slots whose content differs from
      slot `k`, each once, in increasing order. */
  lemma OthersMeaning(ind: Individual, k: nat)
    requires k < |ind|
    ensures var r := Others(ind, k);
      (forall i :: 0 <= i < |ind| ==> (i in r <==> ind[i] != ind[k])) &&
      (forall a, b :: 0 <= a < b < |r| ==> r[a] < r[b])
  {
    OthersFromMeaning(ind, k, 0);
  }

  lemma {:induction false} OthersFromMeaning(ind: Individual, k: nat, from: nat)
    requires k < |ind| && from <= |ind|
    ensures var r := OthersFrom(ind, k, from);
      (forall i :: from <= i < |ind| ==> (i in r <==> ind[i] != ind[k])) &&
      (forall a, b :: 0 <= a < b < |r| ==> r[a] < r[b])
    decreases |ind| - from
  {
    if from < |ind| {
      OthersFromMeaning(ind, k, from + 1);
    }
  }

  /** The client drawn from `route` by `random.choice`. */
  function Pick(route: Route, d: RouteDraw): (c: Client)
    requires route != []
    ensures c in route
  {
    route[d.pick % |route|]
  }

  /** The body of the loop of lines 123-133 for slot `k`: the swap, then
      the relocation. */
  function MutateRoute(ind: Individual, k: nat, d: RouteDraw, demands: seq<int>, capacity: int): (r: Result<Individual>)
    requires k < |ind| && InRange(ind, |demands|)
    ensures r.Ok? ==> |r.value| == |ind| && InRange(r.value, |demands|)
    ensures r.Err? ==> r.error == NoOtherRoute
  {
    var swapped := ind[k := Swapped(ind[k], d)];
    InRangeUpdate(ind, k, swapped[k], |demands|);
    Relocated(swapped, k, d, demands, capacity)
  }

  /** Lines 127-133. The relocation needs another slot with different
      content; without one `random.choice` raises IndexError. */
  function Relocated(ind: Individual, k: nat, d: RouteDraw, demands: seq<int>, capacity: int): (r: Result<Individual>)
    requires k < |ind| && InRange(ind, |demands|)
    ensures r.Ok? ==> |r.value| == |ind| && InRange(r.value, |demands|)
    ensures r.Err? ==> r.error == NoOtherRoute
  {
    if d.move && ind[k] != [] && |ind| > 1 then
      var c := Pick(ind[k], d);
      var removed := ind[k := RemoveFirst(ind[k], c)];
      InRangeUpdate(ind, k, removed[k], |demands|);
      var candidates := Others(removed, k);
      if candidates == [] then Err(NoOtherRoute)
      else
        var t := candidates[d.target % |candidates|];
        if Load(removed[t], demands) + demands[c] <= capacity then
          InRangeUpdate(removed, t, removed[t] + [c], |demands|);
          Ok(removed[t := removed[t] + [c]])
        else Ok(removed)
    else Ok(ind)
  }

  /** The loop over the first `n` slots. */
  function MutateRoutes(ind: Individual, draws: seq<RouteDraw>, n: nat, demands: seq<int>, capacity: int): (r: Result<Individual>)
    requires n <= |ind| && InRange(ind, |demands|)
    ensures r.Ok? ==> |r.value| == |ind| && InRange(r.value, |demands|)
  {
    if n == 0 then Ok(ind)
    else match MutateRoutes(ind, draws, n - 1, demands, capacity)
      case Err(e) => Err(e)
      case Ok(m) => MutateRoute(m, n - 1, DrawAt(draws, n - 1), demands, capacity)
  }

  /** The loop fails only with the IndexError of `random.choice`. */
  lemma {:induction false} MutateRoutesError(ind: Individual, draws: seq<RouteDraw>, n: nat, demands: seq<int>, capacity: int)
    requires n <= |ind| && InRange(ind, |demands|)
    ensures MutateRoutes(ind, draws, n, demands, capacity).Err? ==>
      MutateRoutes(ind, draws, n, demands, capacity).error == NoOtherRoute
  {
    if n > 0 {
      MutateRoutesError(ind, draws, n - 1, demands, capacity);
    }
  }

  /** mutate (genetic_algorithm.py:122-134) as a value. */
  function Mutated(ind: Individual, draws: seq<RouteDraw>, demands: seq<int>, capacity: int, order: seq<Client>): (r: Result<Individual>)
    requires InRange(ind, |demands|) && IsEnumeration(order, |demands|)
    ensures r.Ok? ==> |r.value| == |ind|
    ensures r.Err? ==> r.error == NoOtherRoute
  {
    match MutateRoutes(ind, draws, |ind|, demands, capacity)
    case Err(e) => MutateRoutesError(ind, draws, |ind|, demands, capacity); Err(e)
    case Ok(m) => Ok(Repair.Repaired(m, demands, capacity, order))
  }

  /** Lines 124-126 in place: two distinct stops of slot `k` trade their
      clients. */
  method SwapStops(ind: Individual, k: nat, d: RouteDraw) returns (r: Individual)
    requires k < |ind|
    ensures r == ind[k := Swapped(ind[k], d)]
  {
    r := ind;
    var route := r[k];
    if d.swap && |route| >= 2 {
      var i := d.first % |route|;
      var j := (i + 1 + d.second % (|route| - 1)) % |route|;
      var tmp := route[i];
      route := route[i := route[j]];
      route := route[j := tmp];
      r := r[k := route];
    }
  }

  /** Lines 127-133 in place: a client of slot `k` is removed and appended
      to another slot with room for it. */
  method RelocateClient(ind: Individual, k: nat, d: RouteDraw, demands: seq<int>, capacity: int)
    returns (r: Result<Individual>)
    requires k < |ind| && InRange(ind, |demands|)
    ensures r == Relocated(ind, k, d, demands, capacity)
  {
    var individual := ind;
    var route := individual[k];
    if d.move && route != [] && |individual| > 1 {
      var c := route[d.pick % |route|];
      route := RemoveFirst(route, c);
      individual := individual[k := route];
      var candidates := Others(individual, k);
      if candidates == [] {
        return Err(NoOtherRoute);
      }
      var t := candidates[d.target % |candidates|];
      if Load(individual[t], demands) + demands[c] <= capacity {
        individual := individual[t := individual[t] + [c]];
      }
    }
    return Ok(individual);
  }

  /** One pass of the loop of lines 123-133: the swap, then the
      relocation, on slot `k`. */
  method MutateSlot(ind: Individual, k: nat, d: RouteDraw, demands: seq<int>, capacity: int)
    returns (r: Result<Individual>)
    requires k < |ind| && InRange(ind, |demands|)
    ensures r == MutateRoute(ind, k, d, demands, capacity)
  {
    var swapped := SwapStops(ind, k, d);
    InRangeUpdate(ind, k, swapped[k], |demands|);
    r := RelocateClient(swapped, k, d, demands, capacity);
  }

  /** The loop of lines 123-133, one slot after the other. An IndexError
      is carried to the end unchanged: no later slot is touched. */
  method MutateAll(individual: Individual, draws: seq<RouteDraw>, demands: seq<int>, capacity: int)
    returns (r: Result<Individual>)
    requires InRange(individual, |demands|)
    ensures r == MutateRoutes(individual, draws, |individual|, demands, capacity)
  {
    r := Ok(individual);
    for k := 0 to |individual|
      invariant r == MutateRoutes(individual, draws, k, demands, capacity)
    {
      if r.Ok? {
        r := MutateSlot(r.value, k, DrawAt(draws, k), demands, capacity);
      }
    }
  }

  /** mutate: the slots are mutated, then the individual is repaired. */
  method Mutate(individual: Individual, draws: seq<RouteDraw>, demands: seq<int>, capacity: int, order: seq<Client>)
    returns (r: Result<Individual>)
    requires InRange(individual, |demands|) && IsEnumeration(order, |demands|)
    ensures r == Mutated(individual, draws, demands, capacity, order)
  {
    var mutated := MutateAll(individual, draws, demands, capacity);
    if mutated.Err? {
      return Err(mutated.error);
    }
    var repaired := Repair.EnsureAllClients(mutated.value, demands, capacity, order);
    return Ok(repaired);
  }

  // ---------------------------------------------------------------------
  // What a mutation keeps.

  /** The relocation fails exactly when, after the client is taken out,
      every other slot holds the same content as the source slot. */
  lemma MutateRouteFails(ind: Individual, k: nat, d: RouteDraw, demands: seq<int>, capacity: int)
    requires k < |ind| && InRange(ind, |demands|)
    ensures var sw := Swapped(ind[k], d);
      MutateRoute(ind, k, d, demands, capacity).Err? <==>
        d.move && |ind| > 1 && sw != [] &&
        forall i :: 0 <= i < |ind| && i != k ==> ind[i] == RemoveFirst(sw, Pick(sw, d))
  {
    var sw := Swapped(ind[k], d);
    if d.move && |ind| > 1 && sw != [] {
      var removed := ind[k := sw][k := RemoveFirst(sw, Pick(sw, d))];
      OthersMeaning(removed, k);
      assert forall i :: 0 <= i < |ind| && i != k ==> removed[i] == ind[i];
    }
  }

  /** `mutate([[c], []], ...)` with a relocation drawn for the first route
      raises IndexError: once `c` is taken out both routes are empty. */
  lemma RelocationCanFail(c: Client, demands: seq<int>, capacity: int, order: seq<Client>)
    requires c < |demands| && IsEnumeration(order, |demands|)
    ensures Mutated([[c], []], [RouteDraw(false, 0, 0, true, 0, 0)], demands, capacity, order) == Err(NoOtherRoute)
  {
    var ind: Individual := [[c], []];
    var draws := [RouteDraw(false, 0, 0, true, 0, 0)];
    MutateRouteFails(ind, 0, draws[0], demands, capacity);
    assert RemoveFirst([c], c) == [];
    assert MutateRoutes(ind, draws, 1, demands, capacity) == Err(NoOtherRoute);
    assert MutateRoutes(ind, draws, 2, demands, capacity) == Err(NoOtherRoute);
  }

  /** A route replaced by a permutation of itself keeps the visits. */
  lemma PermutedRouteVisits(ind: Individual, k: nat, route: Route)
    requires k < |ind| && multiset(route) == multiset(ind[k])
    ensures multiset(Flatten(ind[k := route])) == multiset(Flatten(ind))
  {
    FlattenUpdate(ind, k, route);
    forall x ensures multiset(Flatten(ind[k := route]))[x] == multiset(Flatten(ind))[x] {
      assert (multiset(Flatten(ind[k := route])) + multiset(ind[k]))[x] == (multiset(Flatten(ind)) + multiset(route))[x];
    }
  }

  /** Taking a client out of a route loses exactly that visit. */
  lemma RemovedVisits(ind: Individual, k: nat, c: Client)
    requires k < |ind| && c in ind[k]
    ensures multiset(Flatten(ind[k := RemoveFirst(ind[k], c)])) + multiset{c} == multiset(Flatten(ind))
  {
    var rest := RemoveFirst(ind[k], c);
    var after := multiset(Flatten(ind[k := rest]));
    FlattenUpdate(ind, k, rest);
    forall x ensures (after + multiset{c})[x] == multiset(Flatten(ind))[x] {
      assert (after + multiset(ind[k]))[x] == (multiset(Flatten(ind)) + multiset(rest))[x];
      assert multiset(ind[k])[x] == multiset(rest)[x] + multiset{c}[x];
    }
  }

  /** A relocation keeps the visits, or loses the picked client when the
      target slot has no room for it. */
  lemma RelocatedVisits(ind: Individual, k: nat, d: RouteDraw, demands: seq<int>, capacity: int)
    requires k < |ind| && InRange(ind, |demands|)
    requires Relocated(ind, k, d, demands, capacity).Ok?
    ensures var m := Relocated(ind, k, d, demands, capacity).value;
      multiset(Flatten(m)) == multiset(Flatten(ind)) ||
      (d.move && ind[k] != [] && multiset(Flatten(m)) + multiset{Pick(ind[k], d)} == multiset(Flatten(ind)))
  {
    if d.move && ind[k] != [] && |ind| > 1 {
      var c := Pick(ind[k], d);
      var removed := ind[k := RemoveFirst(ind[k], c)];
      RemovedVisits(ind, k, c);
      var candidates := Others(removed, k);
      var t := candidates[d.target % |candidates|];
      if Load(removed[t], demands) + demands[c] <= capacity {
        AppendVisit(removed, t, c);
      }
    }
  }

  /** A swap keeps the visits; a relocation keeps them or loses the picked
      client, which the repair then puts back. */
  lemma MutateRouteVisits(ind: Individual, k: nat, d: RouteDraw, demands: seq<int>, capacity: int)
    requires k < |ind| && InRange(ind, |demands|)
    requires MutateRoute(ind, k, d, demands, capacity).Ok?
    ensures var m := MutateRoute(ind, k, d, demands, capacity).value;
      var sw := Swapped(ind[k], d);
      multiset(Flatten(m)) == multiset(Flatten(ind)) ||
      (d.move && sw != [] && multiset(Flatten(m)) + multiset{Pick(sw, d)} == multiset(Flatten(ind)))
    ensures multiset(Flatten(MutateRoute(ind, k, d, demands, capacity).value)) <= multiset(Flatten(ind))
  {
    var sw := Swapped(ind[k], d);
    var swapped := ind[k := sw];
    PermutedRouteVisits(ind, k, sw);
    InRangeUpdate(ind, k, sw, |demands|);
    RelocatedVisits(swapped, k, d, demands, capacity);
  }

  /** Across all slots the visits only ever shrink. */
  lemma {:induction false} MutateRoutesVisits(ind: Individual, draws: seq<RouteDraw>, n: nat, demands: seq<int>, capacity: int)
    requires n <= |ind| && InRange(ind, |demands|)
    requires MutateRoutes(ind, draws, n, demands, capacity).Ok?
    ensures multiset(Flatten(MutateRoutes(ind, draws, n, demands, capacity).value)) <= multiset(Flatten(ind))
  {
    if n > 0 {
      var prev := MutateRoutes(ind, draws, n - 1, demands, capacity);
      MutateRoutesVisits(ind, draws, n - 1, demands, capacity);
      MutateRouteVisits(prev.value, n - 1, DrawAt(draws, n - 1), demands, capacity);
    }
  }

  /** The mutated individual keeps the number of routes and, after the
      repair, never visits a client twice if the input did not. */
  lemma MutatedNoDuplicates(ind: Individual, draws: seq<RouteDraw>, demands: seq<int>, capacity: int, order: seq<Client>)
    requires InRange(ind, |demands|) && IsEnumeration(order, |demands|)
    requires NoDuplicateVisits(ind)
    requires Mutated(ind, draws, demands, capacity, order).Ok?
    ensures NoDuplicateVisits(Mutated(ind, draws, demands, capacity, order).value)
  {
    var m := MutateRoutes(ind, draws, |ind|, demands, capacity).value;
    MutateRoutesVisits(ind, draws, |ind|, demands, capacity);
    DistinctSub(Flatten(m), Flatten(ind));
    Repair.RepairedVisits(m, demands, capacity, order);
  }

  // ---------------------------------------------------------------------
  // Where the relocated client goes, and the capacity a mutation keeps.

  /** Taking a client out of a route lowers its load by that client's
      demand. */
  lemma RemoveFirstLoad(route: Route, c: Client, demands: seq<int>)
    requires c in route
    ensures Load(RemoveFirst(route, c), demands) + Demand(demands, c) == Load(route, demands)
  {
    var p := IndexOf(route, c);
    assert route == (route[..p] + [c]) + route[p + 1..];
    LoadConcat(route[..p] + [c], route[p + 1..], demands);
    LoadAppend(route[..p], c, demands);
    LoadConcat(route[..p], route[p + 1..], demands);
  }

  /** Routes holding the same clients have the same load. */
  lemma {:induction false} LoadPermutation(a: Route, b: Route, demands: seq<int>)
    requires multiset(a) == multiset(b)
    ensures Load(a, demands) == Load(b, demands)
    decreases |a|
  {
    if a == [] {
      assert |b| == |multiset(b)|;
    } else {
      var x := a[|a| - 1];
      var rest := a[..|a| - 1];
      assert a == rest + [x];
      assert x in multiset(b);
      var others := RemoveFirst(b, x);
      assert multiset(rest) == multiset(a) - multiset{x};
      LoadPermutation(rest, others, demands);
      RemoveFirstLoad(b, x, demands);
    }
  }

  /** Lines 127-133: the relocation fails exactly when every slot holds
      what the source slot holds once the client is taken out; otherwise
      the client is appended to a slot with different content when that
      slot has room for it, and dropped when it has not. */
  lemma RelocatedTarget(ind: Individual, k: nat, d: RouteDraw, demands: seq<int>, capacity: int)
    requires k < |ind| && InRange(ind, |demands|)
    requires d.move && ind[k] != [] && |ind| > 1
    ensures var c := Pick(ind[k], d);
      var removed := ind[k := RemoveFirst(ind[k], c)];
      var r := Relocated(ind, k, d, demands, capacity);
      (r.Err? <==> forall i :: 0 <= i < |ind| ==> removed[i] == removed[k]) &&
      (r.Ok? ==> exists t :: (0 <= t < |ind| && removed[t] != removed[k] &&
        r.value == if Load(removed[t], demands) + Demand(demands, c) <= capacity
                   then removed[t := removed[t] + [c]] else removed))
  {
    var c := Pick(ind[k], d);
    var removed := ind[k := RemoveFirst(ind[k], c)];
    OthersMeaning(removed, k);
    var candidates := Others(removed, k);
    if candidates != [] {
      var t := candidates[d.target % |candidates|];
      assert t in candidates;
    }
  }

  /** Demands are never negative. */
  predicate NonNegative(demands: seq<int>) {
    forall c :: 0 <= c < |demands| ==> demands[c] >= 0
  }

  /** With demands that are never negative, a relocation keeps every
      route within capacity: the source route gets lighter and the client
      is appended only where it fits. */
  lemma RelocatedWithinCapacity(ind: Individual, k: nat, d: RouteDraw, demands: seq<int>, capacity: int)
    requires k < |ind| && InRange(ind, |demands|) && NonNegative(demands)
    requires Evaluation.WithinCapacity(ind, demands, capacity)
    requires Relocated(ind, k, d, demands, capacity).Ok?
    ensures Evaluation.WithinCapacity(Relocated(ind, k, d, demands, capacity).value, demands, capacity)
  {
    if d.move && ind[k] != [] && |ind| > 1 {
      var c := Pick(ind[k], d);
      var removed := ind[k := RemoveFirst(ind[k], c)];
      RemoveFirstLoad(ind[k], c, demands);
      assert Evaluation.WithinCapacity(removed, demands, capacity);
      var candidates := Others(removed, k);
      var t := candidates[d.target % |candidates|];
      LoadAppend(removed[t], c, demands);
    }
  }

  /** The swap and the relocation of one slot keep every route within
      capacity. */
  lemma MutateRouteWithinCapacity(ind: Individual, k: nat, d: RouteDraw, demands: seq<int>, capacity: int)
    requires k < |ind| && InRange(ind, |demands|) && NonNegative(demands)
    requires Evaluation.WithinCapacity(ind, demands, capacity)
    requires MutateRoute(ind, k, d, demands, capacity).Ok?
    ensures Evaluation.WithinCapacity(MutateRoute(ind, k, d, demands, capacity).value, demands, capacity)
  {
    var sw := Swapped(ind[k], d);
    LoadPermutation(sw, ind[k], demands);
    InRangeUpdate(ind, k, sw, |demands|);
    assert Evaluation.WithinCapacity(ind[k := sw], demands, capacity);
    RelocatedWithinCapacity(ind[k := sw], k, d, demands, capacity);
  }

  /** The loop of lines 123-133 keeps every route within capacity. */
  lemma {:induction false} MutateRoutesWithinCapacity(ind: Individual, draws: seq<RouteDraw>, n: nat,
                                                      demands: seq<int>, capacity: int)
    requires n <= |ind| && InRange(ind, |demands|) && NonNegative(demands)
    requires Evaluation.WithinCapacity(ind, demands, capacity)
    requires MutateRoutes(ind, draws, n, demands, capacity).Ok?
    ensures Evaluation.WithinCapacity(MutateRoutes(ind, draws, n, demands, capacity).value, demands, capacity)
  {
    if n > 0 {
      var prev := MutateRoutes(ind, draws, n - 1, demands, capacity);
      MutateRoutesWithinCapacity(ind, draws, n - 1, demands, capacity);
      assert MutateRoutes(ind, draws, n, demands, capacity) == MutateRoute(prev.value, n - 1, DrawAt(draws, n - 1), demands, capacity);
      MutateRouteWithinCapacity(prev.value, n - 1, DrawAt(draws, n - 1), demands, capacity);
    }
  }

  /** With demands that are never negative, an individual whose routes are
      within capacity stays so through mutation and repair. */
  lemma MutatedWithinCapacity(ind: Individual, draws: seq<RouteDraw>, demands: seq<int>, capacity: int, order: seq<Client>)
    requires InRange(ind, |demands|) && IsEnumeration(order, |demands|) && NonNegative(demands)
    requires Evaluation.WithinCapacity(ind, demands, capacity)
    requires Mutated(ind, draws, demands, capacity, order).Ok?
    ensures Evaluation.WithinCapacity(Mutated(ind, draws, demands, capacity, order).value, demands, capacity)
  {
    var m := MutateRoutes(ind, draws, |ind|, demands, capacity).value;
    MutateRoutesWithinCapacity(ind, draws, |ind|, demands, capacity);
    Repair.RepairedCapacity(m, demands, capacity, order);
  }
}
