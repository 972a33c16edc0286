/** The greedy initializer (initialize_population): each individual takes a
    shuffled client order and fills vehicle slots one after the other while
    the current slot has room. */
module Population {
  import opened Routes
  import Evaluation

  /** The loop state of one individual: the routes, `current_vehicle` and
      `current_capacity`. */
  datatype Greedy = Greedy(routes: Individual, vehicle: nat, load: int)

  /** Before the first client: `k` empty routes, slot 0, nothing loaded. */
  function Start(k: nat): (g: Greedy)
    ensures |g.routes| == k && g.vehicle == 0 && g.load == 0
  {
    Greedy(EmptyRoutes(k), 0, 0)
  }

  /** One pass of the loop over the shuffled clients
      (genetic_algorithm.py:16-31). Once `vehicle` has reached `k` the outer
      `if` has no `else`, so the client is skipped. */
  function Assign(g: Greedy, idx: Client, k: nat, demands: seq<int>, capacity: int): (r: Greedy)
    requires idx < |demands| && |g.routes| == k && InRange(g.routes, |demands|)
    ensures |r.routes| == k && InRange(r.routes, |demands|)
    ensures g.vehicle <= r.vehicle
  {
    var demand := demands[idx];
    if g.vehicle < k then
      if g.load + demand <= capacity then
        Greedy(g.routes[g.vehicle := g.routes[g.vehicle] + [idx]], g.vehicle, g.load + demand)
      else if g.vehicle + 1 < k then
        Greedy(g.routes[g.vehicle + 1 := g.routes[g.vehicle + 1] + [idx]], g.vehicle + 1, demand)
      else
        match FirstFit(RawLoads(g.routes, demands), demand, capacity)
        case Some(i) => Greedy(g.routes[i := g.routes[i] + [idx]], g.vehicle + 1, g.load)
        case None => Greedy(g.routes, g.vehicle + 1, g.load)
    else
      g
  }

  /** The clients of `order` assigned one after the other, from `g`. */
  function Fill(g: Greedy, order: seq<Client>, k: nat, demands: seq<int>, capacity: int): (r: Greedy)
    requires forall j :: 0 <= j < |order| ==> order[j] < |demands|
    requires |g.routes| == k && InRange(g.routes, |demands|)
    ensures |r.routes| == k && InRange(r.routes, |demands|)
    ensures g.vehicle <= r.vehicle
  {
    if order == [] then g
    else Assign(Fill(g, order[..|order| - 1], k, demands, capacity), order[|order| - 1], k, demands, capacity)
  }

  /** The individual built from one shuffled order. */
  function Greedily(order: seq<Client>, k: nat, demands: seq<int>, capacity: int): (r: Individual)
    requires forall j :: 0 <= j < |order| ==> order[j] < |demands|
    ensures |r| == k
  {
    Fill(Start(k), order, k, demands, capacity).routes
  }

  /** initialize_population (genetic_algorithm.py:5-33). `shuffles[p]` is
      the order `random.shuffle` gave the clients for individual `p`. */
  method InitializePopulation(numClients: nat, populationSize: nat, numVehicles: int,
                              demands: seq<int>, capacity: int, shuffles: seq<seq<Client>>)
    returns (r: Result<seq<Individual>>)
    requires numClients <= |demands| && |shuffles| == populationSize
    requires forall p :: 0 <= p < populationSize ==> IsEnumeration(shuffles[p], numClients)
    ensures r.Err? <==> numClients == 0 || numVehicles < 1
    ensures r.Err? ==> r.error == InvalidInstance
    ensures r.Ok? ==> (numVehicles >= 1 && |r.value| == populationSize &&
      forall p :: 0 <= p < populationSize ==>
        (forall j :: 0 <= j < |shuffles[p]| ==> shuffles[p][j] < |demands|) &&
        r.value[p] == Greedily(shuffles[p], numVehicles, demands, capacity))
  {
    if numClients == 0 || numVehicles < 1 {
      return Err(InvalidInstance);
    }
    var k: nat := numVehicles;
    var population: seq<Individual> := [];
    for p := 0 to populationSize
      invariant |population| == p
      invariant forall q :: 0 <= q < p ==> population[q] == Greedily(shuffles[q], k, demands, capacity)
    {
      assert forall j :: 0 <= j < |shuffles[p]| ==> shuffles[p][j] < |demands|;
      var individual := GreedyIndividual(shuffles[p], k, demands, capacity);
      population := population + [individual];
    }
    return Ok(population);
  }

  /** The body of the loop of lines 11-32 for one shuffled order: the
      routes filled in place, client after client. */
  method GreedyIndividual(order: seq<Client>, k: nat, demands: seq<int>, capacity: int) returns (individual: Individual)
    requires forall j :: 0 <= j < |order| ==> order[j] < |demands|
    ensures individual == Greedily(order, k, demands, capacity)
  {
    individual := EmptyRoutes(k);
    var currentVehicle: nat := 0;
    var currentCapacity := 0;
    for t := 0 to |order|
      invariant Greedy(individual, currentVehicle, currentCapacity) == Fill(Start(k), order[..t], k, demands, capacity)
    {
      var idx := order[t];
      var demand := demands[idx];
      if currentVehicle < k {
        if currentCapacity + demand <= capacity {
          individual := individual[currentVehicle := individual[currentVehicle] + [idx]];
          currentCapacity := currentCapacity + demand;
        } else {
          currentVehicle := currentVehicle + 1;
          if currentVehicle < k {
            individual := individual[currentVehicle := individual[currentVehicle] + [idx]];
            currentCapacity := demand;
          } else {
            individual := FallbackScan(individual, idx, demands, capacity);
          }
        }
      }
      assert order[..t + 1][..t] == order[..t];
    }
    assert order[..|order|] == order;
  }

  /** Lines 28-31: the client goes to the first route whose raw load leaves
      room for it, if any. */
  method FallbackScan(routes: Individual, idx: Client, demands: seq<int>, capacity: int) returns (r: Individual)
    requires idx < |demands| && InRange(routes, |demands|)
    ensures r == match FirstFit(RawLoads(routes, demands), demands[idx], capacity)
                 case Some(i) => routes[i := routes[i] + [idx]]
                 case None => routes
  {
    r := routes;
    var demand := demands[idx];
    for i := 0 to |routes|
      invariant r == routes
      invariant forall j :: 0 <= j < i ==> RawLoad(routes[j], demands) + demand > capacity
    {
      if RawLoad(r[i], demands) + demand <= capacity {
        r := r[i := r[i] + [idx]];
        assert RawLoads(routes, demands)[i] + demand <= capacity;
        return;
      }
    }
  }

  // ---------------------------------------------------------------------
  // What the greedy fill keeps.

  /** The loop's invariant: `vehicle` never passes `k`, every slot after the
      current one is still empty, and `load` is the demand carried by the
      current slot. */
  predicate Shaped(g: Greedy, k: nat, demands: seq<int>) {
    |g.routes| == k && g.vehicle <= k &&
    (forall j :: g.vehicle < j < k ==> g.routes[j] == []) &&
    (g.vehicle < k ==> g.load == Load(g.routes[g.vehicle], demands))
  }

  lemma AssignShaped(g: Greedy, idx: Client, k: nat, demands: seq<int>, capacity: int)
    requires idx < |demands| && |g.routes| == k && InRange(g.routes, |demands|)
    requires Shaped(g, k, demands)
    ensures Shaped(Assign(g, idx, k, demands, capacity), k, demands)
  {
    var v := g.vehicle;
    if v < k {
      if g.load + demands[idx] <= capacity {
        LoadAppend(g.routes[v], idx, demands);
      } else if v + 1 < k {
        LoadAppend(g.routes[v + 1], idx, demands);
        assert g.routes[v + 1] + [idx] == [idx];
      }
    }
  }

  lemma {:induction false} FillShaped(order: seq<Client>, k: nat, demands: seq<int>, capacity: int)
    requires forall j :: 0 <= j < |order| ==> order[j] < |demands|
    ensures Shaped(Fill(Start(k), order, k, demands, capacity), k, demands)
  {
    if order == [] {
      assert Load([], demands) == 0;
    } else {
      FillShaped(order[..|order| - 1], k, demands, capacity);
      AssignShaped(Fill(Start(k), order[..|order| - 1], k, demands, capacity), order[|order| - 1], k, demands, capacity);
    }
  }

  /** While a slot is still open, every client so far sits on the routes in
      the shuffled order: reading the routes one after the other gives back
      the order. */
  lemma {:induction false} FillKeepsOrder(order: seq<Client>, k: nat, demands: seq<int>, capacity: int)
    requires forall j :: 0 <= j < |order| ==> order[j] < |demands|
    ensures Fill(Start(k), order, k, demands, capacity).vehicle < k ==>
      Flatten(Fill(Start(k), order, k, demands, capacity).routes) == order
  {
    if order == [] {
      EmptyRoutesVisitNothing(k);
    } else {
      var init := order[..|order| - 1];
      var x := order[|order| - 1];
      var g := Fill(Start(k), init, k, demands, capacity);
      FillKeepsOrder(init, k, demands, capacity);
      FillShaped(init, k, demands, capacity);
      AssignKeepsOrder(g, x, k, demands, capacity);
      assert order == init + [x];
    }
  }

  /** The step of FillKeepsOrder: a client that goes to the current or the
      next slot lands at the end of the reading. */
  lemma AssignKeepsOrder(g: Greedy, x: Client, k: nat, demands: seq<int>, capacity: int)
    requires x < |demands| && |g.routes| == k && InRange(g.routes, |demands|)
    requires Shaped(g, k, demands)
    ensures Assign(g, x, k, demands, capacity).vehicle < k ==>
      Flatten(Assign(g, x, k, demands, capacity).routes) == Flatten(g.routes) + [x]
  {
    var r := Assign(g, x, k, demands, capacity);
    if r.vehicle < k {
      if g.load + demands[x] <= capacity {
        assert r.routes == g.routes[g.vehicle := g.routes[g.vehicle] + [x]];
        FlattenAppendAt(g.routes, g.vehicle, x);
      } else {
        assert r.routes == g.routes[g.vehicle + 1 := g.routes[g.vehicle + 1] + [x]];
        FlattenAppendAt(g.routes, g.vehicle + 1, x);
      }
    }
  }

  /** The visits of one assignment: at most the assigned client is added. */
  lemma AssignVisits(g: Greedy, idx: Client, k: nat, demands: seq<int>, capacity: int)
    requires idx < |demands| && |g.routes| == k && InRange(g.routes, |demands|)
    ensures multiset(Flatten(Assign(g, idx, k, demands, capacity).routes)) <= multiset(Flatten(g.routes)) + multiset{idx}
  {
    var v := g.vehicle;
    var r := Assign(g, idx, k, demands, capacity).routes;
    if v < k {
      if g.load + demands[idx] <= capacity {
        assert r == g.routes[v := g.routes[v] + [idx]];
        AppendVisit(g.routes, v, idx);
      } else if v + 1 < k {
        assert r == g.routes[v + 1 := g.routes[v + 1] + [idx]];
        AppendVisit(g.routes, v + 1, idx);
      } else {
        match FirstFit(RawLoads(g.routes, demands), demands[idx], capacity)
        case Some(i) =>
          assert r == g.routes[i := g.routes[i] + [idx]];
          AppendVisit(g.routes, i, idx);
        case None =>
          assert r == g.routes;
      }
    }
  }

  /** Every visit comes from the order, at most once per listing. */
  lemma {:induction false} FillVisits(order: seq<Client>, k: nat, demands: seq<int>, capacity: int)
    requires forall j :: 0 <= j < |order| ==> order[j] < |demands|
    ensures multiset(Flatten(Greedily(order, k, demands, capacity))) <= multiset(order)
    decreases |order|, 1
  {
    if order == [] {
      EmptyRoutesVisitNothing(k);
    } else {
      FillLastVisits(order, k, demands, capacity);
    }
  }

  /** The induction step of FillVisits: the last client of the order. */
  lemma {:induction false} FillLastVisits(order: seq<Client>, k: nat, demands: seq<int>, capacity: int)
    requires forall j :: 0 <= j < |order| ==> order[j] < |demands|
    requires order != []
    ensures multiset(Flatten(Greedily(order, k, demands, capacity))) <= multiset(order)
    decreases |order|, 0
  {
    var init := order[..|order| - 1];
    var x := order[|order| - 1];
    var g := Fill(Start(k), init, k, demands, capacity);
    assert Greedily(order, k, demands, capacity) == Assign(g, x, k, demands, capacity).routes;
    FillVisits(init, k, demands, capacity);
    AssignVisits(g, x, k, demands, capacity);
    SubAddLast(multiset(Flatten(Greedily(order, k, demands, capacity))), multiset(Flatten(g.routes)), order);
  }

  lemma SubAddLast(after: multiset<Client>, before: multiset<Client>, order: seq<Client>)
    requires order != []
    requires after <= before + multiset{order[|order| - 1]} && before <= multiset(order[..|order| - 1])
    ensures after <= multiset(order)
  {
    assert order == order[..|order| - 1] + [order[|order| - 1]];
  }

  /** From a shuffle of the clients, no client is visited twice. */
  lemma NoDuplicates(order: seq<Client>, n: nat, k: nat, demands: seq<int>, capacity: int)
    requires n <= |demands| && IsEnumeration(order, n)
    ensures NoDuplicateVisits(Greedily(order, k, demands, capacity))
  {
    FillVisits(order, k, demands, capacity);
    DistinctSub(Flatten(Greedily(order, k, demands, capacity)), order);
  }

  /** Filling in two stretches is filling in one. */
  lemma {:induction false} FillConcat(g: Greedy, a: seq<Client>, b: seq<Client>, k: nat, demands: seq<int>, capacity: int)
    requires forall j :: 0 <= j < |a| ==> a[j] < |demands|
    requires forall j :: 0 <= j < |b| ==> b[j] < |demands|
    requires |g.routes| == k && InRange(g.routes, |demands|)
    ensures forall j :: 0 <= j < |a + b| ==> (a + b)[j] < |demands|
    ensures Fill(g, a + b, k, demands, capacity) == Fill(Fill(g, a, k, demands, capacity), b, k, demands, capacity)
    decreases |b|
  {
    assert forall j :: 0 <= j < |a + b| ==> (a + b)[j] < |demands| by {
      forall j | 0 <= j < |a + b| ensures (a + b)[j] < |demands| {
        if j >= |a| { assert (a + b)[j] == b[j - |a|]; }
      }
    }
    if b == [] {
      assert a + b == a;
    } else {
      var b' := b[..|b| - 1];
      assert (a + b)[..|a + b| - 1] == a + b';
      FillConcat(g, a, b', k, demands, capacity);
    }
  }

  /** After the last slot is passed nothing changes any more. */
  lemma {:induction false} FillAfterLastSlot(g: Greedy, order: seq<Client>, k: nat, demands: seq<int>, capacity: int)
    requires forall j :: 0 <= j < |order| ==> order[j] < |demands|
    requires |g.routes| == k && InRange(g.routes, |demands|) && g.vehicle >= k
    ensures Fill(g, order, k, demands, capacity) == g
  {
    if order != [] {
      FillAfterLastSlot(g, order[..|order| - 1], k, demands, capacity);
    }
  }

  /** Once the slots have run out after the first `t` clients, the later
      clients are all left out: the outer `if` at line 18 has no `else`. */
  lemma LaterClientsOmitted(order: seq<Client>, n: nat, k: nat, demands: seq<int>, capacity: int, t: nat)
    requires n <= |demands| && IsEnumeration(order, n) && t <= |order|
    requires Fill(Start(k), order[..t], k, demands, capacity).vehicle >= k
    ensures Greedily(order, k, demands, capacity) == Fill(Start(k), order[..t], k, demands, capacity).routes
    ensures forall s :: t <= s < |order| ==> !Serves(Greedily(order, k, demands, capacity), order[s])
  {
    var g := Fill(Start(k), order[..t], k, demands, capacity);
    assert order == order[..t] + order[t..];
    FillConcat(Start(k), order[..t], order[t..], k, demands, capacity);
    FillAfterLastSlot(g, order[t..], k, demands, capacity);
    FillVisits(order[..t], k, demands, capacity);
    forall s | t <= s < |order| ensures !Serves(g.routes, order[s]) {
      var c := order[s];
      forall q | 0 <= q < t ensures order[..t][q] != c {
        DistinctAt(order, q, s);
      }
      assert c !in multiset(order[..t]);
      FlattenMembership(g.routes, c);
    }
  }

  /** Only the client that runs out the last slot gets the fallback scan:
      it joins the first route with room for it, or no route at all. */
  lemma OverflowingClient(g: Greedy, idx: Client, k: nat, demands: seq<int>, capacity: int)
    requires idx < |demands| && |g.routes| == k && InRange(g.routes, |demands|)
    requires g.vehicle < k && Assign(g, idx, k, demands, capacity).vehicle >= k
    ensures g.vehicle == k - 1 && g.load + demands[idx] > capacity
    ensures var r := Assign(g, idx, k, demands, capacity).routes;
      match FirstFit(Loads(g.routes, demands), demands[idx], capacity)
      case Some(i) => r == g.routes[i := g.routes[i] + [idx]]
      case None => r == g.routes
  {
    forall j | 0 <= j < k ensures RawLoad(g.routes[j], demands) == Load(g.routes[j], demands) {
      RawLoadIsLoad(g.routes[j], demands);
    }
    assert RawLoads(g.routes, demands) == Loads(g.routes, demands);
  }

  /** When no single demand exceeds the capacity, no route does either. */
  lemma {:induction false} FillWithinCapacity(order: seq<Client>, k: nat, demands: seq<int>, capacity: int)
    requires forall j :: 0 <= j < |order| ==> order[j] < |demands|
    requires capacity >= 0 && forall c :: 0 <= c < |demands| ==> demands[c] <= capacity
    ensures Evaluation.WithinCapacity(Greedily(order, k, demands, capacity), demands, capacity)
  {
    if order == [] {
      forall i | 0 <= i < k ensures Load(EmptyRoutes(k)[i], demands) <= capacity {
        assert EmptyRoutes(k)[i] == [];
      }
    } else {
      var init := order[..|order| - 1];
      var x := order[|order| - 1];
      var g := Fill(Start(k), init, k, demands, capacity);
      FillWithinCapacity(init, k, demands, capacity);
      FillShaped(init, k, demands, capacity);
      var r := Assign(g, x, k, demands, capacity);
      assert r == Fill(Start(k), order, k, demands, capacity);
      var v := g.vehicle;
      var d := demands[x];
      if v < k {
        if g.load + d <= capacity {
          LoadAppend(g.routes[v], x, demands);
        } else if v + 1 < k {
          LoadAppend(g.routes[v + 1], x, demands);
          assert Load(r.routes[v + 1], demands) == d;
        } else {
          match FirstFit(RawLoads(g.routes, demands), d, capacity)
          case Some(i) =>
            RawLoadIsLoad(g.routes[i], demands);
            LoadAppend(g.routes[i], x, demands);
          case None =>
        }
      }
    }
  }
}
