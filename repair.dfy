/** The repair step (ensure_all_clients): every client no route visits is
    appended to the first route with room for it, or else to a new route of
    its own; the routes beyond the original count are then cut off. */
module Repair {
  import opened Routes
  import Evaluation

  /** `list(all_clients - attended)`: the clients of `order` that no route
      visits, in the order in which the set hands them out. */
  function Missing(ind: Individual, order: seq<Client>): (r: seq<Client>)
    ensures forall c :: c in r <==> c in order && !Serves(ind, c)
    ensures multiset(r) <= multiset(order)
    ensures (forall k :: 0 <= k < |order| ==> Serves(ind, order[k])) ==> r == []
  {
    if order == [] then []
    else
      assert order == [order[0]] + order[1..];
      (if Serves(ind, order[0]) then [] else [order[0]]) + Missing(ind, order[1..])
  }

  /** The missing clients of an enumeration of `0..n` are all below `n`. */
  lemma MissingInRange(ind: Individual, order: seq<Client>, n: nat)
    requires IsEnumeration(order, n)
    ensures forall k :: 0 <= k < |Missing(ind, order)| ==> Missing(ind, order)[k] < n
  {
    var missing := Missing(ind, order);
    forall k | 0 <= k < |missing| ensures missing[k] < n {
      assert missing[k] in missing;
    }
  }

  /** One pass of the loop over `missing` (genetic_algorithm.py:97-113):
      the first route with room (lines 100-105), else the first of the
      original `kept` routes with room by the unfiltered sum (lines 107-111),
      else a new route holding only the client (line 113). */
  function Place(ind: Individual, c: Client, kept: nat, demands: seq<int>, capacity: int): (r: Individual)
    requires c < |demands| && kept <= |ind| && InRange(ind, |demands|)
    ensures InRange(r, |demands|) && |r| >= |ind|
  {
    var demand := demands[c];
    match FirstFit(Loads(ind, demands), demand, capacity)
    case Some(i) => ind[i := ind[i] + [c]]
    case None =>
      match FirstFit(RawLoads(ind[..kept], demands), demand, capacity)
      case Some(j) => ind[j := ind[j] + [c]]
      case None => ind + [[c]]
  }

  /** Places the clients `cs` one after the other. */
  function PlaceAll(ind: Individual, cs: seq<Client>, kept: nat, demands: seq<int>, capacity: int): (r: Individual)
    requires forall k :: 0 <= k < |cs| ==> cs[k] < |demands|
    requires kept <= |ind| && InRange(ind, |demands|)
    ensures InRange(r, |demands|) && |r| >= |ind|
  {
    if cs == [] then ind
    else Place(PlaceAll(ind, cs[..|cs| - 1], kept, demands, capacity), cs[|cs| - 1], kept, demands, capacity)
  }

  /** ensure_all_clients as a value: place every missing client, then keep
      only as many routes as the input had (line 118). */
  function Repaired(ind: Individual, demands: seq<int>, capacity: int, order: seq<Client>): (r: Individual)
    requires InRange(ind, |demands|) && IsEnumeration(order, |demands|)
    ensures |r| == |ind|
    ensures InRange(r, |demands|)
  {
    var missing := Missing(ind, order);
    MissingInRange(ind, order, |demands|);
    PlaceAll(ind, missing, |ind|, demands, capacity)[..|ind|]
  }

  /** One pass of the loop over `missing` (genetic_algorithm.py:98-113):
      the two scans with `break` and the fallback append. */
  method PlaceClient(ind: Individual, idx: Client, kept: nat, demands: seq<int>, capacity: int)
    returns (r: Individual)
    requires idx < |demands| && kept <= |ind| && InRange(ind, |demands|)
    ensures r == Place(ind, idx, kept, demands, capacity)
  {
    var demand := demands[idx];
    var i := 0;
    while i < |ind|
      invariant 0 <= i <= |ind|
      invariant forall j :: 0 <= j < i ==> Load(ind[j], demands) + demand > capacity
    {
      if Load(ind[i], demands) + demand <= capacity {
        assert Loads(ind, demands)[i] + demand <= capacity;
        return ind[i := ind[i] + [idx]];
      }
      i := i + 1;
    }
    assert FirstFit(Loads(ind, demands), demand, capacity).None?;
    var k := 0;
    while k < kept
      invariant 0 <= k <= kept
      invariant forall j :: 0 <= j < k ==> RawLoad(ind[j], demands) + demand > capacity
    {
      if RawLoad(ind[k], demands) + demand <= capacity {
        assert RawLoads(ind[..kept], demands)[k] + demand <= capacity;
        return ind[k := ind[k] + [idx]];
      }
      k := k + 1;
    }
    assert FirstFit(RawLoads(ind[..kept], demands), demand, capacity).None?;
    r := ind + [[idx]];
  }

  /** The loop of lines 97-113, the padding loop of lines 115-116 (which
      never runs: placing clients only ever adds routes) and the truncation
      of lines 117-118. */
  method EnsureAllClients(individual: Individual, demands: seq<int>, capacity: int, order: seq<Client>)
    returns (result: Individual)
    requires InRange(individual, |demands|) && IsEnumeration(order, |demands|)
    ensures result == Repaired(individual, demands, capacity, order)
  {
    var numVehicles := |individual|;
    var missing := Missing(individual, order);
    MissingInRange(individual, order, |demands|);
    var ind := individual;
    for m := 0 to |missing|
      invariant ind == PlaceAll(individual, missing[..m], numVehicles, demands, capacity)
    {
      ind := PlaceClient(ind, missing[m], numVehicles, demands, capacity);
      assert missing[..m + 1][..m] == missing[..m];
    }
    assert missing[..|missing|] == missing;
    if |ind| > numVehicles {
      ind := ind[..numVehicles];
    }
    result := ind;
  }

  // ---------------------------------------------------------------------
  // One placement.

  /** The second scan (lines 107-111) never finds a route the first scan
      (lines 100-105) passed over: on visits that all name a client the
      filtered and the unfiltered sums agree. */
  lemma SecondScanFindsNothing(ind: Individual, c: Client, kept: nat, demands: seq<int>, capacity: int)
    requires c < |demands| && kept <= |ind| && InRange(ind, |demands|)
    requires FirstFit(Loads(ind, demands), demands[c], capacity).None?
    ensures FirstFit(RawLoads(ind[..kept], demands), demands[c], capacity).None?
  {
    var raw := RawLoads(ind[..kept], demands);
    forall j | 0 <= j < kept ensures raw[j] + demands[c] > capacity {
      assert ind[..kept][j] == ind[j];
      RawLoadIsLoad(ind[j], demands);
      assert Loads(ind, demands)[j] == Load(ind[j], demands);
    }
  }

  /** A placement goes to the first route with room, or to a new route. */
  lemma PlaceChoice(ind: Individual, c: Client, kept: nat, demands: seq<int>, capacity: int)
    requires c < |demands| && kept <= |ind| && InRange(ind, |demands|)
    ensures var r := Place(ind, c, kept, demands, capacity);
      match FirstFit(Loads(ind, demands), demands[c], capacity)
      case Some(i) => r == ind[i := ind[i] + [c]]
      case None => r == ind + [[c]]
  {
    if FirstFit(Loads(ind, demands), demands[c], capacity).None? {
      SecondScanFindsNothing(ind, c, kept, demands, capacity);
    }
  }

  // ---------------------------------------------------------------------
  // Placing a list of clients.

  /** Placements only append: every route grows by a suffix. */
  lemma {:induction false} PlaceAllExtends(ind: Individual, cs: seq<Client>, kept: nat, demands: seq<int>, capacity: int)
    requires forall k :: 0 <= k < |cs| ==> cs[k] < |demands|
    requires kept <= |ind| && InRange(ind, |demands|)
    ensures forall i :: 0 <= i < |ind| ==> ind[i] <= PlaceAll(ind, cs, kept, demands, capacity)[i]
    decreases |cs|
  {
    if cs != [] {
      var prev := PlaceAll(ind, cs[..|cs| - 1], kept, demands, capacity);
      PlaceAllExtends(ind, cs[..|cs| - 1], kept, demands, capacity);
      PlaceChoice(prev, cs[|cs| - 1], kept, demands, capacity);
    }
  }

  /** One placement adds exactly one visit of the placed client. */
  lemma PlaceVisits(ind: Individual, c: Client, kept: nat, demands: seq<int>, capacity: int)
    requires c < |demands| && kept <= |ind| && InRange(ind, |demands|)
    ensures multiset(Flatten(Place(ind, c, kept, demands, capacity))) == multiset(Flatten(ind)) + multiset{c}
  {
    PlaceChoice(ind, c, kept, demands, capacity);
    match FirstFit(Loads(ind, demands), demands[c], capacity)
    case Some(i) => AppendVisit(ind, i, c);
    case None => FlattenAppend(ind, [c]);
  }

  /** Each placed client is visited exactly once more; nothing else changes
      in the visits. */
  lemma {:induction false} PlaceAllVisits(ind: Individual, cs: seq<Client>, kept: nat, demands: seq<int>, capacity: int)
    requires forall k :: 0 <= k < |cs| ==> cs[k] < |demands|
    requires kept <= |ind| && InRange(ind, |demands|)
    ensures multiset(Flatten(PlaceAll(ind, cs, kept, demands, capacity))) == multiset(Flatten(ind)) + multiset(cs)
    decreases |cs|, 1
  {
    if cs != [] {
      PlaceLastVisits(ind, cs, kept, demands, capacity);
    } else {
      assert multiset(cs) == multiset{};
    }
  }

  /** The induction step of PlaceAllVisits: the last client placed. */
  lemma {:induction false} PlaceLastVisits(ind: Individual, cs: seq<Client>, kept: nat, demands: seq<int>, capacity: int)
    requires forall k :: 0 <= k < |cs| ==> cs[k] < |demands|
    requires kept <= |ind| && InRange(ind, |demands|) && cs != []
    ensures multiset(Flatten(PlaceAll(ind, cs, kept, demands, capacity))) == multiset(Flatten(ind)) + multiset(cs)
    decreases |cs|, 0
  {
    var init := cs[..|cs| - 1];
    var x := cs[|cs| - 1];
    var prev := PlaceAll(ind, init, kept, demands, capacity);
    assert PlaceAll(ind, cs, kept, demands, capacity) == Place(prev, x, kept, demands, capacity);
    PlaceAllVisits(ind, init, kept, demands, capacity);
    PlaceVisits(prev, x, kept, demands, capacity);
    AddLast(multiset(Flatten(PlaceAll(ind, cs, kept, demands, capacity))), multiset(Flatten(prev)), multiset(Flatten(ind)), cs);
  }

  lemma AddLast(after: multiset<Client>, mid: multiset<Client>, before: multiset<Client>, cs: seq<Client>)
    requires cs != []
    requires mid == before + multiset(cs[..|cs| - 1]) && after == mid + multiset{cs[|cs| - 1]}
    ensures after == before + multiset(cs)
  {
    assert cs == cs[..|cs| - 1] + [cs[|cs| - 1]];
  }

  /** A client only joins a route it fits into, so every original route is
      either untouched or within capacity. */
  lemma {:induction false} PlaceAllCapacity(ind: Individual, cs: seq<Client>, kept: nat, demands: seq<int>, capacity: int)
    requires forall k :: 0 <= k < |cs| ==> cs[k] < |demands|
    requires kept <= |ind| && InRange(ind, |demands|)
    ensures var r := PlaceAll(ind, cs, kept, demands, capacity);
      forall i :: 0 <= i < |ind| ==> r[i] == ind[i] || Load(r[i], demands) <= capacity
    decreases |cs|
  {
    if cs != [] {
      var x := cs[|cs| - 1];
      var prev := PlaceAll(ind, cs[..|cs| - 1], kept, demands, capacity);
      PlaceAllCapacity(ind, cs[..|cs| - 1], kept, demands, capacity);
      PlaceChoice(prev, x, kept, demands, capacity);
      match FirstFit(Loads(prev, demands), demands[x], capacity)
      case Some(i) => LoadAppend(prev[i], x, demands);
      case None =>
    }
  }

  /** A placement leaves the first `n` routes without client `c` when none
      of them has room for it. */
  lemma PlaceAvoids(ind: Individual, x: Client, kept: nat, demands: seq<int>, capacity: int, c: Client, n: nat)
    requires x < |demands| && kept <= |ind| && InRange(ind, |demands|)
    requires c < |demands| && n <= |ind|
    requires forall i :: 0 <= i < n ==> c !in ind[i] && Load(ind[i], demands) + demands[c] > capacity
    ensures var r := Place(ind, x, kept, demands, capacity);
      forall i :: 0 <= i < n ==> c !in r[i]
  {
    PlaceChoice(ind, x, kept, demands, capacity);
    var loads := Loads(ind, demands);
    match FirstFit(loads, demands[x], capacity)
    case Some(k) =>
      assert x == c ==> k >= n;
    case None =>
  }

  /** A client that fits into no original route, and demands never being
      negative, never lands on an original route: loads only grow. */
  lemma {:induction false} PlaceAllAvoids(ind: Individual, cs: seq<Client>, kept: nat, demands: seq<int>, capacity: int, c: Client)
    requires forall k :: 0 <= k < |cs| ==> cs[k] < |demands|
    requires kept <= |ind| && InRange(ind, |demands|)
    requires forall d :: 0 <= d < |demands| ==> demands[d] >= 0
    requires c < |demands|
    requires forall i :: 0 <= i < |ind| ==> c !in ind[i] && Load(ind[i], demands) + demands[c] > capacity
    ensures forall i :: 0 <= i < |ind| ==> c !in PlaceAll(ind, cs, kept, demands, capacity)[i]
    decreases |cs|
  {
    if cs != [] {
      var x := cs[|cs| - 1];
      var prev := PlaceAll(ind, cs[..|cs| - 1], kept, demands, capacity);
      PlaceAllAvoids(ind, cs[..|cs| - 1], kept, demands, capacity, c);
      PlaceAllExtends(ind, cs[..|cs| - 1], kept, demands, capacity);
      assert forall i :: 0 <= i < |ind| ==> c !in prev[i];
      forall i | 0 <= i < |ind| ensures Load(prev[i], demands) + demands[c] > capacity {
        LoadPrefixMonotone(ind[i], prev[i], demands);
      }
      PlaceAvoids(prev, x, kept, demands, capacity, c, |ind|);
    }
  }

  /** While the first route has room for all of them, every client joins it,
      in order. */
  lemma {:induction false} PlaceAllIntoFirst(ind: Individual, cs: seq<Client>, kept: nat, demands: seq<int>, capacity: int)
    requires forall k :: 0 <= k < |cs| ==> cs[k] < |demands|
    requires kept <= |ind| && InRange(ind, |demands|) && |ind| >= 1
    requires forall d :: 0 <= d < |demands| ==> demands[d] >= 0
    requires Load(ind[0] + cs, demands) <= capacity
    ensures PlaceAll(ind, cs, kept, demands, capacity) == ind[0 := ind[0] + cs]
    decreases |cs|
  {
    if cs == [] {
      assert ind[0] + cs == ind[0];
    } else {
      var init := cs[..|cs| - 1];
      var x := cs[|cs| - 1];
      assert ind[0] + cs == (ind[0] + init) + [x];
      LoadAppend(ind[0] + init, x, demands);
      PlaceAllIntoFirst(ind, init, kept, demands, capacity);
      var prev := PlaceAll(ind, init, kept, demands, capacity);
      PlaceChoice(prev, x, kept, demands, capacity);
      assert Loads(prev, demands)[0] + demands[x] <= capacity;
    }
  }

  // ---------------------------------------------------------------------
  // What ensure_all_clients promises.

  /** Every client of the missing list is a client; they are listed once. */
  lemma MissingClients(ind: Individual, demands: seq<int>, order: seq<Client>)
    requires IsEnumeration(order, |demands|)
    ensures forall k :: 0 <= k < |Missing(ind, order)| ==> Missing(ind, order)[k] < |demands|
    ensures Distinct(Missing(ind, order))
  {
    var missing := Missing(ind, order);
    forall k | 0 <= k < |missing| ensures missing[k] < |demands| {
      assert missing[k] in missing;
    }
    DistinctSub(missing, order);
  }

  /** The result keeps every input route as a prefix of the route in the
      same slot, so no client already served is lost. */
  lemma RepairedExtends(ind: Individual, demands: seq<int>, capacity: int, order: seq<Client>)
    requires InRange(ind, |demands|) && IsEnumeration(order, |demands|)
    ensures var r := Repaired(ind, demands, capacity, order);
      (forall i :: 0 <= i < |ind| ==> ind[i] <= r[i]) &&
      (forall c :: Serves(ind, c) ==> Serves(r, c))
  {
    MissingClients(ind, demands, order);
    PlaceAllExtends(ind, Missing(ind, order), |ind|, demands, capacity);
    var r := Repaired(ind, demands, capacity, order);
    forall c | Serves(ind, c) ensures Serves(r, c) {
      var i :| 0 <= i < |ind| && c in ind[i];
      assert c in r[i];
    }
  }

  /** Routes that fit stay within capacity, and a route is changed only if
      it ends up within capacity. */
  lemma RepairedCapacity(ind: Individual, demands: seq<int>, capacity: int, order: seq<Client>)
    requires InRange(ind, |demands|) && IsEnumeration(order, |demands|)
    ensures var r := Repaired(ind, demands, capacity, order);
      (forall i :: 0 <= i < |ind| ==> r[i] == ind[i] || Load(r[i], demands) <= capacity) &&
      (Evaluation.WithinCapacity(ind, demands, capacity) ==> Evaluation.WithinCapacity(r, demands, capacity))
  {
    MissingClients(ind, demands, order);
    PlaceAllCapacity(ind, Missing(ind, order), |ind|, demands, capacity);
  }

  /** Only missing clients are added, so an individual without duplicate
      visits keeps that property. */
  lemma RepairedVisits(ind: Individual, demands: seq<int>, capacity: int, order: seq<Client>)
    requires InRange(ind, |demands|) && IsEnumeration(order, |demands|)
    ensures var r := Repaired(ind, demands, capacity, order);
      multiset(Flatten(r)) <= multiset(Flatten(ind)) + multiset(Missing(ind, order)) &&
      (NoDuplicateVisits(ind) ==> NoDuplicateVisits(r))
  {
    var missing := Missing(ind, order);
    MissingClients(ind, demands, order);
    var placed := PlaceAll(ind, missing, |ind|, demands, capacity);
    PlaceAllVisits(ind, missing, |ind|, demands, capacity);
    FlattenTake(placed, |ind|);
    if NoDuplicateVisits(ind) {
      var both := Flatten(ind) + missing;
      forall x ensures multiset(both)[x] <= 1 {
        assert multiset(both)[x] == multiset(Flatten(ind))[x] + multiset(missing)[x];
        if x in missing {
          FlattenMembership(ind, x);
        }
      }
      DistinctSub(Flatten(placed[..|ind|]), both);
    }
  }

  /** A missing client that fits into no input route is still missing after
      the repair: it goes into an appended route, which the truncation of
      line 118 removes. */
  lemma RepairedLeavesUnplaceable(ind: Individual, demands: seq<int>, capacity: int, order: seq<Client>, c: Client)
    requires InRange(ind, |demands|) && IsEnumeration(order, |demands|)
    requires forall d :: 0 <= d < |demands| ==> demands[d] >= 0
    requires c < |demands| && !Serves(ind, c)
    requires forall i :: 0 <= i < |ind| ==> Load(ind[i], demands) + demands[c] > capacity
    ensures !Serves(Repaired(ind, demands, capacity, order), c)
  {
    MissingClients(ind, demands, order);
    var missing := Missing(ind, order);
    var r := Repaired(ind, demands, capacity, order);
    PlaceAllAvoids(ind, missing, |ind|, demands, capacity, c);
    assert forall i :: 0 <= i < |r| ==> r[i] == PlaceAll(ind, missing, |ind|, demands, capacity)[i];
  }

  /** Nothing to do when every client is already served. */
  lemma RepairedIdle(ind: Individual, demands: seq<int>, capacity: int, order: seq<Client>)
    requires InRange(ind, |demands|) && IsEnumeration(order, |demands|)
    requires Evaluation.ServesAll(ind, |demands|)
    ensures Repaired(ind, demands, capacity, order) == ind
  {
    assert forall k :: 0 <= k < |order| ==> Serves(ind, order[k]);
    assert ind[..|ind|] == ind;
  }

  /** When the first route has room for all missing clients, they all join
      it and the result serves every client. */
  lemma RepairedFillsFirstRoute(ind: Individual, demands: seq<int>, capacity: int, order: seq<Client>)
    requires InRange(ind, |demands|) && IsEnumeration(order, |demands|) && |ind| >= 1
    requires forall d :: 0 <= d < |demands| ==> demands[d] >= 0
    requires Load(ind[0] + Missing(ind, order), demands) <= capacity
    ensures var r := Repaired(ind, demands, capacity, order);
      r == ind[0 := ind[0] + Missing(ind, order)] && Evaluation.ServesAll(r, |demands|)
  {
    var missing := Missing(ind, order);
    MissingClients(ind, demands, order);
    PlaceAllIntoFirst(ind, missing, |ind|, demands, capacity);
    var r := Repaired(ind, demands, capacity, order);
    assert r == ind[0 := ind[0] + missing];
    forall c | 0 <= c < |demands| ensures Serves(r, c) {
      if Serves(ind, c) {
        var i :| 0 <= i < |ind| && c in ind[i];
        assert c in r[i];
      } else {
        assert c in order;
        assert c in r[0];
      }
    }
  }

  /** Repair never shortens a route, so a route over capacity stays over
      capacity: an individual with an overloaded route is not made feasible
      (for example three clients of demand 1, capacity 1, and the routes
      `[[0, 1], [], []]`). */
  lemma RepairedKeepsOverload(ind: Individual, demands: seq<int>, capacity: int, order: seq<Client>, i: nat)
    requires InRange(ind, |demands|) && IsEnumeration(order, |demands|)
    requires forall d :: 0 <= d < |demands| ==> demands[d] >= 0
    requires i < |ind| && Load(ind[i], demands) > capacity
    ensures Load(Repaired(ind, demands, capacity, order)[i], demands) > capacity
  {
    RepairedExtends(ind, demands, capacity, order);
    LoadPrefixMonotone(ind[i], Repaired(ind, demands, capacity, order)[i], demands);
  }
}
