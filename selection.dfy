/** Parent selection (select_parents): the first K individuals of an
    ascending argsort of the fitness values. */
module Selection {
  import opened Routes

  /** Fitness values listed in `order` never decrease. */
  ghost predicate Ascending(order: seq<nat>, fit: seq<Fitness>)
    requires forall i :: 0 <= i < |order| ==> order[i] < |fit|
  {
    forall i, j :: 0 <= i < j < |order| ==> Le(fit[order[i]], fit[order[j]])
  }

  /** What `np.argsort(fit)` returns: every index once, in nondecreasing order
      of fitness. The order among equal values is not specified (the default
      sort of numpy is not stable), so any such permutation is admitted. */
  ghost predicate IsAscendingArgsort(order: seq<nat>, fit: seq<Fitness>) {
    |order| == |fit| && IsEnumeration(order, |fit|) && Ascending(order, fit)
  }

  /** select_parents: the individuals at the first `count` positions of the
      argsort `order` (all of them when there are fewer). */
  function SelectParents(population: seq<Individual>, fit: seq<Fitness>, count: nat, order: seq<nat>)
    : (parents: seq<Individual>)
    requires |fit| == |population|
    requires IsAscendingArgsort(order, fit)
    ensures |parents| == if count <= |population| then count else |population|
    ensures forall i :: 0 <= i < |parents| ==> parents[i] == population[order[i]]
    // the chosen individuals come in nondecreasing fitness ...
    ensures forall i, j :: 0 <= i < j < |parents| ==> Le(fit[order[i]], fit[order[j]])
    // ... and none scores worse than any individual left out
    ensures forall i, j :: 0 <= i < |parents| && 0 <= j < |fit| && j !in order[..|parents|] ==>
              Le(fit[order[i]], fit[j])
  {
    var m := if count <= |population| then count else |population|;
    forall i, j | 0 <= i < m && 0 <= j < |fit| && j !in order[..m]
      ensures Le(fit[order[i]], fit[j])
    {
      assert j in order;
      var p :| 0 <= p < |order| && order[p] == j;
      forall q | 0 <= q < m ensures order[q] != j {
        assert order[q] == order[..m][q];
      }
    }
    seq(m, i requires 0 <= i < m => population[order[i]])
  }

  /** The sentinel sorts last: once an infeasible individual is chosen, every
      individual left out is infeasible too. */
  lemma InfeasibleLast(population: seq<Individual>, fit: seq<Fitness>, count: nat, order: seq<nat>, i: nat, j: nat)
    requires |fit| == |population| && IsAscendingArgsort(order, fit)
    requires i < |SelectParents(population, fit, count, order)|
    requires fit[order[i]] == Infeasible
    requires j < |fit| && j !in order[..|SelectParents(population, fit, count, order)|]
    ensures fit[j] == Infeasible
  {
  }

  /** Ties are broken by whatever order the sort leaves them in: two
      individuals of equal fitness may be selected in either order. */
  lemma TieOrderUnspecified(a: Individual, b: Individual)
    requires a != b
    ensures var fit := [Dist(1.0), Dist(1.0)];
            IsAscendingArgsort([0, 1], fit) && IsAscendingArgsort([1, 0], fit) &&
            SelectParents([a, b], fit, 1, [0, 1]) == [a] &&
            SelectParents([a, b], fit, 1, [1, 0]) == [b]
  {
    TwoIndexOrders();
  }

  /** Both orders of two indices list each index once. */
  lemma TwoIndexOrders()
    ensures IsEnumeration([0, 1], 2) && IsEnumeration([1, 0], 2)
  {
    assert multiset([0, 1]) == multiset(Routes.Ascending(2)) by {
      assert Routes.Ascending(2) == [0, 1];
    }
    assert multiset([1, 0]) == multiset([0, 1]);
    AscendingIsEnumeration(2);
    EnumerationByMultiset([0, 1], Routes.Ascending(2), 2);
    EnumerationByMultiset([1, 0], Routes.Ascending(2), 2);
  }

  // ---------------------------------------------------------------------
  // An ascending argsort always exists: a stable insertion sort of the
  // indices. It shows that requiring one of the caller is no restriction.
  // ---------------------------------------------------------------------

  /** Inserts index `i` after every index of no greater fitness. */
  function Insert(i: nat, sorted: seq<nat>, fit: seq<Fitness>): (r: seq<nat>)
    requires i < |fit| && forall k :: 0 <= k < |sorted| ==> sorted[k] < |fit|
    ensures multiset(r) == multiset(sorted) + multiset{i}
    ensures forall k :: 0 <= k < |r| ==> r[k] < |fit|
  {
    if sorted == [] then [i]
    else if Lt(fit[i], fit[sorted[0]]) then [i] + sorted
    else
      assert sorted == [sorted[0]] + sorted[1..];
      [sorted[0]] + Insert(i, sorted[1..], fit)
  }

  lemma {:induction false} InsertAscending(i: nat, sorted: seq<nat>, fit: seq<Fitness>)
    requires i < |fit| && forall k :: 0 <= k < |sorted| ==> sorted[k] < |fit|
    requires Ascending(sorted, fit)
    ensures Ascending(Insert(i, sorted, fit), fit)
  {
    if sorted != [] && !Lt(fit[i], fit[sorted[0]]) {
      var rest := sorted[1..];
      InsertAscending(i, rest, fit);
      var r := Insert(i, sorted, fit);
      var tail := Insert(i, rest, fit);
      assert r == [sorted[0]] + tail;
      forall a, b | 0 <= a < b < |r| ensures Le(fit[r[a]], fit[r[b]]) {
        if a == 0 {
          // r[b] is either i or an element of rest, both no smaller than sorted[0]
          assert r[b] in multiset(tail);
          assert r[b] == i || r[b] in multiset(rest);
          if r[b] != i {
            var p :| 0 <= p < |rest| && rest[p] == r[b];
            assert sorted[p + 1] == r[b];
          }
        }
      }
    }
  }

  /** The indices `0..m-1` sorted by fitness. */
  function SortIndices(m: nat, fit: seq<Fitness>): (r: seq<nat>)
    requires m <= |fit|
    ensures multiset(r) == multiset(Routes.Ascending(m))
    ensures forall k :: 0 <= k < |r| ==> r[k] < |fit|
  {
    if m == 0 then [] else Insert(m - 1, SortIndices(m - 1, fit), fit)
  }

  lemma {:induction false} SortIndicesAscending(m: nat, fit: seq<Fitness>)
    requires m <= |fit|
    ensures Ascending(SortIndices(m, fit), fit)
  {
    if m > 0 {
      SortIndicesAscending(m - 1, fit);
      InsertAscending(m - 1, SortIndices(m - 1, fit), fit);
    }
  }

  /** A stable ascending argsort. */
  function StableArgsort(fit: seq<Fitness>): seq<nat> {
    SortIndices(|fit|, fit)
  }

  /** Every fitness list has an ascending argsort. */
  lemma StableArgsortIsArgsort(fit: seq<Fitness>)
    ensures IsAscendingArgsort(StableArgsort(fit), fit)
  {
    var r := StableArgsort(fit);
    SortIndicesAscending(|fit|, fit);
    AscendingIsEnumeration(|fit|);
    EnumerationByMultiset(r, Routes.Ascending(|fit|), |fit|);
    assert |r| == |multiset(r)| == |multiset(Routes.Ascending(|fit|))| == |fit|;
  }
}
