# CVRP genetic algorithm: a Dafny model

This project models the evolutionary engine of a Capacitated Vehicle Routing
Problem solver (`genetic_algorithm.py`) and the generation loop of its driver
(`vrp_fogas.py`). An individual is a list of routes, one per vehicle slot; a
route is a list of client indices; the depot is implicit at both ends of
every route. Clients carry integer demands and each vehicle has an integer
capacity.

Modules, one per part of the program:

- `Routes` (routes.dfy): the shared vocabulary. Clients, routes and
  individuals; demand sums (`Load`, and `RawLoad` for the unfiltered sums of
  lines 29 and 108); the first-fit scan; visits as a flattened sequence; the
  fitness datatype `Infeasible | Dist(total)` standing for `float('inf')` and
  finite distances; the errors the code raises.
- `Evaluation` (evaluation.dfy): `calculate_fitness` as the accumulator loop
  it is (`Walk`, `Scan`, `Evaluate`). It is proved equal to an independent
  reference definition: a total tour length when the individual is feasible,
  `Infeasible` otherwise.
- `Selection` (selection.dfy): `select_parents` over any ascending argsort.
  The argsort is an input because numpy's default sort is not stable.
- `Population` (population.dfy): the greedy initializer, written as a method
  with the source's loops and proved equal to a fold over the shuffled order.
- `Repair` (repair.dfy): `ensure_all_clients`, written as a method with its
  loops and proved equal to a value-level definition `Repaired`. The
  properties of the repair are lemmas about `Repaired`.
- `Crossover` (crossover.dfy): `crossover`. Each slot takes one parent's
  route, truncates it to capacity, and the child is then repaired.
- `Mutation` (mutation.dfy): `mutate`. A swap and a relocation per route,
  with the `IndexError` of `random.choice([])` as an error value, then the
  repair.
- `Evolution` (evolution.dfy): the driver.
  - The prechecks at vrp_fogas.py:48-55.
  - The initial best.
  - The generation loop: best-so-far, fitness history, selection, breeding
    and elitism.
  - Quit events as a sequence of booleans, one per generation.
  - The loop as a value, `Loop`, over any generation function. `Generations`
    is main's, one `NextStep` per generation. The imperative loop is proved
    equal to it.

Randomness is an explicit input throughout:

- `random.shuffle` is a permutation of the clients.
- `random.random() < 0.5` in crossover is a sequence of coins.
- Each route's draws in `mutate` form a `RouteDraw`. Its naturals are
  reduced modulo the size of the range they choose from.
- The iteration order of the `missing` set in the repair is an enumeration
  of the clients.
- `np.argsort` is any ascending argsort.

The defects of the code are modelled as written:

- The repair appends a route for a client that fits nowhere, then cuts it
  off again (`RepairedLeavesUnplaceable`).
- The repair never splits an overloaded route (`RepairedKeepsOverload`).
- Once the greedy initializer runs out of vehicle slots, it drops every
  later client (`LaterClientsOmitted`).
- `mutate` fails when no other route differs in content
  (`MutateRouteFails`, `RelocationCanFail`).
- Selection admits every tie order (`TieOrderUnspecified`).

## Model

| member | source | states |
|---|---|---|
| Routes.FirstFit | genetic_algorithm.py:100-105 | the slot found is the first whose load plus the demand stays within capacity; `None` exactly when no slot has room |
| Routes.RawLoadIsLoad | genetic_algorithm.py:108 | when every index is a client, the unfiltered demand sum of lines 29 and 108 equals the filtered sum of line 101 |
| Routes.LoadPrefixMonotone | genetic_algorithm.py:71-73 | with nonnegative demands, removing stops from the end never raises a route's demand |
| Routes.LoadCoversVisit | genetic_algorithm.py:40 | a route's demand is at least the demand of each client on it |
| Routes.FlattenMembership | genetic_algorithm.py:94 | a client is among the visits of an individual exactly when some route holds it |
| Routes.AppendVisit | genetic_algorithm.py:103 | appending a client to one route adds exactly that client to the individual's visits |
| Routes.AscendingIsEnumeration | genetic_algorithm.py:12 | `range(num_clients)` lists every client below the bound exactly once |
| Routes.AscendingCount | genetic_algorithm.py:12 | each client below the bound occurs once in `range(num_clients)`, any other client never |
| Routes.EnumerationByMultiset | genetic_algorithm.py:13 | a shuffle (same multiset) of an enumeration is an enumeration |
| Routes.EmptyRoutesVisitNothing | genetic_algorithm.py:11 | the fresh individual of `num_vehicles` empty routes visits no client |
| Routes.IndexOf | vrp_fogas.py:161 | `list.index`: the first position holding the value, the length when it is absent |
| Evaluation.EvaluateMeaning | genetic_algorithm.py:36-52 | the fitness is `Dist` of the total tour length (depot, clients shifted by one, back to the depot) when every route is within capacity and every client is visited, and `Infeasible` otherwise |
| Evaluation.ScanMeaning | genetic_algorithm.py:39-51 | the route loop returns `inf` at the first overloaded route, otherwise compares the attended count with the client count and returns the accumulated distance |
| Evaluation.ScanStep | genetic_algorithm.py:39-49 | one pass of the route loop over a route within capacity adds its tour length and its in-range clients |
| Evaluation.RoutesFitMeaning | genetic_algorithm.py:39-42 | the loop passes the capacity test at every route exactly when every route is within capacity |
| Evaluation.FinalSetMeaning | genetic_algorithm.py:44-48 | the attended set at the end is the start set plus every visited client below the client count |
| Evaluation.FinalTotalMeaning | genetic_algorithm.py:43-49 | the accumulated distance at the end is the start value plus the total tour length |
| Evaluation.WalkShift | genetic_algorithm.py:43-49 | the inner walk from the depot, closed by the return leg, adds the route's tour length and attends its in-range clients |
| Evaluation.WalkTotal | genetic_algorithm.py:44-49 | the inner walk plus the return leg equals the tour through the route's in-range stops, shifted by one |
| Evaluation.WalkAttends | genetic_algorithm.py:44-48 | the inner walk adds exactly the route's clients below the client count to the attended set |
| Evaluation.VisitedMeaning | genetic_algorithm.py:45-48 | a client is attended exactly when it is below the client count and some route holds it |
| Evaluation.AllClientsSize | genetic_algorithm.py:50 | the set of all clients has as many elements as there are clients |
| Evaluation.FullExactlyWhenAll | genetic_algorithm.py:50 | a set of clients has the full count exactly when it is the set of all clients |
| Evaluation.AllAttended | genetic_algorithm.py:50-51 | the size test passes exactly when every client is served |
| Evaluation.TourNonnegative | genetic_algorithm.py:46-49 | with a nonnegative distance matrix, a tour never has negative length |
| Evaluation.TotalLengthNonnegative | genetic_algorithm.py:46-49 | with a nonnegative distance matrix, the total length is never negative |
| Evaluation.EvaluateNonnegative | genetic_algorithm.py:36-52 | a finite fitness is never negative when distances are nonnegative |
| Evaluation.OversizedClientMakesAllInfeasible | genetic_algorithm.py:40-51 | with a client whose demand exceeds the capacity, every individual is infeasible: either it carries the client on an overloaded route or it misses the client |
| Evaluation.TwoClientsOneVehicle | genetic_algorithm.py:43-52 | two clients on one route within capacity cost depot→first→second→depot, in either order |
| Evaluation.DuplicateVisitNotPenalised | genetic_algorithm.py:44-51 | a route visiting the same client twice is feasible and is charged the self-leg `dist[1][1]` |
| Evaluation.TotalLengthAppendEmpty | genetic_algorithm.py:49 | an empty route adds its return leg `matrix[0][0]` to the total length |
| Evaluation.EmptyRouteAddsDiagonal | genetic_algorithm.py:43-52 | appending an empty route leaves feasibility unchanged and adds `matrix[0][0]` to a finite fitness |
| Evaluation.Evaluate | genetic_algorithm.py:36-52 | a finite fitness means every route is within capacity (the full meaning is `EvaluateMeaning`) |
| Evaluation.Scan | genetic_algorithm.py:39-51 | the route loop returns a finite value only when every remaining route is within capacity |
| Evaluation.Walk | genetic_algorithm.py:43-48 | the walk ends on a matrix row no larger than the client count, so the return leg at line 49 reads inside the matrix |
| Selection.SelectParents | genetic_algorithm.py:55-57 | `min(K, n)` parents, the individuals at the first argsort positions, in nondecreasing fitness, none worse than any individual left out |
| Selection.InfeasibleLast | genetic_algorithm.py:56-57 | if an infeasible individual is selected, every individual left out is infeasible too |
| Selection.TieOrderUnspecified | genetic_algorithm.py:56 | with two equal fitnesses both index orders are ascending argsorts and they select different parents |
| Selection.StableArgsortIsArgsort | genetic_algorithm.py:56 | an ascending argsort exists for every list of fitnesses (stable insertion sort as witness) |
| Selection.SortIndicesAscending | genetic_algorithm.py:56 | the insertion sort of the first `m` indices lists them in nondecreasing fitness |
| Repair.Missing | genetic_algorithm.py:93-95 | the missing clients are exactly the clients of the enumeration that no route holds, each at most once, none when all are served |
| Repair.MissingClients | genetic_algorithm.py:93-95 | every missing client is a client index, and none is listed twice |
| Repair.PlaceChoice | genetic_algorithm.py:98-113 | a missing client goes to the end of the first route with room, or into a new route when none has room |
| Repair.SecondScanFindsNothing | genetic_algorithm.py:106-111 | when the first scan finds no room, the second scan over the original slots finds none either |
| Repair.PlaceClient | genetic_algorithm.py:98-113 | the two scans and the append, on one missing client, give the placement `Place` |
| Repair.EnsureAllClients | genetic_algorithm.py:91-119 | the repair loop over the missing clients, then the cut back to the input length, gives `Repaired` |
| Repair.Repaired | genetic_algorithm.py:97-118 | the repaired individual has exactly as many routes as the input, and every visit is still a client index |
| Repair.PlaceAllExtends | genetic_algorithm.py:97-113 | placing clients only appends: each input route is a prefix of its route after placement |
| Repair.PlaceAllVisits | genetic_algorithm.py:97-113 | placing clients adds exactly those clients to the visits |
| Repair.PlaceAllCapacity | genetic_algorithm.py:100-113 | after placement every original route is unchanged or within capacity |
| Repair.PlaceAllAvoids | genetic_algorithm.py:100-113 | a client that fits on no route never lands on an original route |
| Repair.PlaceAllIntoFirst | genetic_algorithm.py:100-105 | when the first route can take all placed clients, they are all appended to it, in order |
| Repair.Place | genetic_algorithm.py:98-113 | placing one client keeps the client range and never drops a route |
| Repair.PlaceAll | genetic_algorithm.py:97-113 | placing the missing clients keeps the client range and never drops a route |
| Repair.RepairedExtends | genetic_algorithm.py:97-118 | every input route is a prefix of the corresponding output route, and no served client is lost |
| Repair.RepairedCapacity | genetic_algorithm.py:100-118 | every changed route is within capacity, so an individual within capacity stays within capacity |
| Repair.RepairedVisits | genetic_algorithm.py:93-118 | the visits after repair are at most the visits before plus the missing clients, so an individual without duplicates stays without duplicates |
| Repair.RepairedLeavesUnplaceable | genetic_algorithm.py:112-118 | a missing client that fits on no route is appended in a new route, which the cut removes, so it stays missing |
| Repair.RepairedIdle | genetic_algorithm.py:93-118 | an individual that serves every client comes back unchanged |
| Repair.RepairedFillsFirstRoute | genetic_algorithm.py:97-105 | when the first route can take all missing clients, they all go there and every client is then served |
| Repair.RepairedKeepsOverload | genetic_algorithm.py:100-118 | an overloaded route stays overloaded: the repair never removes a stop |
| Population.InitializePopulation | genetic_algorithm.py:5-33 | ValueError exactly when there is no client or no vehicle; otherwise `population_size` individuals, individual `p` being the greedy fill of shuffle `p` |
| Population.GreedyIndividual | genetic_algorithm.py:11-31 | the greedy loop over one shuffled order builds `Greedily` of that order |
| Population.FallbackScan | genetic_algorithm.py:28-31 | the overflowing client is appended to the first slot whose unfiltered demand leaves room, or to none |
| Population.Greedily | genetic_algorithm.py:11 | every individual has exactly `num_vehicles` routes |
| Population.FillShaped | genetic_algorithm.py:14-26 | the loop keeps `current_vehicle` at most `num_vehicles`, every later slot empty, and `current_capacity` equal to the current slot's demand |
| Population.FillKeepsOrder | genetic_algorithm.py:16-26 | while slots remain, the routes read in slot order are the shuffled order itself |
| Population.FillVisits | genetic_algorithm.py:16-31 | every visit comes from the shuffled order, at most as often as it occurs there |
| Population.NoDuplicates | genetic_algorithm.py:12-31 | no client index appears twice in an individual |
| Population.FillAfterLastSlot | genetic_algorithm.py:18 | once `current_vehicle` has reached `num_vehicles`, later clients change nothing |
| Population.LaterClientsOmitted | genetic_algorithm.py:18-31 | once the slots run out after the first `t` clients, the individual is the one built from them and no later client is served |
| Population.OverflowingClient | genetic_algorithm.py:22-31 | the client that runs out the slots is the one over capacity in the last slot, and only it gets the fallback scan |
| Population.FillWithinCapacity | genetic_algorithm.py:19-31 | when every demand fits in a vehicle, every route built is within capacity |
| Population.Assign | genetic_algorithm.py:17-31 | one client of the loop: the number of routes and the client range are kept, and `current_vehicle` never decreases |
| Population.Fill | genetic_algorithm.py:16-31 | the whole loop keeps the number of routes and the client range, and `current_vehicle` never decreases |
| Crossover.FitPrefix | genetic_algorithm.py:70-73 | the longest prefix of the route within capacity: a prefix, within capacity or empty, and every longer prefix is over capacity |
| Crossover.TruncateToCapacity | genetic_algorithm.py:70-73 | popping from the end while over capacity leaves `FitPrefix` of the route |
| Crossover.SlotRoute | genetic_algorithm.py:66-69 | the child's own parent's route when only it has the slot or the coin says so, the other parent's route otherwise, empty when neither has the slot |
| Crossover.Coin | genetic_algorithm.py:66-76 | a slot with no drawn coin reads as a draw of at least one half |
| Crossover.Recombine | genetic_algorithm.py:61-84 | the child has `max(len(p1), len(p2))` routes, each the truncation of a copy of one parent's route in the same slot, forced where only one parent has the slot |
| Crossover.Recombination | genetic_algorithm.py:61-84 | the slot loop builds both unrepaired children, each with its own coins |
| Crossover.Cross | genetic_algorithm.py:60-88 | the children are the repairs of the two recombinations, and every visit in them is a client index, as mutate needs; the parents are values and stay unchanged |
| Crossover.RecombineInRange | genetic_algorithm.py:65-84 | every visit of a child is a visit its parents make in the same slot, so a child of in-range parents visits only client indices |
| Crossover.RecombineWithinCapacity | genetic_algorithm.py:70-83 | before repair every child route is within capacity |
| Crossover.ChildrenShape | genetic_algorithm.py:60-88 | after repair a child keeps `max(len(p1), len(p2))` routes, visits only client indices, and has every route within capacity |
| Mutation.Swapped | genetic_algorithm.py:124-126 | the swap only permutes the route |
| Mutation.RemoveFirst | genetic_algorithm.py:129 | `list.remove` takes out the first occurrence of the client: the route splits at a position holding the client with no earlier occurrence, and the rest is kept in order |
| Mutation.Pick | genetic_algorithm.py:128 | the client chosen is on the route |
| Mutation.OthersMeaning | genetic_algorithm.py:130 | the candidates are exactly the slots whose content differs from the source route, in increasing order |
| Mutation.Relocated | genetic_algorithm.py:127-133 | the relocation keeps the number of routes and the client range, or fails only with the IndexError of `random.choice` (where the client lands: `RelocatedTarget`) |
| Mutation.RelocateClient | genetic_algorithm.py:127-133 | the in-place relocation of one slot gives `Relocated` |
| Mutation.SwapStops | genetic_algorithm.py:124-126 | the in-place swap replaces slot `k` by its swapped route and changes nothing else |
| Mutation.MutateSlot | genetic_algorithm.py:123-133 | one loop pass: the swap, then the relocation |
| Mutation.MutateAll | genetic_algorithm.py:123-133 | the loop over every route stops at the first failure and otherwise gives `MutateRoutes` |
| Mutation.Mutate | genetic_algorithm.py:122-134 | the mutation loop followed by the repair gives `Mutated` |
| Mutation.Mutated | genetic_algorithm.py:122-134 | a successful mutation keeps the number of routes, and a failed one raises only the IndexError of `random.choice` |
| Mutation.MutateRouteFails | genetic_algorithm.py:127-130 | the relocation raises IndexError exactly when it is drawn, the route is not empty, there are two routes or more, and every other route equals the source route after removal |
| Mutation.RelocationCanFail | genetic_algorithm.py:122-134 | `[[c], []]` with the relocation drawn fails with IndexError |
| Mutation.PermutedRouteVisits | genetic_algorithm.py:126 | permuting one route leaves the individual's visits unchanged |
| Mutation.RemovedVisits | genetic_algorithm.py:129 | removing the client takes exactly one visit of it |
| Mutation.RelocatedVisits | genetic_algorithm.py:127-133 | a relocation keeps the visits, or drops exactly the moved client when the target has no room |
| Mutation.MutateRouteVisits | genetic_algorithm.py:123-133 | one pass keeps the visits or drops exactly the picked client; it never adds one |
| Mutation.MutateRoutesVisits | genetic_algorithm.py:123-133 | the mutation loop never adds a visit |
| Mutation.MutatedNoDuplicates | genetic_algorithm.py:122-134 | an individual without duplicate visits stays without them through mutation and repair |
| Mutation.MutateRoute | genetic_algorithm.py:124-133 | one pass of the loop keeps the number of routes and the client range, or fails only with IndexError |
| Mutation.MutateRoutes | genetic_algorithm.py:123-133 | the loop keeps the number of routes and the client range, or fails |
| Mutation.MutateRoutesError | genetic_algorithm.py:123-133 | the loop fails only with the IndexError of `random.choice` |
| Mutation.RemoveFirstLoad | genetic_algorithm.py:129-131 | removing a client lowers the route's load by its demand |
| Mutation.LoadPermutation | genetic_algorithm.py:126-131 | a route permuted by the swap keeps its load |
| Mutation.RelocatedTarget | genetic_algorithm.py:127-133 | the relocation fails exactly when every route equals the source route after removal; otherwise the client is appended to a route differing from the source route when it fits there, and dropped when it does not |
| Mutation.RelocatedWithinCapacity | genetic_algorithm.py:127-133 | with nonnegative demands, a relocation keeps every route within capacity |
| Mutation.MutateRouteWithinCapacity | genetic_algorithm.py:124-133 | with nonnegative demands, one pass keeps every route within capacity |
| Mutation.MutateRoutesWithinCapacity | genetic_algorithm.py:123-133 | with nonnegative demands, the loop keeps every route within capacity |
| Mutation.MutatedWithinCapacity | genetic_algorithm.py:122-134 | with nonnegative demands, an individual within capacity stays within capacity through mutation and repair |
| Evolution.Total | vrp_fogas.py:48 | the total demand is nonnegative when every demand is |
| Evolution.Precheck | vrp_fogas.py:48-55 | the fleet check first, then the empty client list, then the vehicle count; the run goes ahead exactly when all three pass |
| Evolution.FleetCheckFirst | vrp_fogas.py:48-55 | with no vehicle and some demand it is the fleet check that fails |
| Evolution.PopulationSize | vrp_fogas.py:58 | the population size is 50 or twice the client count, whichever is larger |
| Evolution.Fitnesses | vrp_fogas.py:157 | the fitness of every individual, in population order |
| Evolution.FirstFeasible | vrp_fogas.py:142-146 | the first individual with finite fitness, and `None` exactly when all are infeasible |
| Evolution.MinFitness | vrp_fogas.py:158 | `min` returns an entry of the list that no entry is below |
| Evolution.Improve | vrp_fogas.py:158-161 | the best is replaced only by a strictly smaller minimum, with the first individual reaching it, so the best fitness never increases |
| Evolution.Offspring | vrp_fogas.py:172-178 | each consecutive pair of parents yields exactly two children, in order; an odd last parent yields none |
| Evolution.OffspringStopsAtError | vrp_fogas.py:172-178 | a failure in one pair ends the generation with that failure |
| Evolution.OffspringSucceeds | vrp_fogas.py:173-178 | when no pair's breeding raises, the offspring loop completes |
| Evolution.OffspringError | vrp_fogas.py:173-178 | a failed offspring loop fails with the error of some pair's breeding |
| Evolution.BreedAll | vrp_fogas.py:172-178 | the offspring loop breeds `len(parents) // 2` pairs |
| Evolution.NextPopulation | vrp_fogas.py:180 | the first `population_size - 1` children followed by the best individual as the last element |
| Evolution.Advance | vrp_fogas.py:159-181 | after a generation the run holds the step's population, best and best fitness, the generation count is one higher, and the history has the generation's minimum appended with its first entry kept |
| Evolution.LeastAfterAppend | vrp_fogas.py:158-162 | the best fitness stays the least entry of the history |
| Evolution.NextStep | vrp_fogas.py:157-180 | a completed generation holds two children per pair of selected parents plus the best individual, which comes last |
| Evolution.NextStepSucceeds | vrp_fogas.py:171-178 | with a breeder that never raises, a generation always completes |
| Evolution.NextStepSound | vrp_fogas.py:157-180 | a completed generation keeps the run's invariant: the best fitness is finite, the least of the history and the fitness of the best individual, which closes the population |
| Evolution.Generation | vrp_fogas.py:157-180 | one generation is `NextStep`: the best and its fitness are those `Improve` keeps, the population is `NextPopulation` of the offspring of the selected parents, the history entry is the generation minimum, the best never increases, and the generation completes whenever the breeder never raises |
| Evolution.Generations | vrp_fogas.py:157-180 | main's generation function is defined on every non-empty population, agrees with `NextStep` there, and leaves a non-empty population |
| Evolution.GenerationsMeaning | vrp_fogas.py:157-180 | main's generation function keeps the run's invariant, never fails with a breeder that never raises, and fails only with IndexError when that is the breeder's only error |
| Evolution.LoopSucceeds | vrp_fogas.py:151-181 | when no generation fails, the loop completes |
| Evolution.LoopError | vrp_fogas.py:151-181 | a loop whose generations fail only with one error fails only with that error |
| Evolution.LoopStops | vrp_fogas.py:151-181 | the loop makes at most `num_generations` generations, and ends early only after the generation in which quit was polled, never after an earlier one |
| Evolution.LoopKeeps | vrp_fogas.py:147-181 | the loop keeps the first history entry and, when every generation keeps it, the run's invariant |
| Evolution.LoopFacts | vrp_fogas.py:147-181 | from a sound state before the first generation, the loop stops as main's does, keeps the first history entry and the run's invariant, and completes when no generation fails |
| Evolution.FirstRun | vrp_fogas.py:141-147 | the state before the loop: `None` exactly when every initial individual is infeasible; otherwise the first feasible individual is the best, its finite fitness the one history entry, and the population the initial one |
| Evolution.RunFrom | vrp_fogas.py:149-181 | the imperative loop, stopping on the first failed generation, gives `Loop` with main's generation function |
| Evolution.RunGenerations | vrp_fogas.py:147-181 | the result is `Loop` from the initial state; the loop stops after `num_generations` generations or after the generation in which quit was polled; the history starts with the initial best; the run's invariant holds at the end; the run completes whenever the breeder never raises, and fails only with IndexError when that is the breeder's only error |
| Evolution.EvolveWith | vrp_fogas.py:141-181 | for any fitness function: ValueError when every initial individual is infeasible, and exactly then when breeding raises nothing but IndexError; it completes whenever some initial individual is feasible and the breeder never raises; the loop stops as main's does; the history starts with the first feasible (finite) fitness and gains one entry per generation; the best fitness is finite, least in the history and the fitness of the best individual, which closes the population |
| Evolution.Evolve | vrp_fogas.py:141-181 | `EvolveWith` with `calculate_fitness`: ValueError when every initial individual is infeasible, and exactly then when breeding raises nothing but IndexError; it completes whenever some initial individual is feasible and the breeder never raises; the history starts with the first feasible (finite) fitness and gains one entry per generation; the best fitness is finite, least in the history and the fitness of the best individual |
| Evolution.FiniteMeansFeasible | genetic_algorithm.py:41-51 | a finite fitness belongs to a feasible individual and equals its total tour length |

## Left out

- Drawing and windowing are not modelled: the pygame window, `generate_vehicle_colors`, `draw_routes`, `draw_plot`, `display.flip` and the wait loop after the run (vrp_fogas.py:184-192). Event polling is reduced to one quit flag per generation.
- `print` output (vrp_fogas.py:182, 184-185) is left out.
- `create_distance_matrix` (vrp_fogas.py:63-71) is not modelled: it is floating-point `sqrt` through numpy. The matrix is an input of reals of size clients + 1. Only the lemmas that need nonnegative distances require them.
- Floating point is modelled as exact reals: sums of distances are not rounded. `float('inf')` is the `Infeasible` constructor, which compares above every distance.
- The random library and numpy are not modelled; their draws are inputs. `mutation_rate` only shapes the coins of a `RouteDraw`, so it does not appear. A coin or draw sequence shorter than the slots reads as "no draw below the threshold" for the missing slots.
- Evolution.Generation, Evolution.RunGenerations, Evolution.EvolveWith, Evolution.Evolve: the breeder (crossover followed by two mutations, vrp_fogas.py:175-177) and the argsort are abstract parameters. Their contracts state the bookkeeping of the loop, not the shape of the children.
- Python list aliasing is not modelled: individuals are values. The source never mutates a list that anything else still reads. Crossover copies each parent route (`[:]`), mutate and the repair only touch those fresh children, and the aliased elite is never changed afterwards.
- Routes.RawLoad, Repair.EnsureAllClients, Population.InitializePopulation, Crossover.Cross, Mutation.Mutate, Mutation.Mutated, Mutation.MutateAll, Mutation.MutateRoutes, Mutation.MutateRoute, Mutation.MutateSlot, Mutation.Relocated, Mutation.RelocateClient: they require every client index to be below the number of clients. The unfiltered sums at genetic_algorithm.py:29 and 108 and the lookup `clients[client_idx]` at line 132 raise IndexError otherwise. The initializer builds only in-range individuals, and `Crossover.Cross` proves its children in range, so mutate receives what it requires.
- Population.InitializePopulation: it requires `num_clients` to be at most the length of the client list, as the driver passes `len(clients)`.
- Repair.EnsureAllClients: the padding loop at genetic_algorithm.py:115-116 never runs, because placement only appends routes. The model has no branch for it.
- Repair.RepairedKeepsOverload: an overloaded route handed to the repair stays overloaded. The code never splits or trims a route, so the model follows the code rather than a repair that would restore feasibility.
- The `depot` argument of calculate_fitness is unused by the code, so it is absent from the model.
- Tie order in selection: a stable argsort is not part of the model, and the model admits every ascending argsort.
- Routes.IndexOf: `list.index` raises ValueError when the value is absent; the model returns the length instead. Both uses always find the value: the minimum of the list at vrp_fogas.py:161, and a client drawn from the route itself at genetic_algorithm.py:129.
- Evolution.EvolveWith, Evolution.Evolve: the breeder is an abstract function and may return any error. The converse of the ValueError case (ValueError only when nothing is feasible) is stated for breeders that raise only IndexError (`RaisesOnlyIndexError`). Crossover (`Crossover.Cross`) returns no error at all, and `Mutation.Mutated` ensures that mutate fails only with IndexError, so a breeder made of the two meets that condition.
