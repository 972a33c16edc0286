/** The driver of vrp_fogas.py: the checks on the instance before the run,
    and the generation loop that keeps the best individual found, the
    fitness history and the elite. */
module Evolution {
  import opened Routes
  import Evaluation
  import Selection

  // ---------------------------------------------------------------------
  // Checks on the instance (vrp_fogas.py:48-55).

  /** `sum(client[1] for client in clients)`. */
  function Total(demands: seq<int>): (r: int)
    ensures (forall c :: 0 <= c < |demands| ==> demands[c] >= 0) ==> r >= 0
  {
    if demands == [] then 0 else Total(demands[..|demands| - 1]) + demands[|demands| - 1]
  }

  /** The three checks, in the order the driver makes them; `None` lets the
      run go ahead. */
  function Precheck(demands: seq<int>, numVehicles: int, capacity: int): (r: Option<Error>)
    ensures r == None <==> Total(demands) <= numVehicles * capacity && |demands| > 0 && numVehicles >= 1
    ensures r == Some(DemandExceedsFleet) <==> Total(demands) > numVehicles * capacity
    ensures r == Some(NoClients) <==> Total(demands) <= numVehicles * capacity && |demands| == 0
    ensures r == Some(NoVehicle) <==> Total(demands) <= numVehicles * capacity && |demands| > 0 && numVehicles < 1
  {
    if Total(demands) > numVehicles * capacity then Some(DemandExceedsFleet)
    else if |demands| == 0 then Some(NoClients)
    else if numVehicles < 1 then Some(NoVehicle)
    else None
  }

  /** The fleet check comes first: without a vehicle, and with some demand
      to carry, it is the fleet check that fails, not the vehicle check. */
  lemma FleetCheckFirst(demands: seq<int>, numVehicles: int, capacity: int)
    requires numVehicles < 1 && capacity >= 0 && Total(demands) > 0
    ensures Precheck(demands, numVehicles, capacity) == Some(DemandExceedsFleet)
  {
    assert numVehicles * capacity <= 0 by {
      assert (-numVehicles) * capacity >= 0;
    }
  }

  // ---------------------------------------------------------------------
  // One generation, piece by piece (vrp_fogas.py:141-180).

  /** `max(50, len(clients) * 2)`. */
  function PopulationSize(numClients: nat): (r: nat)
    ensures r >= 50 && r >= 2 * numClients
    ensures r == 50 || r == 2 * numClients
  {
    if 50 >= numClients * 2 then 50 else numClients * 2
  }

  /** calculate_fitness as the loop sees it: any function from individuals
      to fitnesses (the run instantiates it with the evaluation). */
  type FitnessFunction = Individual -> Fitness

  /** `[calculate_fitness(ind, ...) for ind in population]`: the fitness of
      every individual, in population order. */
  function Fitnesses(population: seq<Individual>, fitness: FitnessFunction): (r: seq<Fitness>)
    ensures |r| == |population|
    ensures forall i :: 0 <= i < |population| ==> r[i] == fitness(population[i])
  {
    seq(|population|, i requires 0 <= i < |population| => fitness(population[i]))
  }

  /** `valid_solutions[0]`: the first position of a finite fitness. */
  function FirstFeasible(fit: seq<Fitness>): (r: Option<nat>)
    ensures r.Some? ==> r.value < |fit| && fit[r.value].Dist? && forall j :: 0 <= j < r.value ==> fit[j].Infeasible?
    ensures r.None? <==> forall j :: 0 <= j < |fit| ==> fit[j].Infeasible?
  {
    if fit == [] then None
    else if fit[0].Dist? then Some(0)
    else match FirstFeasible(fit[1..])
      case None => None
      case Some(j) => Some(j + 1)
  }

  /** `min(fitness_values)`. */
  function MinFitness(fit: seq<Fitness>): (m: Fitness)
    requires fit != []
    ensures m in fit && forall j :: 0 <= j < |fit| ==> Le(m, fit[j])
  {
    if |fit| == 1 then fit[0]
    else
      var rest := MinFitness(fit[1..]);
      assert forall j :: 1 <= j < |fit| ==> fit[j] == fit[1..][j - 1];
      if Le(fit[0], rest) then (LeTransitiveAll(fit[0], rest, fit[1..]); fit[0]) else rest
  }

  lemma LeTransitiveAll(a: Fitness, b: Fitness, s: seq<Fitness>)
    requires Le(a, b) && forall j :: 0 <= j < |s| ==> Le(b, s[j])
    ensures forall j :: 0 <= j < |s| ==> Le(a, s[j])
  {
    forall j | 0 <= j < |s| ensures Le(a, s[j]) {
      LeTransitive(a, b, s[j]);
    }
  }

  /** Lines 158-161: the best is replaced only by a strictly smaller
      generation minimum, and then by the first individual attaining it.
      The best fitness therefore never increases. */
  function Improve(best: Individual, bestFitness: Fitness, population: seq<Individual>, fit: seq<Fitness>)
    : (r: (Individual, Fitness))
    requires |fit| == |population| && fit != []
    ensures Le(r.1, bestFitness) && Le(r.1, MinFitness(fit))
    ensures r.1 == bestFitness || (Lt(MinFitness(fit), bestFitness) && r.1 == MinFitness(fit))
    ensures r.1 == bestFitness ==> r.0 == best
    ensures r.1 != bestFitness ==> exists i :: (0 <= i < |fit| && r.0 == population[i] && fit[i] == r.1 &&
              forall j :: 0 <= j < i ==> fit[j] != r.1)
  {
    var m := MinFitness(fit);
    LeTotal(m, bestFitness);
    if Lt(m, bestFitness) then
      var i := IndexOf(fit, m);
      assert forall j :: 0 <= j < i ==> fit[j] != m by {
        forall j | 0 <= j < i ensures fit[j] != m {
          assert fit[j] in fit[..i];
        }
      }
      (population[i], m)
    else (best, bestFitness)
  }

  /** The driver's engine: `breed(g, p, a, b)` stands for the crossover of
      parents `a` and `b` (pair `p` of generation `g`) followed by the
      mutation of both children; `Err` is the IndexError of the mutation. */
  type Breeder = (nat, nat, Individual, Individual) -> Result<(Individual, Individual)>

  /** The children of the first `pairs` consecutive pairs of parents
      (lines 172-178). */
  function Offspring(parents: seq<Individual>, pairs: nat, generation: nat, breed: Breeder): (r: Result<seq<Individual>>)
    requires 2 * pairs <= |parents|
    ensures r.Ok? ==> |r.value| == 2 * pairs && forall p :: 0 <= p < pairs ==>
      breed(generation, p, parents[2 * p], parents[2 * p + 1]).Ok? &&
      r.value[2 * p] == breed(generation, p, parents[2 * p], parents[2 * p + 1]).value.0 &&
      r.value[2 * p + 1] == breed(generation, p, parents[2 * p], parents[2 * p + 1]).value.1
  {
    if pairs == 0 then Ok([])
    else match Offspring(parents, pairs - 1, generation, breed)
      case Err(e) => Err(e)
      case Ok(children) =>
        match breed(generation, pairs - 1, parents[2 * pairs - 2], parents[2 * pairs - 1])
        case Err(e) => Err(e)
        case Ok(two) => Ok(children + [two.0, two.1])
  }

  /** Every pair breeding successfully is all it takes for the offspring
      loop to succeed; with `Offspring`'s own contract this is an iff. */
  lemma {:induction false} OffspringSucceeds(parents: seq<Individual>, pairs: nat, generation: nat, breed: Breeder)
    requires 2 * pairs <= |parents|
    requires forall p :: 0 <= p < pairs ==> breed(generation, p, parents[2 * p], parents[2 * p + 1]).Ok?
    ensures Offspring(parents, pairs, generation, breed).Ok?
  {
    if pairs > 0 {
      OffspringSucceeds(parents, pairs - 1, generation, breed);
      var last := pairs - 1;
      assert breed(generation, last, parents[2 * last], parents[2 * last + 1]).Ok?;
    }
  }

  /** A failing pair passes its breeder's error on: the offspring loop
      fails only with the error of some pair's breeding. */
  lemma {:induction false} OffspringError(parents: seq<Individual>, pairs: nat, generation: nat, breed: Breeder)
    requires 2 * pairs <= |parents|
    requires Offspring(parents, pairs, generation, breed).Err?
    ensures exists p :: (0 <= p < pairs &&
      breed(generation, p, parents[2 * p], parents[2 * p + 1]) == Err(Offspring(parents, pairs, generation, breed).error))
  {
    var last := pairs - 1;
    if Offspring(parents, last, generation, breed).Err? {
      OffspringError(parents, last, generation, breed);
    } else {
      assert breed(generation, last, parents[2 * last], parents[2 * last + 1]) ==
        Err(Offspring(parents, pairs, generation, breed).error);
    }
  }

  /** A breeder whose only failure is the IndexError of mutate
      (genetic_algorithm.py:130): crossover and mutate raise nothing else. */
  ghost predicate RaisesOnlyIndexError(breed: Breeder) {
    forall g, p, a, b :: breed(g, p, a, b).Err? ==> breed(g, p, a, b).error == NoOtherRoute
  }

  /** A breeder that never raises. */
  ghost predicate NeverFails(breed: Breeder) {
    forall g, p, a, b :: breed(g, p, a, b).Ok?
  }

  /** Once a pair fails, so does every longer run of pairs, with the same
      error. */
  lemma {:induction false} OffspringStopsAtError(parents: seq<Individual>, k: nat, m: nat, generation: nat, breed: Breeder)
    requires k <= m && 2 * m <= |parents|
    requires Offspring(parents, k, generation, breed).Err?
    ensures Offspring(parents, m, generation, breed) == Offspring(parents, k, generation, breed)
    decreases m - k
  {
    if k < m {
      OffspringStopsAtError(parents, k + 1, m, generation, breed);
    }
  }

  /** The `for i in range(0, len(parents), 2)` loop of lines 172-178: an
      odd last parent has no partner and breeds nothing. */
  method BreedAll(parents: seq<Individual>, generation: nat, breed: Breeder) returns (r: Result<seq<Individual>>)
    ensures r == Offspring(parents, |parents| / 2, generation, breed)
  {
    var children: seq<Individual> := [];
    var i := 0;
    // the iterations with `i + 1 >= len(parents)` breed nothing
    while i + 1 < |parents|
      invariant i % 2 == 0 && i <= |parents|
      invariant Offspring(parents, i / 2, generation, breed) == Ok(children)
    {
      var two := breed(generation, i / 2, parents[i], parents[i + 1]);
      if two.Err? {
        OffspringStopsAtError(parents, i / 2 + 1, |parents| / 2, generation, breed);
        return Err(two.error);
      }
      children := children + [two.value.0, two.value.1];
      i := i + 2;
    }
    return Ok(children);
  }

  /** Line 180: the first `size - 1` children, then the best individual. */
  function NextPopulation(children: seq<Individual>, best: Individual, size: nat): (r: seq<Individual>)
    requires size >= 1
    ensures |r| == (if |children| <= size - 1 then |children| else size - 1) + 1
    ensures r[|r| - 1] == best
    ensures forall i :: 0 <= i < |r| - 1 ==> r[i] == children[i]
  {
    var kept := if |children| <= size - 1 then |children| else size - 1;
    children[..kept] + [best]
  }

  /** Whether a quit event is waiting when generation `g` polls for events. */
  function Quit(quits: seq<bool>, g: nat): bool {
    g < |quits| && quits[g]
  }

  /** What one generation leaves: the next population, the best individual
      and its fitness, and the least fitness of the generation. */
  datatype Step = Step(population: seq<Individual>, best: Individual, bestFitness: Fitness, minFitness: Fitness)

  /** The state of the run between generations: the best individual and its
      fitness, the fitness history, the population and the number of
      generations run. */
  datatype Run = Run(best: Individual, bestFitness: Fitness, history: seq<Fitness>,
                     population: seq<Individual>, generations: nat)

  /** The run after one more generation: the step's population and best,
      and the generation's minimum appended to the history. */
  function Advance(run: Run, step: Step): (r: Run)
    ensures r.generations == run.generations + 1 && r.history == run.history + [step.minFitness]
    ensures r.best == step.best && r.bestFitness == step.bestFitness && r.population == step.population
    ensures run.history != [] ==> r.history[0] == run.history[0]
  {
    Run(step.best, step.bestFitness, run.history + [step.minFitness], step.population, run.generations + 1)
  }

  /** `f` is an entry of `history` and no entry is smaller. */
  predicate IsLeast(f: Fitness, history: seq<Fitness>) {
    f in history && forall h :: 0 <= h < |history| ==> Le(f, history[h])
  }

  /** What the loop keeps true of the run: one history entry per generation
      after the first, the best fitness the least entry of the history,
      finite and the fitness of the best individual, and, after a
      generation, the best individual closing the population. */
  ghost predicate Sound(run: Run, size: nat, fitness: FitnessFunction) {
    |run.history| == run.generations + 1 &&
    IsLeast(run.bestFitness, run.history) && run.bestFitness.Dist? &&
    fitness(run.best) == run.bestFitness &&
    run.population != [] &&
    (run.generations >= 1 ==> |run.population| <= size && run.population[|run.population| - 1] == run.best)
  }

  /** A new best that is no worse than the old best and than the appended
      entry, and is one of them, is the least entry of the longer history. */
  lemma LeastAfterAppend(previous: Fitness, history: seq<Fitness>, next: Fitness, entry: Fitness)
    requires IsLeast(previous, history)
    requires Le(next, previous) && Le(next, entry) && (next == previous || next == entry)
    ensures IsLeast(next, history + [entry])
  {
    LeTransitiveAll(next, previous, history);
  }

  /** One generation as a value (vrp_fogas.py:157-180): the fitnesses, the
      best kept by `Improve`, the best `size / 2` individuals as parents,
      their offspring, and the next population with the best individual
      last. The next population holds two children per pair of parents and
      the elite; an IndexError while breeding ends the generation. */
  function NextStep(run: Run, size: nat, fitness: FitnessFunction,
                    argsort: seq<Fitness> -> seq<nat>, breed: Breeder): (r: Result<Step>)
    requires run.population != [] && size >= 1
    requires forall fit :: Selection.IsAscendingArgsort(argsort(fit), fit)
    ensures r.Ok? ==>
      var parents := if size / 2 <= |run.population| then size / 2 else |run.population|;
      |r.value.population| == 2 * (parents / 2) + 1 &&
      r.value.population[|r.value.population| - 1] == r.value.best
  {
    var fit := Fitnesses(run.population, fitness);
    var improved := Improve(run.best, run.bestFitness, run.population, fit);
    var parents := Selection.SelectParents(run.population, fit, size / 2, argsort(fit));
    match Offspring(parents, |parents| / 2, run.generations, breed)
    case Err(e) => Err(e)
    case Ok(children) => Ok(Step(NextPopulation(children, improved.0, size), improved.0, improved.1, MinFitness(fit)))
  }

  /** With a breeder that never raises, a generation always completes. */
  lemma NextStepSucceeds(run: Run, size: nat, fitness: FitnessFunction,
                         argsort: seq<Fitness> -> seq<nat>, breed: Breeder)
    requires run.population != [] && size >= 1
    requires forall fit :: Selection.IsAscendingArgsort(argsort(fit), fit)
    requires NeverFails(breed)
    ensures NextStep(run, size, fitness, argsort, breed).Ok?
  {
    var fit := Fitnesses(run.population, fitness);
    var parents := Selection.SelectParents(run.population, fit, size / 2, argsort(fit));
    OffspringSucceeds(parents, |parents| / 2, run.generations, breed);
  }

  /** One pass of the loop body after the event poll (vrp_fogas.py:155-180):
      evaluate, keep the best, select, breed, and put the best individual
      last in the next population. The generation's minimum is returned for
      the history; the best fitness never increases and is no worse than
      that minimum; and the run's invariant is kept. */
  method Generation(run: Run, size: nat, fitness: FitnessFunction,
                    argsort: seq<Fitness> -> seq<nat>, breed: Breeder)
    returns (r: Result<Step>)
    requires run.population != [] && size >= 1
    requires forall fit :: Selection.IsAscendingArgsort(argsort(fit), fit)
    ensures r == NextStep(run, size, fitness, argsort, breed)
    ensures NeverFails(breed) ==> r.Ok?
    ensures r.Ok? ==> (r.value.best, r.value.bestFitness) ==
                      Improve(run.best, run.bestFitness, run.population, Fitnesses(run.population, fitness))
    ensures r.Ok? ==>
      var fit := Fitnesses(run.population, fitness);
      var parents := Selection.SelectParents(run.population, fit, size / 2, argsort(fit));
      var children := Offspring(parents, |parents| / 2, run.generations, breed);
      children.Ok? && r.value.population == NextPopulation(children.value, r.value.best, size)
    ensures r.Ok? ==> r.value.minFitness == MinFitness(Fitnesses(run.population, fitness))
    ensures r.Ok? ==> Le(r.value.bestFitness, run.bestFitness) && Le(r.value.bestFitness, r.value.minFitness)
    ensures r.Ok? ==> r.value.bestFitness == run.bestFitness || r.value.bestFitness == r.value.minFitness
    ensures r.Ok? ==> 1 <= |r.value.population| <= size && r.value.population[|r.value.population| - 1] == r.value.best
    ensures r.Ok? && Sound(run, size, fitness) ==> Sound(Advance(run, r.value), size, fitness)
  {
    var fit := Fitnesses(run.population, fitness);
    var minFitness := MinFitness(fit);
    var improved := Improve(run.best, run.bestFitness, run.population, fit);
    var parents := Selection.SelectParents(run.population, fit, size / 2, argsort(fit));
    var bred := BreedAll(parents, run.generations, breed);
    if NeverFails(breed) {
      OffspringSucceeds(parents, |parents| / 2, run.generations, breed);
    }
    if bred.Err? {
      return Err(bred.error);
    }
    var step := Step(NextPopulation(bred.value, improved.0, size), improved.0, improved.1, minFitness);
    if Sound(run, size, fitness) {
      LeastAfterAppend(run.bestFitness, run.history, step.bestFitness, step.minFitness);
    }
    return Ok(step);
  }

  /** A generation function of the loop: defined on every non-empty
      population, and a completed generation leaves a non-empty one. */
  ghost predicate IsStepper(next: Run --> Result<Step>) {
    forall run: Run :: run.population != [] ==>
      next.requires(run) && (next(run).Ok? ==> next(run).value.population != [])
  }

  /** The generation function of main: `NextStep` with the population size,
      fitness, sort order and breeder of the run. */
  ghost function Generations(size: nat, fitness: FitnessFunction,
                             argsort: seq<Fitness> -> seq<nat>, breed: Breeder): (next: Run --> Result<Step>)
    requires size >= 1
    requires forall fit :: Selection.IsAscendingArgsort(argsort(fit), fit)
    ensures IsStepper(next)
    ensures forall run: Run :: run.population != [] ==>
      (next.requires(run) && next(run) == NextStep(run, size, fitness, argsort, breed))
  {
    (run: Run) requires run.population != [] => NextStep(run, size, fitness, argsort, breed)
  }

  /** The generation loop as a value (vrp_fogas.py:151-181): generations
      run until `numGenerations` have been made; a quit event polled at the
      start of a generation ends the loop after that generation. */
  ghost function Loop(run: Run, next: Run --> Result<Step>, numGenerations: nat, quits: seq<bool>): Result<Run>
    requires IsStepper(next) && run.population != []
    decreases numGenerations - run.generations
  {
    if run.generations >= numGenerations then Ok(run)
    else match next(run)
      case Err(e) => Err(e)
      case Ok(step) =>
        if Quit(quits, run.generations) then Ok(Advance(run, step))
        else Loop(Advance(run, step), next, numGenerations, quits)
  }

  /** When no generation fails, the loop always completes. */
  lemma {:induction false} LoopSucceeds(run: Run, next: Run --> Result<Step>, numGenerations: nat, quits: seq<bool>)
    requires IsStepper(next) && run.population != []
    requires forall r: Run :: r.population != [] ==> next(r).Ok?
    ensures Loop(run, next, numGenerations, quits).Ok?
    decreases numGenerations - run.generations
  {
    if run.generations < numGenerations && !Quit(quits, run.generations) {
      LoopSucceeds(Advance(run, next(run).value), next, numGenerations, quits);
    }
  }

  /** A loop whose generations fail only with `e` fails only with `e`. */
  lemma {:induction false} LoopError(run: Run, next: Run --> Result<Step>, numGenerations: nat, quits: seq<bool>, e: Error)
    requires IsStepper(next) && run.population != []
    requires forall r: Run :: r.population != [] && next(r).Err? ==> next(r).error == e
    requires Loop(run, next, numGenerations, quits).Err?
    ensures Loop(run, next, numGenerations, quits).error == e
    decreases numGenerations - run.generations
  {
    if next(run).Ok? {
      LoopError(Advance(run, next(run).value), next, numGenerations, quits, e);
    }
  }

  /** The loop makes at most `numGenerations` generations and stops early
      only after a generation in which a quit event was waiting. */
  lemma {:induction false} LoopStops(run: Run, next: Run --> Result<Step>, numGenerations: nat, quits: seq<bool>)
    requires IsStepper(next) && run.population != []
    requires run.generations <= numGenerations
    requires Loop(run, next, numGenerations, quits).Ok?
    ensures var end := Loop(run, next, numGenerations, quits).value;
      run.generations <= end.generations <= numGenerations &&
      (end.generations == numGenerations || (end.generations >= 1 && Quit(quits, end.generations - 1))) &&
      (forall g :: run.generations <= g && g + 1 < end.generations ==> !Quit(quits, g))
    decreases numGenerations - run.generations
  {
    if run.generations < numGenerations && !Quit(quits, run.generations) {
      LoopStops(Advance(run, next(run).value), next, numGenerations, quits);
    }
  }

  /** A generation function that keeps the run's invariant. */
  ghost predicate KeepsSound(next: Run --> Result<Step>, size: nat, fitness: FitnessFunction)
    requires IsStepper(next)
  {
    forall run: Run :: run.population != [] && Sound(run, size, fitness) && next(run).Ok? ==>
      Sound(Advance(run, next(run).value), size, fitness)
  }

  /** The loop keeps the first history entry and, with a generation
      function that keeps it, the run's invariant. */
  lemma {:induction false} LoopKeeps(run: Run, next: Run --> Result<Step>, numGenerations: nat, quits: seq<bool>,
                                     size: nat, fitness: FitnessFunction)
    requires IsStepper(next) && run.population != [] && run.history != []
    requires Loop(run, next, numGenerations, quits).Ok?
    ensures var end := Loop(run, next, numGenerations, quits).value;
      end.history != [] && end.history[0] == run.history[0] &&
      (KeepsSound(next, size, fitness) && Sound(run, size, fitness) ==> Sound(end, size, fitness))
    decreases numGenerations - run.generations
  {
    if run.generations < numGenerations && !Quit(quits, run.generations) {
      LoopKeeps(Advance(run, next(run).value), next, numGenerations, quits, size, fitness);
    }
  }

  /** The loop from a sound state with no generation made: it stops as
      main's loop does, keeps the first history entry and, with a
      generation function that keeps it, the run's invariant; it completes
      when no generation fails. */
  lemma LoopFacts(start: Run, next: Run --> Result<Step>, numGenerations: nat, quits: seq<bool>,
                  size: nat, fitness: FitnessFunction)
    requires IsStepper(next) && Sound(start, size, fitness) && start.generations == 0
    ensures var r := Loop(start, next, numGenerations, quits);
      (r.Ok? ==> r.value.generations <= numGenerations) &&
      (r.Ok? ==> r.value.generations == numGenerations ||
                 (r.value.generations >= 1 && Quit(quits, r.value.generations - 1))) &&
      (r.Ok? ==> forall g :: 0 <= g && g + 1 < r.value.generations ==> !Quit(quits, g)) &&
      (r.Ok? ==> r.value.history != [] && r.value.history[0] == start.history[0]) &&
      (r.Ok? && KeepsSound(next, size, fitness) ==> Sound(r.value, size, fitness)) &&
      ((forall run: Run :: run.population != [] ==> next(run).Ok?) ==> r.Ok?)
  {
    if (forall run: Run :: run.population != [] ==> next(run).Ok?) {
      LoopSucceeds(start, next, numGenerations, quits);
    }
    if Loop(start, next, numGenerations, quits).Ok? {
      LoopStops(start, next, numGenerations, quits);
      LoopKeeps(start, next, numGenerations, quits, size, fitness);
    }
  }

  /** A completed generation keeps the run's invariant. */
  lemma NextStepSound(run: Run, size: nat, fitness: FitnessFunction,
                      argsort: seq<Fitness> -> seq<nat>, breed: Breeder)
    requires run.population != [] && size >= 1
    requires forall fit :: Selection.IsAscendingArgsort(argsort(fit), fit)
    requires Sound(run, size, fitness) && NextStep(run, size, fitness, argsort, breed).Ok?
    ensures Sound(Advance(run, NextStep(run, size, fitness, argsort, breed).value), size, fitness)
  {
    var fit := Fitnesses(run.population, fitness);
    var improved := Improve(run.best, run.bestFitness, run.population, fit);
    var step := NextStep(run, size, fitness, argsort, breed).value;
    assert step.best == improved.0 && step.bestFitness == improved.1 && step.minFitness == MinFitness(fit);
    LeastAfterAppend(run.bestFitness, run.history, step.bestFitness, step.minFitness);
  }

  /** Main's generation function keeps the run's invariant, and never fails
      with a breeder that never raises. */
  lemma GenerationsMeaning(size: nat, fitness: FitnessFunction,
                           argsort: seq<Fitness> -> seq<nat>, breed: Breeder)
    requires size >= 1
    requires forall fit :: Selection.IsAscendingArgsort(argsort(fit), fit)
    ensures KeepsSound(Generations(size, fitness, argsort, breed), size, fitness)
    ensures NeverFails(breed) ==>
      forall run: Run :: run.population != [] ==> Generations(size, fitness, argsort, breed)(run).Ok?
    ensures RaisesOnlyIndexError(breed) ==>
      forall run: Run :: run.population != [] && Generations(size, fitness, argsort, breed)(run).Err? ==>
        Generations(size, fitness, argsort, breed)(run).error == NoOtherRoute
  {
    var next := Generations(size, fitness, argsort, breed);
    forall run: Run | run.population != [] && Sound(run, size, fitness) && next(run).Ok?
      ensures Sound(Advance(run, next(run).value), size, fitness)
    {
      NextStepSound(run, size, fitness, argsort, breed);
    }
    if NeverFails(breed) {
      forall run: Run | run.population != []
        ensures next(run).Ok?
      {
        NextStepSucceeds(run, size, fitness, argsort, breed);
      }
    }
    if RaisesOnlyIndexError(breed) {
      forall run: Run | run.population != [] && next(run).Err?
        ensures next(run).error == NoOtherRoute
      {
        var fit := Fitnesses(run.population, fitness);
        var parents := Selection.SelectParents(run.population, fit, size / 2, argsort(fit));
        OffspringError(parents, |parents| / 2, run.generations, breed);
      }
    }
  }

  /** The state before the loop (vrp_fogas.py:141-147): the first feasible
      individual is the first best, and its fitness the first history entry;
      `None` when no individual is feasible. */
  function FirstRun(initial: seq<Individual>, fitness: FitnessFunction): (r: Option<Run>)
    ensures r.None? <==> forall i :: 0 <= i < |initial| ==> fitness(initial[i]).Infeasible?
    ensures r.Some? ==> (r.value.population == initial && r.value.generations == 0 &&
                         r.value.history == [r.value.bestFitness] && fitness(r.value.best) == r.value.bestFitness &&
                         r.value.bestFitness.Dist?)
    ensures r.Some? ==> exists i :: (0 <= i < |initial| && initial[i] == r.value.best &&
                                    forall j :: 0 <= j < i ==> fitness(initial[j]).Infeasible?)
  {
    match FirstFeasible(Fitnesses(initial, fitness))
    case None => None
    case Some(i) => Some(Run(initial[i], fitness(initial[i]), [fitness(initial[i])], initial, 0))
  }

  /** The generation loop of main (vrp_fogas.py:150-181), entered with the
      first population and the best individual found in it. `argsort`
      stands for numpy's argsort, of which only the ascending order is
      known; `quits[g]` says whether a quit event is waiting when generation
      `g` polls for events. */
  method RunGenerations(initial: seq<Individual>, initialBest: Individual, size: nat, fitness: FitnessFunction,
                        numGenerations: nat, quits: seq<bool>,
                        argsort: seq<Fitness> -> seq<nat>, breed: Breeder)
    returns (r: Result<Run>)
    requires initial != [] && size >= 1
    requires fitness(initialBest).Dist?
    requires forall fit :: Selection.IsAscendingArgsort(argsort(fit), fit)
    ensures r == Loop(Run(initialBest, fitness(initialBest), [fitness(initialBest)], initial, 0),
                      Generations(size, fitness, argsort, breed), numGenerations, quits)
    // the loop runs at most numGenerations times and stops early only
    // after a generation in which a quit event was waiting
    ensures r.Ok? ==> r.value.generations <= numGenerations
    ensures r.Ok? ==> r.value.generations == numGenerations ||
                      (r.value.generations >= 1 && Quit(quits, r.value.generations - 1))
    ensures r.Ok? ==> forall g :: 0 <= g && g + 1 < r.value.generations ==> !Quit(quits, g)
    // the history starts with the fitness of the first best individual
    ensures r.Ok? ==> r.value.history != [] && r.value.history[0] == fitness(initialBest)
    ensures r.Ok? ==> Sound(r.value, size, fitness)
    // only an IndexError while breeding ends the run with an error
    ensures NeverFails(breed) ==> r.Ok?
    ensures RaisesOnlyIndexError(breed) && r.Err? ==> r.error == NoOtherRoute
  {
    var start := Run(initialBest, fitness(initialBest), [fitness(initialBest)], initial, 0);
    r := RunFrom(start, size, fitness, numGenerations, quits, argsort, breed);
    GenerationsMeaning(size, fitness, argsort, breed);
    LoopFacts(start, Generations(size, fitness, argsort, breed), numGenerations, quits, size, fitness);
    if RaisesOnlyIndexError(breed) && r.Err? {
      LoopError(start, Generations(size, fitness, argsort, breed), numGenerations, quits, NoOtherRoute);
    }
  }

  /** The loop itself (vrp_fogas.py:151-181): poll for events, make a
      generation, stop on an error, after a quit event or after
      `numGenerations` generations. */
  method RunFrom(start: Run, size: nat, fitness: FitnessFunction, numGenerations: nat, quits: seq<bool>,
                 argsort: seq<Fitness> -> seq<nat>, breed: Breeder)
    returns (r: Result<Run>)
    requires start.population != [] && size >= 1
    requires forall fit :: Selection.IsAscendingArgsort(argsort(fit), fit)
    ensures r == Loop(start, Generations(size, fitness, argsort, breed), numGenerations, quits)
  {
    ghost var next := Generations(size, fitness, argsort, breed);
    var run := start;
    var running := true;
    while running && run.generations < numGenerations
      invariant run.population != []
      invariant running ==> Loop(run, next, numGenerations, quits) == Loop(start, next, numGenerations, quits)
      invariant !running ==> Ok(run) == Loop(start, next, numGenerations, quits)
      decreases numGenerations - run.generations
    {
      if Quit(quits, run.generations) {
        running := false;
      }
      var step := Generation(run, size, fitness, argsort, breed);
      if step.Err? {
        return Err(step.error);
      }
      run := Advance(run, step.value);
    }
    return Ok(run);
  }

  /** The body of main from the first evaluation to the end of the loop
      (vrp_fogas.py:141-181), for any fitness function: ValueError when no
      initial individual is feasible; otherwise the first feasible one
      starts the loop, which stops as main's does; no other error when the
      breeder never raises; the history starts with the first finite
      fitness and gains one entry per generation; and the best fitness is
      finite, the least of the history and the fitness of the best
      individual, which closes the population. */
  method EvolveWith(initial: seq<Individual>, fitness: FitnessFunction, numGenerations: nat, quits: seq<bool>,
                    argsort: seq<Fitness> -> seq<nat>, breed: Breeder)
    returns (r: Result<Run>)
    requires initial != []
    requires forall fit :: Selection.IsAscendingArgsort(argsort(fit), fit)
    ensures (forall i :: 0 <= i < |initial| ==> fitness(initial[i]).Infeasible?) ==> r == Err(NoValidInitialSolution)
    ensures RaisesOnlyIndexError(breed) ==>
      (r == Err(NoValidInitialSolution) <==> forall i :: 0 <= i < |initial| ==> fitness(initial[i]).Infeasible?)
    ensures ((exists i :: 0 <= i < |initial| && fitness(initial[i]).Dist?) && NeverFails(breed)) ==> r.Ok?
    ensures r.Ok? ==> r.value.generations <= numGenerations && |r.value.history| == r.value.generations + 1
    ensures r.Ok? ==> r.value.generations == numGenerations ||
                      (r.value.generations >= 1 && Quit(quits, r.value.generations - 1))
    ensures r.Ok? ==> exists i :: (0 <= i < |initial| && r.value.history[0] == fitness(initial[i]) &&
                                   r.value.history[0].Dist? &&
                                   forall j :: 0 <= j < i ==> fitness(initial[j]).Infeasible?)
    ensures r.Ok? ==> IsLeast(r.value.bestFitness, r.value.history) && r.value.bestFitness.Dist?
    ensures r.Ok? ==> fitness(r.value.best) == r.value.bestFitness
    ensures r.Ok? && r.value.generations >= 1 ==>
      r.value.population != [] && |r.value.population| <= |initial| &&
      r.value.population[|r.value.population| - 1] == r.value.best
  {
    var first := FirstRun(initial, fitness);
    if first.None? {
      return Err(NoValidInitialSolution);
    }
    r := RunGenerations(initial, first.value.best, |initial|, fitness, numGenerations, quits, argsort, breed);
  }

  /** The fitness function of main: `calculate_fitness` on the instance. */
  function Evaluator(demands: seq<int>, capacity: int, dist: seq<seq<real>>): (r: FitnessFunction)
    requires Evaluation.IsDistanceMatrix(dist, |demands| + 1)
    ensures forall ind :: r(ind) == Evaluation.Evaluate(ind, demands, capacity, dist)
  {
    ind => Evaluation.Evaluate(ind, demands, capacity, dist)
  }

  /** The body of main from the first evaluation to the end of the loop
      (vrp_fogas.py:141-181) with `calculate_fitness` as the fitness:
      without a feasible individual in the first population the run stops
      before the loop; otherwise the first feasible individual is the first
      best, the loop runs at most numGenerations times, stopping early only
      after a generation in which a quit event was waiting, and the best
      fitness it reports is finite, the least of the history and the fitness
      of the best individual. */
  method Evolve(demands: seq<int>, capacity: int, dist: seq<seq<real>>, initial: seq<Individual>,
                numGenerations: nat, quits: seq<bool>,
                argsort: seq<Fitness> -> seq<nat>, breed: Breeder)
    returns (r: Result<Run>)
    requires Evaluation.IsDistanceMatrix(dist, |demands| + 1)
    requires |initial| == PopulationSize(|demands|)
    requires forall fit :: Selection.IsAscendingArgsort(argsort(fit), fit)
    ensures (forall i :: 0 <= i < |initial| ==> Evaluation.Evaluate(initial[i], demands, capacity, dist).Infeasible?)
            ==> r == Err(NoValidInitialSolution)
    ensures RaisesOnlyIndexError(breed) ==>
      (r == Err(NoValidInitialSolution) <==>
       forall i :: 0 <= i < |initial| ==> Evaluation.Evaluate(initial[i], demands, capacity, dist).Infeasible?)
    ensures ((exists i :: 0 <= i < |initial| && Evaluation.Evaluate(initial[i], demands, capacity, dist).Dist?) &&
             NeverFails(breed)) ==> r.Ok?
    ensures r.Ok? ==> r.value.generations <= numGenerations && |r.value.history| == r.value.generations + 1
    ensures r.Ok? ==> r.value.generations == numGenerations ||
                      (r.value.generations >= 1 && Quit(quits, r.value.generations - 1))
    ensures r.Ok? ==> exists i :: (0 <= i < |initial| &&
      r.value.history[0] == Evaluation.Evaluate(initial[i], demands, capacity, dist) &&
      r.value.history[0].Dist? &&
      forall j :: 0 <= j < i ==> Evaluation.Evaluate(initial[j], demands, capacity, dist).Infeasible?)
    ensures r.Ok? ==> IsLeast(r.value.bestFitness, r.value.history) && r.value.bestFitness.Dist?
    ensures r.Ok? ==> Evaluation.Evaluate(r.value.best, demands, capacity, dist) == r.value.bestFitness
    ensures r.Ok? && r.value.generations >= 1 ==>
      r.value.population != [] && |r.value.population| <= |initial| && r.value.population[|r.value.population| - 1] == r.value.best
  {
    r := EvolveWith(initial, Evaluator(demands, capacity, dist), numGenerations, quits, argsort, breed);
  }

  /** A finite fitness, like the best one the run reports, belongs to a
      feasible individual and is its total route length. */
  lemma FiniteMeansFeasible(ind: Individual, demands: seq<int>, capacity: int, dist: seq<seq<real>>)
    requires Evaluation.IsDistanceMatrix(dist, |demands| + 1)
    requires Evaluation.Evaluate(ind, demands, capacity, dist).Dist?
    ensures Evaluation.Feasible(ind, demands, capacity)
    ensures Evaluation.Evaluate(ind, demands, capacity, dist).total == Evaluation.TotalLength(ind, |demands|, dist)
  {
    Evaluation.EvaluateMeaning(ind, demands, capacity, dist);
  }
}
