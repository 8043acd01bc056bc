/** The command-line entry point once its arguments have been read as integers:
    the argument count check, the four range checks, the exit status, and the
    run that follows when every check passes. */
module Cli {
  import opened Rule
  import opened Evolution
  import opened Simulation

  /** The iteration and column counts used when the options are not given. */
  const DefaultIterations: int := 50
  const DefaultColumns: int := 80

  /** The four argument errors, one per range check. */
  datatype ArgumentError =
    | IncorrectPopulationSize
    | IncorrectRule
    | IncorrectColumns
    | IncorrectIterations

  /** The position of each check in the order the checks are made. */
  function Rank(e: ArgumentError): int {
    match e
    case IncorrectPopulationSize => 0
    case IncorrectRule => 1
    case IncorrectColumns => 2
    case IncorrectIterations => 3
  }

  /** The errors reported for a set of arguments. Every check is made, so one
      failing check does not hide a later one; each error is reported at most
      once, in the order of the checks. */
  function ArgumentErrors(rule: int, populationSize: int, iterationsNum: int, columnsNum: int)
    : (errors: seq<ArgumentError>)
    ensures IncorrectPopulationSize in errors <==> !(0 <= populationSize <= columnsNum)
    ensures IncorrectRule in errors <==> !(0 <= rule <= 255)
    ensures IncorrectColumns in errors <==> !(30 <= columnsNum <= 150)
    ensures IncorrectIterations in errors <==> !(10 <= iterationsNum <= 80)
  {
    (if 0 <= populationSize && populationSize <= columnsNum then [] else [IncorrectPopulationSize]) +
    (if 0 <= rule && rule <= 255 then [] else [IncorrectRule]) +
    (if 30 <= columnsNum && columnsNum <= 150 then [] else [IncorrectColumns]) +
    (if 10 <= iterationsNum && iterationsNum <= 80 then [] else [IncorrectIterations])
  }

  /** The errors come in the order of the checks, so none is reported twice. */
  lemma ErrorsInCheckOrder(rule: int, populationSize: int, iterationsNum: int, columnsNum: int)
    ensures var errors := ArgumentErrors(rule, populationSize, iterationsNum, columnsNum);
      forall i, j :: 0 <= i < j < |errors| ==> Rank(errors[i]) < Rank(errors[j])
  {
    var p := if 0 <= populationSize && populationSize <= columnsNum then [] else [IncorrectPopulationSize];
    var r := if 0 <= rule && rule <= 255 then [] else [IncorrectRule];
    var c := if 30 <= columnsNum && columnsNum <= 150 then [] else [IncorrectColumns];
    var t := if 10 <= iterationsNum && iterationsNum <= 80 then [] else [IncorrectIterations];
    var errors := p + r + c + t;
    assert ArgumentErrors(rule, populationSize, iterationsNum, columnsNum) == errors;
    forall i, j | 0 <= i < j < |errors|
      ensures Rank(errors[i]) < Rank(errors[j])
    {
    }
  }

  /** The arguments every range check accepts. */
  predicate InRange(rule: int, populationSize: int, iterationsNum: int, columnsNum: int) {
    0 <= populationSize <= columnsNum && 0 <= rule <= 255 &&
    30 <= columnsNum <= 150 && 10 <= iterationsNum <= 80
  }

  /** No error is reported exactly when every range check accepts. */
  lemma NoErrorsInRange(rule: int, populationSize: int, iterationsNum: int, columnsNum: int)
    ensures ArgumentErrors(rule, populationSize, iterationsNum, columnsNum) == [] <==>
      InRange(rule, populationSize, iterationsNum, columnsNum)
  {
    var errors := ArgumentErrors(rule, populationSize, iterationsNum, columnsNum);
    if errors != [] {
      assert errors[0] in errors;
    }
  }

  /** The defaults pass the iteration and column checks, and with them any rule
      in [0, 255] and any population size in [0, 80] is accepted. */
  lemma DefaultsInRange(rule: int, populationSize: int)
    requires 0 <= rule <= 255 && 0 <= populationSize <= 80
    ensures ArgumentErrors(rule, populationSize, DefaultIterations, DefaultColumns) == []
  {
    NoErrorsInRange(rule, populationSize, DefaultIterations, DefaultColumns);
  }

  /** The exit status of the program: 1 when the positional arguments are not
      exactly two, otherwise 2 when some check fails and 0 after a run. */
  function ExitStatus(positionalCount: int, rule: int, populationSize: int, iterationsNum: int, columnsNum: int)
    : (status: int)
    ensures status == 1 <==> positionalCount != 2
    ensures status == 2 <==>
      positionalCount == 2 && !InRange(rule, populationSize, iterationsNum, columnsNum)
    ensures status == 0 <==>
      positionalCount == 2 && InRange(rule, populationSize, iterationsNum, columnsNum)
  {
    NoErrorsInRange(rule, populationSize, iterationsNum, columnsNum);
    if positionalCount != 2 then 1
    else if ArgumentErrors(rule, populationSize, iterationsNum, columnsNum) != [] then 2
    else 0
  }

  /** main: returns the exit status, and runs the simulation exactly when that
      status is 0. The run then has the requested shape in newly allocated
      arrays, a seed row with the
      requested number of live cells, and every row is the generation of the
      seed with its own index. */
  method Launch(positionalCount: int, rule: int, populationSize: int, iterationsNum: int, columnsNum: int)
    returns (status: int, population: Population?)
    ensures status == ExitStatus(positionalCount, rule, populationSize, iterationsNum, columnsNum)
    ensures population != null <==> status == 0
    ensures population != null ==>
      fresh(population) && population.Valid() &&
      fresh(population.cells) &&
      (forall i :: 0 <= i < population.iterations ==> fresh(population.cells[i])) &&
      population.iterations == iterationsNum && population.columns == columnsNum &&
      Seeded(population.Row(0), populationSize) &&
      forall k :: 0 <= k < iterationsNum ==>
        population.Row(k) == Gen(population.Row(0), RuleTable(rule), k)
  {
    if positionalCount != 2 {
      return 1, null;
    }
    var errors := ArgumentErrors(rule, populationSize, iterationsNum, columnsNum);
    if errors != [] {
      return 2, null;
    }
    NoErrorsInRange(rule, populationSize, iterationsNum, columnsNum);
    population := RunSimulation(rule, populationSize, iterationsNum, columnsNum);
    status := 0;
  }
}
