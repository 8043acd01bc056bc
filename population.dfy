/** The population buffer and the operations that fill it: creation with a
    random seed row, the computation of one generation from the one above it,
    and the loop that computes every generation of a run. The grid is kept as
    the source keeps it, an array of `iterations` row arrays of `columns` cells
    each, indexed [iteration][column]. */
module Simulation {
  import opened Rule
  import opened Evolution

  /** A fresh row of n cells, each set to 0 (one row allocation of
      create_population and the zeroing loop over it). */
  method NewRow(n: nat) returns (row: array<Cell>)
    ensures fresh(row)
    ensures row[..] == Zeros(n)
  {
    row := new Cell[n];
    var j := 0;
    while j < n
      invariant 0 <= j <= n
      invariant forall c :: 0 <= c < j ==> row[c] == 0
    {
      row[j] := 0;
      j := j + 1;
    }
  }

  /** The seeding loop of create_population. It runs populationSize times; each
      time it draws columns until it finds one whose cell is not 1, and sets
      that cell to 1. The repeated draw `rand() % columns_num` is modelled as
      one choice among the columns it would accept. `picks` lists the chosen
      columns in order. */
  method SeedRow(row: array<Cell>, populationSize: nat) returns (ghost picks: seq<int>)
    requires populationSize <= row.Length
    requires row[..] == Zeros(row.Length)
    modifies row
    ensures Seeded(row[..], populationSize)
    ensures |picks| == populationSize
    ensures forall a, b :: 0 <= a < b < |picks| ==> picks[a] != picks[b]
    ensures forall c :: 0 <= c < row.Length ==> (row[c] == 1 <==> c in picks)
  {
    picks := [];
    var i := 0;
    while i < populationSize
      invariant 0 <= i <= populationSize && |picks| == i
      invariant forall a, b :: 0 <= a < b < |picks| ==> picks[a] != picks[b]
      invariant forall c :: 0 <= c < row.Length ==> (row[c] == 1 <==> c in picks)
      invariant |Ones(row[..])| == i
    {
      FreeColumn(row[..]);
      var cell :| 0 <= cell < row.Length && row[cell] != 1;
      ghost var before := row[..];
      row[cell] := 1;
      assert row[..] == before[cell := 1];
      assert Ones(row[..]) == Ones(before) + {cell} && cell !in Ones(before);
      assert cell !in picks;
      picks := picks + [cell];
      i := i + 1;
    }
  }

  class Population {
    const iterations: nat
    const columns: nat
    /** One reference per iteration, each to a row of `columns` cells. */
    const cells: array<array?<Cell>>

    /** The buffer's shape: `iterations` distinct rows of `columns` cells each. */
    ghost predicate Valid()
      reads this, cells
    {
      cells.Length == iterations &&
      (forall i :: 0 <= i < iterations ==> cells[i] != null && cells[i].Length == columns) &&
      (forall i, j :: 0 <= i < j < iterations ==> cells[i] != cells[j])
    }

    /** The cells of row i. */
    ghost function Row(i: nat): seq<Cell>
      requires Valid() && i < iterations
      reads this, cells, cells[i]
    {
      cells[i][..]
    }

    /** create_population: an iterationsNum x columnsNum grid of zeros whose
        row 0 then receives populationSize live cells at distinct columns. */
    constructor (iterationsNum: nat, populationSize: nat, columnsNum: nat)
      requires 0 < iterationsNum && populationSize <= columnsNum
      ensures Valid() && iterations == iterationsNum && columns == columnsNum
      ensures fresh(cells) && forall i :: 0 <= i < iterations ==> fresh(cells[i])
      ensures Seeded(Row(0), populationSize)
      ensures forall i :: 1 <= i < iterations ==> Row(i) == Zeros(columns)
    {
      var population := new array?<Cell>[iterationsNum];
      var i := 0;
      while i < iterationsNum
        invariant 0 <= i <= iterationsNum
        invariant forall k :: 0 <= k < i ==>
          population[k] != null && fresh(population[k]) && population[k][..] == Zeros(columnsNum)
        invariant forall a, b :: 0 <= a < b < i ==> population[a] != population[b]
      {
        var row := NewRow(columnsNum);
        population[i] := row;
        i := i + 1;
      }
      ghost var picks := SeedRow(population[0], populationSize);
      iterations, columns, cells := iterationsNum, columnsNum, population;
    }

    /** calculate_iteration: row `iteration` becomes the successor, under the
        rule, of row iteration - 1; no other row changes. */
    method CalculateIteration(iteration: nat, rule: int)
      requires Valid() && 1 <= iteration < iterations
      modifies cells[iteration]
      ensures Valid()
      ensures Row(iteration) == Step(old(Row(iteration - 1)), RuleTable(rule))
      ensures forall i :: 0 <= i < iterations && i != iteration ==> Row(i) == old(Row(i))
    {
      ghost var prev := Row(iteration - 1);
      ghost var table := RuleTable(rule);
      var above := cells[iteration - 1];
      var current := cells[iteration];
      assert above != current;
      var cellNum := 0;
      while cellNum < columns
        invariant 0 <= cellNum <= columns
        invariant above[..] == prev
        invariant current[..cellNum] == StepPrefix(prev, table, cellNum)
      {
        var upperLeftNum := LeftOf(cellNum, columns);
        var upperMiddleNum := cellNum;
        var upperRightNum := RightOf(cellNum, columns);

        var upperLeft := above[upperLeftNum];
        var upperMiddle := above[upperMiddleNum];
        var upperRight := above[upperRightNum];

        var currentCell := CalculateCell(upperLeft, upperMiddle, upperRight, rule);
        ghost var front := current[..cellNum];
        current[cellNum] := currentCell;
        assert current[..cellNum + 1] == StepPrefix(prev, table, cellNum + 1) by {
          CalculateCellIsNextCell(prev, rule, cellNum, upperLeft, upperMiddle, upperRight);
          assert current[..cellNum + 1] == front + [currentCell];
        }
        cellNum := cellNum + 1;
      }
      assert current[..] == current[..columns];
    }

    /** The compute loop of run_simulation: rows 1 .. iterations - 1 are
        computed in increasing order, each from the one above it. Row k ends as
        the k-th generation of the seed; rows not yet reached by the loop keep
        their contents until their turn. */
    method Compute(rule: int)
      requires Valid() && 0 < iterations
      modifies cells[..]
      ensures Valid()
      ensures Row(0) == old(Row(0))
      ensures forall k :: 1 <= k < iterations ==> Row(k) == Step(Row(k - 1), RuleTable(rule))
      ensures forall k :: 0 <= k < iterations ==> Row(k) == Gen(old(Row(0)), RuleTable(rule), k)
    {
      ghost var seed := Row(0);
      ghost var table := RuleTable(rule);
      var iteration := 1;
      while iteration < iterations
        invariant 1 <= iteration <= iterations
        invariant forall k :: 0 <= k < iteration ==> Row(k) == Gen(seed, table, k)
        invariant forall k :: iteration <= k < iterations ==> Row(k) == old(Row(k))
      {
        ghost var above := Row(iteration - 1);
        CalculateIteration(iteration, rule);
        assert Row(iteration) == Step(above, table) == Gen(seed, table, iteration);
        iteration := iteration + 1;
      }
      forall k | 1 <= k < iterations
        ensures Row(k) == Step(Row(k - 1), table)
      {
        assert Row(k) == Gen(seed, table, k) && Row(k - 1) == Gen(seed, table, k - 1);
      }
    }
  }

  /** run_simulation without its display part: create the buffer, then compute
      every generation. */
  method RunSimulation(rule: int, populationSize: nat, iterationsNum: nat, columnsNum: nat)
    returns (population: Population)
    requires 0 < iterationsNum && populationSize <= columnsNum
    ensures fresh(population) && population.Valid()
    ensures fresh(population.cells) &&
      forall i :: 0 <= i < population.iterations ==> fresh(population.cells[i])
    ensures population.iterations == iterationsNum && population.columns == columnsNum
    ensures Seeded(population.Row(0), populationSize)
    ensures forall k :: 1 <= k < iterationsNum ==>
      population.Row(k) == Step(population.Row(k - 1), RuleTable(rule))
    ensures forall k :: 0 <= k < iterationsNum ==>
      population.Row(k) == Gen(population.Row(0), RuleTable(rule), k)
  {
    population := new Population(iterationsNum, populationSize, columnsNum);
    population.Compute(rule);
  }

  /** A fresh 10 x 10 buffer seeded with five live cells: row 0 holds exactly
      five ones, at five distinct columns, and every other row is all zeros. */
  method CreateTenByTen()
  {
    var population := new Population(10, 5, 10);
    assert |Ones(population.Row(0))| == 5;
    assert forall i :: 1 <= i < 10 ==> population.Row(i) == Zeros(10);
  }

  /** A run shares no array with its caller: writing to an array the caller
      already held leaves every row of the run as it was. */
  method RunLeavesCallerArraysApart(a: array<Cell>)
    requires a.Length > 0
    modifies a
  {
    var population := RunSimulation(122, 3, 5, 8);
    ghost var seed := population.Row(0);
    ghost var last := population.Row(4);
    a[0] := 1;
    assert population.Row(0) == seed && population.Row(4) == last;
  }

  /** A run with rule 122, three live cells, five iterations and eight columns:
      row 0 has exactly three live cells and every later row follows from the
      one above it. */
  method RunRule122()
  {
    var population := RunSimulation(122, 3, 5, 8);
    assert |Ones(population.Row(0))| == 3;
    assert forall k :: 1 <= k < 5 ==>
      population.Row(k) == Step(population.Row(k - 1), RuleTable(122));
  }
}
