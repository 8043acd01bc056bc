# Elementary cellular automaton: the state derivation engine

The program simulates a one-dimensional elementary cellular automaton. A run
keeps a grid of `iterations_num` rows and `columns_num` columns. Cell values
are 0 (dead) or 1 (alive), and the grid is indexed `[iteration][column]`.

- Row 0 is seeded with `population_size` live cells at distinct columns, chosen
  at random.
- Each later row is computed from the row above it. A cell's new state depends
  on the states of its left, middle and right upper neighbours, read on a ring
  so that the two edge columns are neighbours of each other.
- The rule number (0..255, Wolfram's numbering) serves as the transition table.
  Bit `4*left + 2*middle + right` of the rule gives the new state.

The repository has two variants of the program: `src/main.c`, where the column
count is an option, and the older `main.c`. Their engines match line for line.
This model describes that engine once, with the column count as a runtime
parameter. Table rows cite whichever variant's lines the member models.

The files:

- `rule.dfy` (module `Rule`) covers `calculate_cell`. It reads the rule's bit by
  repeated halving, which matches `rule & (1 << k)` for any `int` rule, negative
  ones included. It also proves that rule numbers 0..255 and 8-entry transition
  tables correspond one to one.
- `evolution.dfy` (module `Evolution`) is the specification of the dynamics:
  - ring neighbours;
  - `Step`, the successor of a row under a table;
  - `Gen`, the k-th generation of a seed;
  - what a seed row is.

  It also proves the properties of these: wrap-around, shift invariance, the
  composition of steps, and the identity and shift rules.
- `population.dfy` (module `Simulation`) holds the buffer as the source has it:
  an array of row arrays, class `Population`. It covers `create_population`,
  `calculate_iteration` and the compute loop of `run_simulation`.
  `calculate_iteration` and the compute loop are proved against `Step` and
  `Gen`; `create_population` is proved against `Seeded` and `Zeros`.
- `cli.dfy` (module `Cli`) covers what `main` in `src/main.c` does once its
  arguments are integers:
  - the check on the number of positional arguments (exit status 1);
  - the four range checks (exit status 2);
  - the run (exit status 0).

## Model

| member | source | states |
|---|---|---|
| Rule.PatternIndex | src/main.c:179 | the index of a neighbourhood pattern lies in [0, 8), so the shift `1 << k` is in range |
| Rule.PatternOfIndex | main.c:175 | the three cells are the binary digits of the index; no two distinct patterns share an index |
| Rule.Bit | src/main.c:181 | the bit test `rule & (1 << k)`; its closed form x / 2^k modulo 2 is stated by BitValue |
| Rule.BitValue | src/main.c:181 | bit k of x is x / 2^k modulo 2, the digit of weight 2^k that `rule & (1 << k)` selects, for negative x too |
| Rule.RuleTable | src/main.c:181 | entry k of a rule's transition table is bit k of the rule, for each of the eight pattern indices |
| Rule.DigitsBit | src/main.c:181 | when the source tests `rule & (1 << k)`, it reads digit k of the rule's table |
| Rule.CalculateCell | src/main.c:177-186 | the new state is the entry of the rule's table for the pattern (left, middle, right): 1 exactly when that bit of the rule is set |
| Rule.ValueRange | main.c:173-182 | a table of n binary digits denotes a number in [0, 2^n) |
| Rule.ValueOfDigits | main.c:173-182 | reading back the first n binary digits of a number below 2^n gives the number |
| Rule.DigitsOfValue | main.c:173-182 | writing out the number a digit sequence denotes gives the digits back |
| Rule.RuleOfTable | src/main.c:285-288 | every rule accepted by the range check [0, 255] is the number of its own table |
| Rule.TableOfRule | src/main.c:177-186 | each of the 256 transition tables is realised by a rule in [0, 255], and that rule's calculate_cell follows the table on every pattern |
| Rule.Rule19AllDead | main.c:173-182 | under rule 19, pattern (0,0,0) yields 1 |
| Rule.Rule19AllAlive | main.c:173-182 | under rule 19, pattern (1,1,1) yields 0 |
| Evolution.LeftOf | src/main.c:197 | `(c - 1 + n) % n` is the left neighbour on the ring: c - 1, or n - 1 for column 0 |
| Evolution.RightOf | src/main.c:199 | `(c + 1) % n` is the right neighbour on the ring: c + 1, or 0 for the last column |
| Evolution.NextCell | src/main.c:197-207 | one pass of the column loop: column c takes the table entry of the previous row's cells at c - 1, c and c + 1, where column 0 reads the last column on its left and the last column reads column 0 on its right |
| Evolution.CalculateCellIsNextCell | src/main.c:201-205 | calculate_cell applied to the cells read at the left, middle and right upper positions of column c gives NextCell of c under the rule's table |
| Evolution.StepPrefix | src/main.c:195-208 | computing the first k columns from left to right gives k cells |
| Evolution.Step | main.c:190-203 | the successor row has the width of the previous row |
| Evolution.StepPrefixAt | src/main.c:195-208 | after k columns are computed, each column c < k holds the table entry of its upper neighbourhood |
| Evolution.StepAt | src/main.c:197-207 | column c of the successor reads the previous row at c - 1, c and c + 1, wrapping at both edges |
| Evolution.StepUnique | main.c:190-203 | a row is the successor of another exactly when it has the same width and every column holds its neighbourhood's table entry |
| Evolution.WrapAroundTen | src/main.c:197-203 | on ten columns, column 0 reads columns 9, 0, 1 and column 9 reads 8, 9, 0 |
| Evolution.RotateLeft | src/main.c:199 | turning a row moves each column c + 1 (cyclically) to c and keeps the width |
| Evolution.StepCommutesWithRotation | main.c:190-203 | the ring has no distinguished column: step-then-turn equals turn-then-step |
| Evolution.Gen | src/main.c:218-221 | every generation has the width of the seed |
| Evolution.GenAdd | src/main.c:218-221 | a generations and then b more equal a + b generations: each row depends only on the row before it |
| Evolution.GenCommutesWithRotation | main.c:212-215 | turning the seed turns every later generation the same way |
| Evolution.MiddleTable | main.c:175-178 | the table 0,0,1,1,0,0,1,1 maps every pattern to its middle cell |
| Evolution.RightTable | main.c:175-178 | the table 0,1,0,1,0,1,0,1 maps every pattern to its right cell |
| Evolution.Rule204Table | src/main.c:181 | the table of rule 204 is 0,0,1,1,0,0,1,1 |
| Evolution.Rule170Table | src/main.c:181 | the table of rule 170 is 0,1,0,1,0,1,0,1 |
| Evolution.IdentityRule | src/main.c:189-209 | under rule 204 every row is its own successor |
| Evolution.ShiftRule | src/main.c:189-209 | under rule 170 the successor is the row turned by one column |
| Evolution.Ones | src/main.c:153-161 | the set of columns of a row holding 1, the live cells the seeding loop places; a set, so a column counts once |
| Evolution.Seeded | src/main.c:153-161 | a seed row of size s: exactly s of its cells are 1, as the seeding loop leaves row 0 |
| Evolution.Zeros | src/main.c:149-151 | a zeroed row of n columns: n cells, all 0 |
| Evolution.OnesBound | main.c:149-157 | a row holds at most as many live cells as columns, and exactly that many only when all its cells are live |
| Evolution.FreeColumn | src/main.c:156-158 | while fewer live cells than columns are placed, some column still fails the redraw test, so the rejection loop can stop |
| Evolution.SeedBounds | src/main.c:153-161 | a seed of a given size fits in the row, and a seed as wide as the row makes every cell live |
| Simulation.NewRow | src/main.c:146-151 | one row allocation followed by its zeroing loop gives a fresh row of zeros |
| Simulation.SeedRow | src/main.c:153-161 | on a zeroed row, the seeding loop places exactly population_size ones, at distinct chosen columns, and nothing else in the row is 1 |
| Simulation.Population.constructor | src/main.c:141-164 | create_population returns iterations_num fresh, distinct rows of columns_num cells; row 0 has exactly population_size live cells and every other row is all zeros |
| Simulation.Population.CalculateIteration | src/main.c:189-209 | the buffer keeps its shape; row `iteration` becomes the successor of row iteration - 1 under the rule's table, and no other row changes |
| Simulation.Population.Compute | src/main.c:218-221 | the buffer keeps its shape and row 0; each row 1 .. iterations_num - 1 is the successor of the row above it, so row k is generation k of the seed |
| Simulation.RunSimulation | src/main.c:212-227 | a fresh, fully computed buffer of the requested shape whose outer array and row arrays are all newly allocated, so it shares no array with the caller, with a seed of population_size live cells and every row derived from the one above it |
| Cli.ArgumentErrors | src/main.c:279-298 | each of the four errors is reported exactly when its range check fails; every check runs even after an earlier one fails |
| Cli.ErrorsInCheckOrder | src/main.c:279-298 | errors come out in the order population, rule, columns, iterations, so each appears at most once |
| Cli.InRange | src/main.c:280-298 | the four bounds main checks: population size in [0, columns], rule in [0, 255], columns in [30, 150], iterations in [10, 80] |
| Cli.NoErrorsInRange | src/main.c:279-302 | no error is reported exactly when all four bounds hold |
| Cli.DefaultsInRange | src/main.c:15-16 | the default 50 iterations and 80 columns pass their checks |
| Cli.ExitStatus | src/main.c:265-306 | status 1 when there are not exactly two positional arguments; otherwise 2 when some bound fails and 0 when all hold |
| Cli.Launch | src/main.c:265-306 | returns ExitStatus, and runs the simulation exactly when the status is 0; the run then meets RunSimulation's guarantees |

`Simulation.CreateTenByTen`, `Simulation.RunRule122` and
`Simulation.RunLeavesCallerArraysApart` are client methods. They check three
concrete uses against the contracts above:

- creating a 10 x 10 buffer with five live cells;
- a run with rule 122, three live cells, five iterations and eight columns;
- a write to an array the caller already held, after a run, leaves the run's
  rows unchanged.

## Left out

- Rendering: `visualize_simulation`, Allegro, frame timing and keyboard handling.
  The renderer only reads the finished buffer.
- Option parsing (`argparse`) and the conversion of the positional arguments
  with `atoi`. `Cli.Launch` receives the number of positional arguments and the
  four integers after that step.
- The messages printed to `stderr`.
- `srand(time(NULL))`, `rand()` and `random_number`. Each redraw of the seeding
  loop (`rand() % columns_num` until the cell is not 1) is modelled as one
  nondeterministic choice among the columns the loop accepts. This captures what
  the loop can produce. It does not capture the uniform distribution of seeds,
  or that the loop terminates only with probability 1.
- `malloc`, `free` and `delete_population`. Dafny's memory is managed, and a
  failed allocation is not modelled.
- `main` of `main.c`, which sets fixed values and never calls `run_simulation`
  (the call is commented out).
- Simulation.Population.constructor: requires `0 < iterationsNum`, because row 0
  must exist to be seeded. With zero iterations and a positive population size
  the source would write through an empty allocation; with zero iterations and
  population size 0 it returns an empty buffer, a case the model does not
  cover. Both lie outside the validated range 10..80.
- Simulation.Population.Compute: requires `0 < iterations` for the same reason.
- Rule.CalculateCell: its arguments are typed `Cell` (0 or 1). The source takes
  any `int`, but it only ever passes values read from the buffer, and those are
  0 or 1.
- Machine integers: all arithmetic is unbounded. Within the validated ranges no
  expression of the engine comes close to overflowing an `int`.
