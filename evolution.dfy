/** The specification of how generations follow one another: a row of cells on a
    ring, the successor row under a rule, the row reached after k steps, and
    what the seed row of a run looks like. */
module Evolution {
  import opened Rule

  /** The left neighbour of column c on a ring of n columns, computed as
      (c - 1 + n) % n. Both operands are non-negative when 0 <= c < n, so the
      truncating `%` of C and Dafny's `%` agree here. */
  function LeftOf(c: int, n: int): (l: int)
    requires 0 <= c < n
    ensures 0 <= l < n
    ensures l == if c == 0 then n - 1 else c - 1
  {
    (c - 1 + n) % n
  }

  /** The right neighbour of column c on a ring of n columns, computed as (c + 1) % n. */
  function RightOf(c: int, n: int): (r: int)
    requires 0 <= c < n
    ensures 0 <= r < n
    ensures r == if c == n - 1 then 0 else c + 1
  {
    (c + 1) % n
  }

  /** The successor of column c: the table entry of the pattern formed by the
      previous row at the left neighbour, at c itself and at the right neighbour. */
  function NextCell(prev: seq<Cell>, table: Table, c: int): (next: Cell)
    requires 0 <= c < |prev|
    ensures next == table[PatternIndex(
      if c == 0 then prev[|prev| - 1] else prev[c - 1],
      prev[c],
      if c == |prev| - 1 then prev[0] else prev[c + 1])]
  {
    table[PatternIndex(prev[LeftOf(c, |prev|)], prev[c], prev[RightOf(c, |prev|)])]
  }

  /** calculate_cell applied to the three upper neighbours of column c is
      NextCell under the rule's table. */
  lemma CalculateCellIsNextCell(prev: seq<Cell>, rule: int, c: int, l: Cell, m: Cell, r: Cell)
    requires 0 <= c < |prev|
    requires l == prev[LeftOf(c, |prev|)] && m == prev[c] && r == prev[RightOf(c, |prev|)]
    ensures CalculateCell(l, m, r, rule) == NextCell(prev, RuleTable(rule), c)
  {
  }

  /** The first k columns of the successor row, computed left to right. */
  function StepPrefix(prev: seq<Cell>, table: Table, k: nat): (next: seq<Cell>)
    requires k <= |prev|
    ensures |next| == k
  {
    if k == 0 then [] else StepPrefix(prev, table, k - 1) + [NextCell(prev, table, k - 1)]
  }

  /** The successor of a whole row. */
  function Step(prev: seq<Cell>, table: Table): (next: seq<Cell>)
    ensures |next| == |prev|
  {
    StepPrefix(prev, table, |prev|)
  }

  lemma {:induction false} StepPrefixAt(prev: seq<Cell>, table: Table, k: nat, c: int)
    requires 0 <= c < k <= |prev|
    ensures StepPrefix(prev, table, k)[c] == NextCell(prev, table, c)
  {
    var front := StepPrefix(prev, table, k - 1);
    assert StepPrefix(prev, table, k) == front + [NextCell(prev, table, k - 1)];
    if c < k - 1 {
      StepPrefixAt(prev, table, k - 1, c);
    }
  }

  /** Column 0 takes the last column as its left neighbour and the last column
      takes column 0 as its right one; every other column reads c - 1 and c + 1. */
  lemma StepAt(prev: seq<Cell>, table: Table, c: int)
    requires 0 <= c < |prev|
    ensures Step(prev, table)[c] == table[PatternIndex(
      if c == 0 then prev[|prev| - 1] else prev[c - 1],
      prev[c],
      if c == |prev| - 1 then prev[0] else prev[c + 1])]
  {
    StepPrefixAt(prev, table, |prev|, c);
  }

  /** A row is the successor of prev exactly when it has prev's length and each
      of its columns is NextCell of that column. */
  lemma StepUnique(prev: seq<Cell>, table: Table, next: seq<Cell>)
    ensures next == Step(prev, table) <==>
      |next| == |prev| && forall c :: 0 <= c < |prev| ==> next[c] == NextCell(prev, table, c)
  {
    forall c | 0 <= c < |prev| {
      StepPrefixAt(prev, table, |prev|, c);
    }
  }

  /** On a ring of ten columns, column 0 reads columns 9, 0, 1 and column 9 reads 8, 9, 0. */
  lemma WrapAroundTen(prev: seq<Cell>, table: Table)
    requires |prev| == 10
    ensures Step(prev, table)[0] == table[PatternIndex(prev[9], prev[0], prev[1])]
    ensures Step(prev, table)[9] == table[PatternIndex(prev[8], prev[9], prev[0])]
  {
    StepAt(prev, table, 0);
    StepAt(prev, table, 9);
  }

  /** The row turned by one column: column c takes the old column c + 1, and the
      last column takes the old column 0. */
  function RotateLeft(s: seq<Cell>): (t: seq<Cell>)
    requires |s| > 0
    ensures |t| == |s|
    ensures forall c :: 0 <= c < |s| ==> t[c] == s[RightOf(c, |s|)]
  {
    s[1..] + [s[0]]
  }

  /** The ring has no distinguished column: turning a row and then stepping it
      gives the same as stepping it and then turning the result. */
  lemma StepCommutesWithRotation(prev: seq<Cell>, table: Table)
    requires |prev| > 0
    ensures Step(RotateLeft(prev), table) == RotateLeft(Step(prev, table))
  {
    var n := |prev|;
    var q := RotateLeft(prev);
    var b := RotateLeft(Step(prev, table));
    forall c | 0 <= c < n
      ensures b[c] == NextCell(q, table, c)
    {
      var rc := RightOf(c, n);
      assert LeftOf(rc, n) == c;
      assert q[LeftOf(c, n)] == prev[c];
      StepPrefixAt(prev, table, n, rc);
    }
    StepUnique(q, table, b);
  }

  /** Row k of a run whose row 0 is `seed`: k successive steps under the table. */
  function Gen(seed: seq<Cell>, table: Table, k: nat): (row: seq<Cell>)
    ensures |row| == |seed|
    decreases k
  {
    if k == 0 then seed else Step(Gen(seed, table, k - 1), table)
  }

  /** Stepping a row a times and then b more times is stepping it a + b times:
      a row depends on nothing but the row before it. */
  lemma {:induction false} GenAdd(seed: seq<Cell>, table: Table, a: nat, b: nat)
    ensures Gen(Gen(seed, table, a), table, b) == Gen(seed, table, a + b)
    decreases b
  {
    if b > 0 {
      GenAdd(seed, table, a, b - 1);
    }
  }

  /** Turning the seed turns every later generation in the same way. */
  lemma {:induction false} GenCommutesWithRotation(seed: seq<Cell>, table: Table, k: nat)
    requires |seed| > 0
    ensures Gen(RotateLeft(seed), table, k) == RotateLeft(Gen(seed, table, k))
    decreases k
  {
    if k > 0 {
      GenCommutesWithRotation(seed, table, k - 1);
      StepCommutesWithRotation(Gen(seed, table, k - 1), table);
    }
  }

  /** In the table 0,0,1,1,0,0,1,1 every pattern looks up its middle cell. */
  lemma MiddleTable(t: Table, l: Cell, m: Cell, r: Cell)
    requires t == [0, 0, 1, 1, 0, 0, 1, 1]
    ensures t[PatternIndex(l, m, r)] == m
  {
    assert PatternIndex(l, m, r) == 4 * l + 2 * m + r;
    if l == 0 {
      if m == 0 { assert t[r] == 0; } else { assert t[2 + r] == 1; }
    } else {
      if m == 0 { assert t[4 + r] == 0; } else { assert t[6 + r] == 1; }
    }
  }

  /** In the table 0,1,0,1,0,1,0,1 every pattern looks up its right cell. */
  lemma RightTable(t: Table, l: Cell, m: Cell, r: Cell)
    requires t == [0, 1, 0, 1, 0, 1, 0, 1]
    ensures t[PatternIndex(l, m, r)] == r
  {
    var h: int := 2 * l + m;
    assert PatternIndex(l, m, r) == 2 * h + r;
    if r == 0 { assert t[2 * h] == 0; } else { assert t[2 * h + 1] == 1; }
  }

  lemma Rule204Table()
    ensures RuleTable(204) == [0, 0, 1, 1, 0, 0, 1, 1]
  {
  }

  lemma Rule170Table()
    ensures RuleTable(170) == [0, 1, 0, 1, 0, 1, 0, 1]
  {
  }

  /** Rule 204 (binary 11001100) copies the middle cell: every row is its own successor. */
  lemma IdentityRule(prev: seq<Cell>)
    ensures Step(prev, RuleTable(204)) == prev
  {
    var t := RuleTable(204);
    Rule204Table();
    forall c | 0 <= c < |prev|
      ensures prev[c] == NextCell(prev, t, c)
    {
      MiddleTable(t, prev[LeftOf(c, |prev|)], prev[c], prev[RightOf(c, |prev|)]);
    }
    StepUnique(prev, t, prev);
  }

  /** Rule 170 (binary 10101010) copies the right cell: the row turns by one column. */
  lemma ShiftRule(prev: seq<Cell>)
    requires |prev| > 0
    ensures Step(prev, RuleTable(170)) == RotateLeft(prev)
  {
    var t := RuleTable(170);
    Rule170Table();
    forall c | 0 <= c < |prev|
      ensures RotateLeft(prev)[c] == NextCell(prev, t, c)
    {
      RightTable(t, prev[LeftOf(c, |prev|)], prev[c], prev[RightOf(c, |prev|)]);
    }
    StepUnique(prev, t, RotateLeft(prev));
  }

  /** The columns of a row holding 1 (the live cells); as a set, no column is counted twice. */
  function Ones(row: seq<Cell>): set<int> {
    set c | 0 <= c < |row| && row[c] == 1
  }

  /** A seed row of the given size: exactly `size` of its cells are 1. */
  predicate Seeded(row: seq<Cell>, size: nat) {
    |Ones(row)| == size
  }

  /** A row of n dead cells. */
  function Zeros(n: nat): (row: seq<Cell>)
    ensures |row| == n && forall c :: 0 <= c < n ==> row[c] == 0
  {
    seq(n, c => 0)
  }

  /** A row of n cells has at most n live ones, and exactly n only when every cell is live. */
  lemma {:induction false} OnesBound(row: seq<Cell>)
    ensures |Ones(row)| <= |row|
    ensures |Ones(row)| == |row| <==> forall c :: 0 <= c < |row| ==> row[c] == 1
    decreases |row|
  {
    if row != [] {
      var n := |row| - 1;
      var front := row[..n];
      OnesBound(front);
      assert Ones(row) == Ones(front) + (if row[n] == 1 then {n} else {});
      assert n !in Ones(front);
    }
  }

  /** While fewer than |row| cells are live, some column is still free: the
      rejection loop of the seeding always has a column it can accept. */
  lemma FreeColumn(row: seq<Cell>)
    requires |Ones(row)| < |row|
    ensures exists c :: 0 <= c < |row| && row[c] != 1
  {
    OnesBound(row);
  }

  /** A seed row holds no more live cells than it has columns, and a seed as
      large as the row makes every cell live. */
  lemma SeedBounds(row: seq<Cell>, size: nat)
    requires Seeded(row, size)
    ensures size <= |row|
    ensures size == |row| ==> forall c :: 0 <= c < |row| ==> row[c] == 1
  {
    OnesBound(row);
  }
}
