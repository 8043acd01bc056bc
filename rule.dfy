/** The rule engine of an elementary cellular automaton.
    A rule number encodes, in its eight lowest binary digits, the successor
    state of a cell for each of the eight (left, middle, right) neighbourhood
    patterns (Wolfram's numbering): digit k is the successor of the pattern
    whose binary reading 4*left + 2*middle + right is k. */
module Rule {

  /** A cell state: 0 (dead) or 1 (alive). The source stores cells as `int`
      but never writes anything else into them. */
  type Cell = x: int | 0 <= x <= 1

  /** The binary reading of a neighbourhood pattern. It lies in [0, 8), so the
      shift `1 << k` of the source is always in range. */
  function PatternIndex(l: Cell, m: Cell, r: Cell): (k: int)
    ensures 0 <= k < 8
  {
    4 * l + 2 * m + r
  }

  /** The index determines the pattern again: its binary digits are r, m and l,
      so no two patterns share an index. */
  lemma PatternOfIndex(l: Cell, m: Cell, r: Cell)
    ensures var k := PatternIndex(l, m, r); l == k / 4 && m == k / 2 % 2 && r == k % 2
  {
    var k := PatternIndex(l, m, r);
    assert k == 4 * l + 2 * m + r;
    if l == 0 {
      if m == 0 { assert k == r; } else { assert k == 2 + r; }
    } else {
      if m == 0 { assert k == 4 + r; } else { assert k == 6 + r; }
    }
  }

  /** Bit k of x: x halved k times, taken modulo 2. BitValue shows that it is
      the digit of weight 2^k of x, that is `(x >> k) & 1` with an arithmetic
      shift: Dafny's `/` by a positive divisor rounds toward negative infinity,
      as that shift does, so this is also the two's-complement bit of a
      negative x. */
  function Bit(x: int, k: nat): Cell
    decreases k
  {
    if k == 0 then x % 2 else Bit(x / 2, k - 1)
  }

  /** Bit k of x is x / 2^k modulo 2. */
  lemma {:induction false} BitValue(x: int, k: nat)
    ensures Bit(x, k) == x / Pow2(k) % 2
    decreases k
  {
    if k > 0 {
      BitValue(x / 2, k - 1);
      HalveDiv(x, Pow2(k - 1));
    }
  }

  /** Dividing by d is the only way to write x as d * q + r with 0 <= r < d. */
  lemma DivUnique(x: int, d: int, q: int, r: int)
    requires d > 0 && x == d * q + r && 0 <= r < d
    ensures x / d == q && x % d == r
  {
    var q' := x / d;
    assert d * q' + x % d == d * q + r;
    if q' > q {
      MulAtLeast(d, q' - q);
    } else if q' < q {
      MulAtLeast(d, q - q');
    }
  }

  lemma MulAtLeast(d: int, z: int)
    requires d > 0 && z >= 1
    ensures d * z >= d
  {
    assert d * z == d * (z - 1) + d;
  }

  /** Halving and then dividing by m is dividing by 2 * m. */
  lemma HalveDiv(x: int, m: int)
    requires m > 0
    ensures x / 2 / m == x / (2 * m)
  {
    var h := x / 2;
    var q := h / m;
    var r := h % m;
    assert x == 2 * h + x % 2;
    assert h == m * q + r;
    assert x == (2 * m) * q + (2 * r + x % 2);
    DivUnique(x, 2 * m, q, 2 * r + x % 2);
  }

  /** The first n binary digits of x, least significant first. */
  function Digits(x: int, n: nat): (t: seq<Cell>)
    ensures |t| == n
    decreases n
  {
    if n == 0 then [] else [x % 2] + Digits(x / 2, n - 1)
  }

  /** The number whose binary digits, least significant first, are t. */
  function Value(t: seq<Cell>): int {
    if t == [] then 0 else t[0] + 2 * Value(t[1..])
  }

  function Pow2(n: nat): (p: nat)
    ensures p >= 1
  {
    if n == 0 then 1 else 2 * Pow2(n - 1)
  }

  /** A transition table: entry k is the successor of the pattern with index k. */
  type Table = t: seq<Cell> | |t| == 8 witness [0, 0, 0, 0, 0, 0, 0, 0]

  /** The transition table of a rule number: entry k is bit k of the rule. Bits
      above the eighth do not take part. */
  function RuleTable(rule: int): (t: Table)
    ensures forall k :: 0 <= k < 8 ==> t[k] == Bit(rule, k)
  {
    DigitsBits(rule, 8);
    Digits(rule, 8)
  }

  lemma DigitsBits(x: int, n: nat)
    ensures forall k :: 0 <= k < n ==> Digits(x, n)[k] == Bit(x, k)
  {
    forall k | 0 <= k < n {
      DigitsBit(x, n, k);
    }
  }

  lemma {:induction false} DigitsBit(x: int, n: nat, k: nat)
    requires k < n
    ensures Digits(x, n)[k] == Bit(x, k)
    decreases k
  {
    if k > 0 {
      DigitsBit(x / 2, n - 1, k - 1);
    }
  }

  /** calculate_cell: the successor of the cell below (l, m, r). The source tests
      `rule & (1 << k)` for the pattern index k and returns 1 when that bit is
      set, 0 otherwise; the result is therefore entry k of the rule's table. */
  function CalculateCell(l: Cell, m: Cell, r: Cell, rule: int): (c: Cell)
    ensures c == RuleTable(rule)[PatternIndex(l, m, r)]
  {
    var k := PatternIndex(l, m, r);
    DigitsBit(rule, 8, k);
    if Bit(rule, k) == 1 then 1 else 0
  }

  lemma {:induction false} ValueRange(t: seq<Cell>)
    ensures 0 <= Value(t) < Pow2(|t|)
  {
    if t != [] {
      ValueRange(t[1..]);
    }
  }

  /** Reading the first n digits of a number below 2^n gives the number back. */
  lemma {:induction false} ValueOfDigits(x: int, n: nat)
    requires 0 <= x < Pow2(n)
    ensures Value(Digits(x, n)) == x
  {
    if n > 0 {
      ValueOfDigits(x / 2, n - 1);
      assert Digits(x, n)[1..] == Digits(x / 2, n - 1);
    }
  }

  /** Writing out the value of a digit sequence gives the digits back. */
  lemma {:induction false} DigitsOfValue(t: seq<Cell>)
    ensures Digits(Value(t), |t|) == t
  {
    if t != [] {
      var v := Value(t[1..]);
      DigitsOfValue(t[1..]);
      assert Value(t) % 2 == t[0] && Value(t) / 2 == v;
    }
  }

  /** Every rule number in [0, 255] is the number of its own table. */
  lemma RuleOfTable(rule: int)
    requires 0 <= rule <= 255
    ensures Value(RuleTable(rule)) == rule
  {
    assert Pow2(8) == 256;
    ValueOfDigits(rule, 8);
  }

  /** Every one of the 256 transition tables is realised by exactly the rule
      whose binary digits it lists: that rule lies in [0, 255] and its
      calculate_cell looks each pattern up in the given table. */
  lemma TableOfRule(t: Table)
    ensures 0 <= Value(t) <= 255
    ensures forall l: Cell, m: Cell, r: Cell ::
      CalculateCell(l, m, r, Value(t)) == t[PatternIndex(l, m, r)]
  {
    ValueRange(t);
    assert Pow2(8) == 256;
    DigitsOfValue(t);
  }

  /** Rule 19 is binary 00010011. Pattern (0,0,0) has index 0, and bit 0 of 19 is 1. */
  lemma Rule19AllDead()
    ensures CalculateCell(0, 0, 0, 19) == 1
  {
  }

  /** Pattern (1,1,1) has index 7, and bit 7 of rule 19 is 0. */
  lemma Rule19AllAlive()
    ensures CalculateCell(1, 1, 1, 19) == 0
  {
  }
}
