/** Sudoku boards as 9x9 grids of integers, the (block, cell-in-block)
    addressing that the tensor encoder uses, and the validity rules a
    puzzle/solution pair is expected to satisfy. */
module GridModel {

  /** A board as nested rows, like the 9x9 integer arrays the generator
      receives; 0 marks an empty puzzle cell. */
  type Grid = seq<seq<int>>

  predicate IsGrid(g: Grid) {
    |g| == 9 && forall r :: 0 <= r < 9 ==> |g[r]| == 9
  }

  predicate IsCell(r: int, c: int) {
    0 <= r < 9 && 0 <= c < 9
  }

  // ---------------------------------------------------------------------
  // Block addressing

  /** Index of the 3x3 block holding cell (row, col), blocks numbered
      left to right, top to bottom. */
  function Box(row: int, col: int): (b: int)
    requires IsCell(row, col)
    ensures 0 <= b < 9
    ensures b / 3 == row / 3 && b % 3 == col / 3
  {
    row / 3 * 3 + col / 3
  }

  /** Index of cell (row, col) inside its block, in reading order. */
  function RelCell(row: int, col: int): (k: int)
    requires IsCell(row, col)
    ensures 0 <= k < 9
    ensures k / 3 == row % 3 && k % 3 == col % 3
  {
    row % 3 * 3 + col % 3
  }

  /** The row of cell `k` of block `b`: the inverse of (Box, RelCell),
      first component. */
  function RowAt(b: int, k: int): (row: int)
    requires 0 <= b < 9 && 0 <= k < 9
    ensures 0 <= row < 9
    ensures row / 3 == b / 3 && row % 3 == k / 3
  {
    b / 3 * 3 + k / 3
  }

  /** The column of cell `k` of block `b`. */
  function ColAt(b: int, k: int): (col: int)
    requires 0 <= b < 9 && 0 <= k < 9
    ensures 0 <= col < 9
    ensures col / 3 == b % 3 && col % 3 == k % 3
  {
    b % 3 * 3 + k % 3
  }

  /** (row, col) |-> (Box, RelCell) is undone by (RowAt, ColAt). */
  lemma AddressRoundTrip(row: int, col: int)
    requires IsCell(row, col)
    ensures RowAt(Box(row, col), RelCell(row, col)) == row
    ensures ColAt(Box(row, col), RelCell(row, col)) == col
  {
  }

  /** AddressRoundTrip for every cell at once. */
  lemma AllAddressesRoundTrip()
    ensures forall row, col :: 0 <= row < 9 && 0 <= col < 9 ==>
      RowAt(Box(row, col), RelCell(row, col)) == row && ColAt(Box(row, col), RelCell(row, col)) == col
  {
    forall row, col | 0 <= row < 9 && 0 <= col < 9
      ensures RowAt(Box(row, col), RelCell(row, col)) == row && ColAt(Box(row, col), RelCell(row, col)) == col
    {
      AddressRoundTrip(row, col);
    }
  }

  /** (b, k) |-> (RowAt, ColAt) is undone by (Box, RelCell). */
  lemma AddressRoundTripInverse(b: int, k: int)
    requires 0 <= b < 9 && 0 <= k < 9
    ensures Box(RowAt(b, k), ColAt(b, k)) == b
    ensures RelCell(RowAt(b, k), ColAt(b, k)) == k
  {
  }

  /** The encoder's addressing is injective: two different cells never
      share a (block, cell-in-block) slot. Together with the two round
      trips this makes it a bijection of the 81 cells onto the 81 slots. */
  lemma AddressInjective(r1: int, c1: int, r2: int, c2: int)
    requires IsCell(r1, c1) && IsCell(r2, c2)
    requires Box(r1, c1) == Box(r2, c2) && RelCell(r1, c1) == RelCell(r2, c2)
    ensures r1 == r2 && c1 == c2
  {
    AddressRoundTrip(r1, c1);
    AddressRoundTrip(r2, c2);
  }

  // ---------------------------------------------------------------------
  // Validity rules

  /** Every cell holds a puzzle value: 0 (empty) or a digit 1..9. */
  predicate IsPuzzle(g: Grid) {
    IsGrid(g) && forall r, c :: 0 <= r < 9 && 0 <= c < 9 ==> 0 <= g[r][c] <= 9
  }

  /** Every cell holds a digit 1..9. */
  predicate IsFilled(g: Grid) {
    IsGrid(g) && forall r, c :: 0 <= r < 9 && 0 <= c < 9 ==> 1 <= g[r][c] <= 9
  }

  predicate RowsDistinct(g: Grid)
    requires IsGrid(g)
  {
    forall r, a, b :: 0 <= r < 9 && 0 <= a < 9 && 0 <= b < 9 && a != b ==> g[r][a] != g[r][b]
  }

  predicate ColumnsDistinct(g: Grid)
    requires IsGrid(g)
  {
    forall c, a, b :: 0 <= c < 9 && 0 <= a < 9 && 0 <= b < 9 && a != b ==> g[a][c] != g[b][c]
  }

  /** Cell `k` of block `b` of `g`. */
  function BlockCell(g: Grid, b: int, k: int): int
    requires IsGrid(g) && 0 <= b < 9 && 0 <= k < 9
  {
    g[RowAt(b, k)][ColAt(b, k)]
  }

  predicate BlocksDistinct(g: Grid)
    requires IsGrid(g)
  {
    forall b, x, y :: 0 <= b < 9 && 0 <= x < 9 && 0 <= y < 9 && x != y ==>
      BlockCell(g, b, x) != BlockCell(g, b, y)
  }

  /** A completed board: digits 1..9, no digit twice in any row, column
      or block. */
  predicate IsSolution(g: Grid) {
    IsFilled(g) && RowsDistinct(g) && ColumnsDistinct(g) && BlocksDistinct(g)
  }

  /** Every non-empty puzzle cell agrees with the solution. */
  predicate Consistent(p: Grid, s: Grid)
    requires IsGrid(p) && IsGrid(s)
  {
    forall r, c :: 0 <= r < 9 && 0 <= c < 9 ==> p[r][c] == 0 || p[r][c] == s[r][c]
  }

  /** A puzzle with a valid solution that it agrees with. */
  predicate IsPair(p: Grid, s: Grid) {
    IsPuzzle(p) && IsSolution(s) && Consistent(p, s)
  }

  /** Number of pairs zip(puzzles, solutions) yields: the shorter length. */
  function PairCount(puzzles: seq<Grid>, solutions: seq<Grid>): (m: nat)
    ensures m <= |puzzles| && m <= |solutions|
    ensures m == |puzzles| || m == |solutions|
  {
    if |puzzles| <= |solutions| then |puzzles| else |solutions|
  }

  /** Nine distinct digits 1..9: a permutation of 1..9. */
  predicate IsDigitPermutation(s: seq<int>) {
    |s| == 9 &&
    (forall k :: 0 <= k < 9 ==> 1 <= s[k] <= 9) &&
    (forall a, b :: 0 <= a < 9 && 0 <= b < 9 && a != b ==> s[a] != s[b])
  }

  /** Nine distinct digits cover every digit: a line of a valid board
      holds each of 1..9 exactly once. */
  lemma DigitPermutationCovers(s: seq<int>, d: int)
    requires IsDigitPermutation(s)
    requires 1 <= d <= 9
    ensures exists k :: 0 <= k < 9 && s[k] == d
  {
    var values := set k | 0 <= k < 9 :: s[k];
    var digits: set<int> := {1, 2, 3, 4, 5, 6, 7, 8, 9};
    InjectiveImageSize(s, 9);
    assert values <= digits;
    if d !in values {
      assert values <= digits - {d};
      assert |digits - {d}| == 8;
      SubsetSize(values, digits - {d});
      assert false;
    }
  }

  /** Index of the first occurrence of v in s, or |s| when v is absent. */
  function Position(s: seq<int>, v: int): (k: nat)
    ensures k <= |s|
    ensures k < |s| ==> s[k] == v
    ensures forall j :: 0 <= j < k ==> s[j] != v
  {
    if s == [] then 0
    else if s[0] == v then 0
    else 1 + Position(s[1..], v)
  }

  /** In a permutation of 1..9 every digit has a position. */
  lemma PermutationPositions(s: seq<int>)
    requires IsDigitPermutation(s)
    ensures forall d :: 1 <= d <= 9 ==> Position(s, d) < 9
  {
    forall d | 1 <= d <= 9 ensures Position(s, d) < 9 {
      DigitPermutationCovers(s, d);
    }
  }

  lemma {:induction false} SubsetSize<T>(a: set<T>, b: set<T>)
    requires a <= b
    ensures |a| <= |b|
    decreases b
  {
    if a != {} {
      var x :| x in a;
      SubsetSize(a - {x}, b - {x});
    }
  }

  /** The first n entries of a sequence without repeats take n values. */
  lemma {:induction false} InjectiveImageSize(s: seq<int>, n: nat)
    requires n <= |s|
    requires forall a, b :: 0 <= a < n && 0 <= b < n && a != b ==> s[a] != s[b]
    ensures |set k | 0 <= k < n :: s[k]| == n
  {
    if n > 0 {
      InjectiveImageSize(s, n - 1);
      var prev := set k | 0 <= k < n - 1 :: s[k];
      assert (set k | 0 <= k < n :: s[k]) == prev + {s[n - 1]};
      assert s[n - 1] !in prev;
    }
  }
}
