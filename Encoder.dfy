/** The tensor encoder: every puzzle/solution pair becomes one sample of
    two zero-initialised arrays, X of shape N x 9 x 9 x 10 and Y of shape
    N x 9 x 9 x 9, indexed by (sample, block, cell in block, value). A
    puzzle cell v sets X[i, block, cell, v] (0 for empty); a solution cell
    v sets Y[i, block, cell, v - 1]. */
module Encoder {
  import opened GridModel

  // ---------------------------------------------------------------------
  // One-hot vectors

  /** The vector of length `width` with a 1 at position v and 0
      elsewhere. */
  function OneHot(width: nat, v: int): (x: seq<int>)
    requires 0 <= v < width
    ensures |x| == width
  {
    seq(width, d => if d == v then 1 else 0)
  }

  /** Position of the first 1 in `x`, or |x| when there is none. */
  function IndexOfOne(x: seq<int>): (k: nat)
    ensures k <= |x|
    ensures k < |x| ==> x[k] == 1
    ensures forall d :: 0 <= d < k ==> x[d] != 1
  {
    if x == [] then 0
    else if x[0] == 1 then 0
    else 1 + IndexOfOne(x[1..])
  }

  /** A vector of zeros holds |x| zeros and no 1. */
  lemma {:induction false} ZerosCount(x: seq<int>)
    requires forall d :: 0 <= d < |x| ==> x[d] == 0
    ensures multiset(x)[0] == |x| && multiset(x)[1] == 0
  {
    if x != [] {
      ZerosCount(x[1..]);
      assert x == [x[0]] + x[1..];
    }
  }

  /** A one-hot vector has exactly one entry equal to 1 and every other
      entry equal to 0. */
  lemma OneHotExactlyOne(width: nat, v: int)
    requires 0 <= v < width
    ensures multiset(OneHot(width, v))[1] == 1
    ensures multiset(OneHot(width, v))[0] == width - 1
  {
    var x := OneHot(width, v);
    ZerosCount(x[..v]);
    ZerosCount(x[v + 1..]);
    assert x == x[..v] + [1] + x[v + 1..];
  }

  /** The position of the 1 gives the encoded value back. */
  lemma OneHotDecodes(width: nat, v: int)
    requires 0 <= v < width
    ensures IndexOfOne(OneHot(width, v)) == v
  {
    var x := OneHot(width, v);
    assert x[v] == 1;
  }

  // ---------------------------------------------------------------------
  // One sample as nested sequences

  /** X[i] for puzzle p: block b, cell k holds the one-hot vector of the
      puzzle value there over {empty, 1, ..., 9}. Read through the
      encoder's addressing, the vector of cell (r, c) sits at
      (Box(r, c), RelCell(r, c)) and has its 1 at the cell's value. */
  function EncodePuzzle(p: Grid): (x: seq<seq<seq<int>>>)
    requires IsPuzzle(p)
    ensures |x| == 9 && forall b :: 0 <= b < 9 ==> |x[b]| == 9
    ensures forall r, c :: 0 <= r < 9 && 0 <= c < 9 ==> |x[Box(r, c)][RelCell(r, c)]| == 10
    ensures forall r, c, d :: 0 <= r < 9 && 0 <= c < 9 && 0 <= d < 10 ==>
      x[Box(r, c)][RelCell(r, c)][d] == if d == p[r][c] then 1 else 0
  {
    AllAddressesRoundTrip();
    seq(9, b requires 0 <= b < 9 =>
      seq(9, k requires 0 <= k < 9 => OneHot(10, BlockCell(p, b, k))))
  }

  /** The element a Python subscript i selects in a sequence of length n:
      negative subscripts count from the end. */
  function PyIndex(i: int, n: nat): (d: int)
    requires 0 <= i + n && i < n
    ensures 0 <= d < n
    ensures d % n == i % n
  {
    if i < 0 then i + n else i
  }

  /** Y[i] for solution s: block b, cell k holds the one-hot vector of the
      digit there over {1, ..., 9}, at subscript digit - 1. An empty cell
      (0) gives subscript -1, which Python resolves to the last slot. */
  function EncodeSolution(s: Grid): (y: seq<seq<seq<int>>>)
    requires IsPuzzle(s)
    ensures |y| == 9 && forall b :: 0 <= b < 9 ==> |y[b]| == 9
    ensures forall r, c :: 0 <= r < 9 && 0 <= c < 9 ==> |y[Box(r, c)][RelCell(r, c)]| == 9
    ensures forall r, c, d :: 0 <= r < 9 && 0 <= c < 9 && 0 <= d < 9 ==>
      y[Box(r, c)][RelCell(r, c)][d] == if d == PyIndex(s[r][c] - 1, 9) then 1 else 0
  {
    AllAddressesRoundTrip();
    seq(9, b requires 0 <= b < 9 =>
      seq(9, k requires 0 <= k < 9 => OneHot(9, PyIndex(BlockCell(s, b, k) - 1, 9))))
  }

  predicate IsBlockTensor(x: seq<seq<seq<int>>>) {
    |x| == 9 && forall b :: 0 <= b < 9 ==> |x[b]| == 9
  }

  /** Reads a puzzle back from its tensor: cell (r, c) is the position of
      the 1 in the vector at (Box(r, c), RelCell(r, c)). */
  function DecodePuzzle(x: seq<seq<seq<int>>>): (p: Grid)
    requires IsBlockTensor(x)
    ensures IsGrid(p)
  {
    seq(9, r requires 0 <= r < 9 =>
      seq(9, c requires 0 <= c < 9 => IndexOfOne(x[Box(r, c)][RelCell(r, c)])))
  }

  /** Reads a solution back: the digit is one more than the position of
      the 1. */
  function DecodeSolution(y: seq<seq<seq<int>>>): (s: Grid)
    requires IsBlockTensor(y)
    ensures IsGrid(s)
  {
    seq(9, r requires 0 <= r < 9 =>
      seq(9, c requires 0 <= c < 9 => IndexOfOne(y[Box(r, c)][RelCell(r, c)]) + 1))
  }

  /** The puzzle encoding is lossless. */
  lemma PuzzleRoundTrip(p: Grid)
    requires IsPuzzle(p)
    ensures DecodePuzzle(EncodePuzzle(p)) == p
  {
    var q := DecodePuzzle(EncodePuzzle(p));
    forall r | 0 <= r < 9 ensures q[r] == p[r] {
      forall c | 0 <= c < 9 ensures q[r][c] == p[r][c] {
        AddressRoundTrip(r, c);
        OneHotDecodes(10, p[r][c]);
      }
    }
  }

  /** The solution encoding is lossless. */
  lemma SolutionRoundTrip(s: Grid)
    requires IsFilled(s)
    ensures DecodeSolution(EncodeSolution(s)) == s
  {
    var t := DecodeSolution(EncodeSolution(s));
    forall r | 0 <= r < 9 ensures t[r] == s[r] {
      forall c | 0 <= c < 9 ensures t[r][c] == s[r][c] {
        AddressRoundTrip(r, c);
        OneHotDecodes(9, s[r][c] - 1);
        assert PyIndex(s[r][c] - 1, 9) == s[r][c] - 1;
      }
    }
  }

  /** An empty solution cell is encoded exactly like a 9: the encoder does
      not tell the two apart. */
  lemma EmptySolutionCellReadsAsNine(s: Grid, r: int, c: int)
    requires IsPuzzle(s) && IsCell(r, c) && s[r][c] == 0
    ensures DecodeSolution(EncodeSolution(s))[r][c] == 9
  {
    AddressRoundTrip(r, c);
    assert BlockCell(s, Box(r, c), RelCell(r, c)) == 0;
    assert EncodeSolution(s)[Box(r, c)][RelCell(r, c)] == OneHot(9, 8);
    OneHotDecodes(9, 8);
  }

  /** Every vector of an encoded sample has exactly one 1, the rest 0:
      ten entries in X, nine in Y. */
  lemma EncodingIsOneHot(p: Grid, s: Grid, b: int, k: int)
    requires IsPuzzle(p) && IsPuzzle(s) && 0 <= b < 9 && 0 <= k < 9
    ensures |EncodePuzzle(p)[b][k]| == 10 && |EncodeSolution(s)[b][k]| == 9
    ensures multiset(EncodePuzzle(p)[b][k])[1] == 1 && multiset(EncodePuzzle(p)[b][k])[0] == 9
    ensures multiset(EncodeSolution(s)[b][k])[1] == 1 && multiset(EncodeSolution(s)[b][k])[0] == 8
  {
    OneHotExactlyOne(10, BlockCell(p, b, k));
    OneHotExactlyOne(9, PyIndex(BlockCell(s, b, k) - 1, 9));
  }

  // ---------------------------------------------------------------------
  // The arrays

  /** Cell (r', c') comes before (row, col) in the row-major walk. */
  predicate Visited(r': int, c': int, row: int, col: int) {
    r' < row || (r' == row && c' < col)
  }

  /** What the walk has written into X once it reaches (row, col): entry
      d of the vector at (b, k) is 1 exactly when that cell has been
      visited and holds d. */
  function WrittenX(p: Grid, b: int, k: int, d: int, row: int, col: int): int
    requires IsGrid(p) && 0 <= b < 9 && 0 <= k < 9
  {
    if Visited(RowAt(b, k), ColAt(b, k), row, col) && BlockCell(p, b, k) == d then 1 else 0
  }

  /** The same for Y, where a cell holding v selects subscript v - 1. */
  function WrittenY(s: Grid, b: int, k: int, d: int, row: int, col: int): int
    requires IsPuzzle(s) && 0 <= b < 9 && 0 <= k < 9
  {
    if Visited(RowAt(b, k), ColAt(b, k), row, col) && PyIndex(BlockCell(s, b, k) - 1, 9) == d then 1 else 0
  }

  /** One step of the walk visits exactly the slot of (row, col). */
  lemma VisitStep(row: int, col: int)
    requires IsCell(row, col)
    ensures forall b, k :: 0 <= b < 9 && 0 <= k < 9 ==>
      (Visited(RowAt(b, k), ColAt(b, k), row, col + 1) <==>
       Visited(RowAt(b, k), ColAt(b, k), row, col) || (b == Box(row, col) && k == RelCell(row, col)))
  {
    forall b, k | 0 <= b < 9 && 0 <= k < 9
      ensures Visited(RowAt(b, k), ColAt(b, k), row, col + 1) <==>
        Visited(RowAt(b, k), ColAt(b, k), row, col) || (b == Box(row, col) && k == RelCell(row, col))
    {
      AddressRoundTripInverse(b, k);
      AddressRoundTrip(row, col);
    }
  }

  /** The finished walk has written exactly the encoding. */
  lemma WalkComplete(p: Grid, s: Grid, b: int, k: int)
    requires IsPuzzle(p) && IsPuzzle(s) && 0 <= b < 9 && 0 <= k < 9
    ensures forall d :: 0 <= d < 10 ==> WrittenX(p, b, k, d, 9, 0) == EncodePuzzle(p)[b][k][d]
    ensures forall d :: 0 <= d < 9 ==> WrittenY(s, b, k, d, 9, 0) == EncodeSolution(s)[b][k][d]
  {
    assert Visited(RowAt(b, k), ColAt(b, k), 9, 0);
    assert EncodePuzzle(p)[b][k] == OneHot(10, BlockCell(p, b, k));
    assert EncodeSolution(s)[b][k] == OneHot(9, PyIndex(BlockCell(s, b, k) - 1, 9));
  }

  /** Converts every zipped puzzle/solution pair into one sample of X and
      Y. Both arrays have one sample per puzzle; when there are fewer
      solutions than puzzles the samples past the last pair stay zero. */
  method FormatPuzzles(puzzles: seq<Grid>, solutions: seq<Grid>) returns (X: array4<int>, Y: array4<int>)
    requires forall i :: 0 <= i < PairCount(puzzles, solutions) ==>
      IsPuzzle(puzzles[i]) && IsPuzzle(solutions[i])
    ensures fresh(X) && fresh(Y)
    ensures X.Length0 == |puzzles| && X.Length1 == 9 && X.Length2 == 9 && X.Length3 == 10
    ensures Y.Length0 == |puzzles| && Y.Length1 == 9 && Y.Length2 == 9 && Y.Length3 == 9
    ensures forall i, b, k, d :: 0 <= i < PairCount(puzzles, solutions) && 0 <= b < 9 && 0 <= k < 9 && 0 <= d < 10 ==>
      X[i, b, k, d] == EncodePuzzle(puzzles[i])[b][k][d]
    ensures forall i, b, k, d :: 0 <= i < PairCount(puzzles, solutions) && 0 <= b < 9 && 0 <= k < 9 && 0 <= d < 9 ==>
      Y[i, b, k, d] == EncodeSolution(solutions[i])[b][k][d]
    ensures forall i, b, k, d :: PairCount(puzzles, solutions) <= i < |puzzles| && 0 <= b < 9 && 0 <= k < 9 && 0 <= d < 10 ==>
      X[i, b, k, d] == 0
    ensures forall i, b, k, d :: PairCount(puzzles, solutions) <= i < |puzzles| && 0 <= b < 9 && 0 <= k < 9 && 0 <= d < 9 ==>
      Y[i, b, k, d] == 0
  {
    X := new int[|puzzles|, 9, 9, 10]((_, _, _, _) => 0);
    Y := new int[|puzzles|, 9, 9, 9]((_, _, _, _) => 0);
    var n := PairCount(puzzles, solutions);
    for i := 0 to n
      invariant forall j, b, k, d :: 0 <= j < i && 0 <= b < 9 && 0 <= k < 9 && 0 <= d < 10 ==>
        X[j, b, k, d] == EncodePuzzle(puzzles[j])[b][k][d]
      invariant forall j, b, k, d :: 0 <= j < i && 0 <= b < 9 && 0 <= k < 9 && 0 <= d < 9 ==>
        Y[j, b, k, d] == EncodeSolution(solutions[j])[b][k][d]
      invariant forall j, b, k, d :: i <= j < |puzzles| && 0 <= b < 9 && 0 <= k < 9 && 0 <= d < 10 ==>
        X[j, b, k, d] == 0
      invariant forall j, b, k, d :: i <= j < |puzzles| && 0 <= b < 9 && 0 <= k < 9 && 0 <= d < 9 ==>
        Y[j, b, k, d] == 0
    {
      EncodeSample(X, Y, i, puzzles[i], solutions[i]);
    }
  }

  /** The body of the enumerate loop for sample i: walks the 81 cells in
      row-major order and writes the 1 of each cell's two vectors into
      rows that were all zero. Only X[i] and Y[i] change. */
  method EncodeSample(X: array4<int>, Y: array4<int>, i: int, puzzle: Grid, solution: Grid)
    requires IsPuzzle(puzzle) && IsPuzzle(solution)
    requires 0 <= i < X.Length0 && X.Length1 == 9 && X.Length2 == 9 && X.Length3 == 10
    requires 0 <= i < Y.Length0 && Y.Length1 == 9 && Y.Length2 == 9 && Y.Length3 == 9
    requires forall b, k, d :: 0 <= b < 9 && 0 <= k < 9 && 0 <= d < 10 ==> X[i, b, k, d] == 0
    requires forall b, k, d :: 0 <= b < 9 && 0 <= k < 9 && 0 <= d < 9 ==> Y[i, b, k, d] == 0
    modifies X, Y
    ensures forall b, k, d :: 0 <= b < 9 && 0 <= k < 9 && 0 <= d < 10 ==>
      X[i, b, k, d] == EncodePuzzle(puzzle)[b][k][d]
    ensures forall b, k, d :: 0 <= b < 9 && 0 <= k < 9 && 0 <= d < 9 ==>
      Y[i, b, k, d] == EncodeSolution(solution)[b][k][d]
    ensures forall j, b, k, d :: 0 <= j < X.Length0 && j != i && 0 <= b < 9 && 0 <= k < 9 && 0 <= d < 10 ==>
      X[j, b, k, d] == old(X[j, b, k, d])
    ensures forall j, b, k, d :: 0 <= j < Y.Length0 && j != i && 0 <= b < 9 && 0 <= k < 9 && 0 <= d < 9 ==>
      Y[j, b, k, d] == old(Y[j, b, k, d])
  {
    for row := 0 to 9
      invariant forall b, k, d :: 0 <= b < 9 && 0 <= k < 9 && 0 <= d < 10 ==>
        X[i, b, k, d] == WrittenX(puzzle, b, k, d, row, 0)
      invariant forall b, k, d :: 0 <= b < 9 && 0 <= k < 9 && 0 <= d < 9 ==>
        Y[i, b, k, d] == WrittenY(solution, b, k, d, row, 0)
      invariant forall j, b, k, d :: 0 <= j < X.Length0 && j != i && 0 <= b < 9 && 0 <= k < 9 && 0 <= d < 10 ==>
        X[j, b, k, d] == old(X[j, b, k, d])
      invariant forall j, b, k, d :: 0 <= j < Y.Length0 && j != i && 0 <= b < 9 && 0 <= k < 9 && 0 <= d < 9 ==>
        Y[j, b, k, d] == old(Y[j, b, k, d])
    {
      EncodeRow(X, Y, i, puzzle, solution, row);
    }
    forall b, k | 0 <= b < 9 && 0 <= k < 9 {
      WalkComplete(puzzle, solution, b, k);
    }
  }

  /** The inner loop: the nine cells of one row. */
  method EncodeRow(X: array4<int>, Y: array4<int>, i: int, puzzle: Grid, solution: Grid, row: int)
    requires IsPuzzle(puzzle) && IsPuzzle(solution) && 0 <= row < 9
    requires 0 <= i < X.Length0 && X.Length1 == 9 && X.Length2 == 9 && X.Length3 == 10
    requires 0 <= i < Y.Length0 && Y.Length1 == 9 && Y.Length2 == 9 && Y.Length3 == 9
    requires forall b, k, d :: 0 <= b < 9 && 0 <= k < 9 && 0 <= d < 10 ==>
      X[i, b, k, d] == WrittenX(puzzle, b, k, d, row, 0)
    requires forall b, k, d :: 0 <= b < 9 && 0 <= k < 9 && 0 <= d < 9 ==>
      Y[i, b, k, d] == WrittenY(solution, b, k, d, row, 0)
    modifies X, Y
    ensures forall b, k, d :: 0 <= b < 9 && 0 <= k < 9 && 0 <= d < 10 ==>
      X[i, b, k, d] == WrittenX(puzzle, b, k, d, row + 1, 0)
    ensures forall b, k, d :: 0 <= b < 9 && 0 <= k < 9 && 0 <= d < 9 ==>
      Y[i, b, k, d] == WrittenY(solution, b, k, d, row + 1, 0)
    ensures forall j, b, k, d :: 0 <= j < X.Length0 && j != i && 0 <= b < 9 && 0 <= k < 9 && 0 <= d < 10 ==>
      X[j, b, k, d] == old(X[j, b, k, d])
    ensures forall j, b, k, d :: 0 <= j < Y.Length0 && j != i && 0 <= b < 9 && 0 <= k < 9 && 0 <= d < 9 ==>
      Y[j, b, k, d] == old(Y[j, b, k, d])
  {
    for col := 0 to 9
      invariant forall b, k, d :: 0 <= b < 9 && 0 <= k < 9 && 0 <= d < 10 ==>
        X[i, b, k, d] == WrittenX(puzzle, b, k, d, row, col)
      invariant forall b, k, d :: 0 <= b < 9 && 0 <= k < 9 && 0 <= d < 9 ==>
        Y[i, b, k, d] == WrittenY(solution, b, k, d, row, col)
      invariant forall j, b, k, d :: 0 <= j < X.Length0 && j != i && 0 <= b < 9 && 0 <= k < 9 && 0 <= d < 10 ==>
        X[j, b, k, d] == old(X[j, b, k, d])
      invariant forall j, b, k, d :: 0 <= j < Y.Length0 && j != i && 0 <= b < 9 && 0 <= k < 9 && 0 <= d < 9 ==>
        Y[j, b, k, d] == old(Y[j, b, k, d])
    {
      var box := row / 3 * 3 + col / 3;
      var relRow := row % 3;
      var relCol := col % 3;
      var relCell := relRow * 3 + relCol;
      assert box == Box(row, col) && relCell == RelCell(row, col);
      AddressRoundTrip(row, col);
      VisitStep(row, col);
      X[i, box, relCell, puzzle[row][col]] := 1;
      Y[i, box, relCell, PyIndex(solution[row][col] - 1, 9)] := 1;
    }
  }
}
