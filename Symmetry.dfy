/** The six Sudoku symmetries that the augmentation applies: digit
    relabelling, row and column reorderings inside bands and stacks,
    band and stack reorderings, and transposition.

    The generator imports them from a library whose source is not part of
    this model, so they are defined here from their standard meaning, with
    every random choice an explicit parameter. Assumed encodings:
    - a digit permutation `perm` (1..9 shuffled) relabels digit v as
      perm[v-1] and leaves 0 (empty) alone;
    - a selector in 0..5 indexes the six orderings of three items listed in
      `Orderings`; line k of a group of three in the result is line
      Orderings[s][k] of that group in the input.

    Each transform is first defined on one grid, then on a stack of grids
    (the puzzle and its solution concatenated along a new first axis),
    which it transforms layer by layer, so both grids undergo the same
    transform. */
module Symmetry {
  import opened GridModel

  // ---------------------------------------------------------------------
  // Selectors and the index maps they induce

  /** The six orderings of {0, 1, 2}, in lexicographic order. */
  const Orderings: seq<seq<int>> :=
    [[0, 1, 2], [0, 2, 1], [1, 0, 2], [1, 2, 0], [2, 0, 1], [2, 1, 0]]

  predicate IsSelector(s: int) {
    0 <= s < 6
  }

  /** One selector per band (or per stack), as drawn by randint(0, 6, 3). */
  predicate IsSelectors(sel: seq<int>) {
    |sel| == 3 && forall k :: 0 <= k < 3 ==> IsSelector(sel[k])
  }

  function Order(s: int, k: int): (o: int)
    requires IsSelector(s) && 0 <= k < 3
    ensures 0 <= o < 3
  {
    Orderings[s][k]
  }

  /** Every ordering is a permutation of {0, 1, 2}. */
  lemma OrderInjective(s: int, a: int, b: int)
    requires IsSelector(s) && 0 <= a < 3 && 0 <= b < 3
    requires Order(s, a) == Order(s, b)
    ensures a == b
  {
  }

  /** Source line of line i when the three groups of lines are reordered
      as whole units (band or stack swap). */
  function GroupSource(s: int, i: int): (j: int)
    requires IsSelector(s) && 0 <= i < 9
    ensures 0 <= j < 9 && j / 3 == Order(s, i / 3) && j % 3 == i % 3
  {
    Order(s, i / 3) * 3 + i % 3
  }

  /** Source line of line i when the three lines inside every group are
      reordered by the same selector. */
  function MemberSource(s: int, i: int): (j: int)
    requires IsSelector(s) && 0 <= i < 9
    ensures 0 <= j < 9 && j / 3 == i / 3 && j % 3 == Order(s, i % 3)
  {
    i / 3 * 3 + Order(s, i % 3)
  }

  /** Source line of line i when group g is reordered by its own selector
      sel[g] (row swap within bands, column swap within stacks). */
  function LineSource(sel: seq<int>, i: int): (j: int)
    requires IsSelectors(sel) && 0 <= i < 9
    ensures 0 <= j < 9 && j / 3 == i / 3
  {
    MemberSource(sel[i / 3], i)
  }

  /** Source of line i under transposition of the 3x3 arrangement of
      blocks (or of the cells inside a block). */
  function Flip(i: int): (j: int)
    requires 0 <= i < 9
    ensures 0 <= j < 9 && j / 3 == i % 3 && j % 3 == i / 3
  {
    i % 3 * 3 + i / 3
  }

  lemma GroupSourceInjective(s: int, a: int, b: int)
    requires IsSelector(s) && 0 <= a < 9 && 0 <= b < 9
    requires GroupSource(s, a) == GroupSource(s, b)
    ensures a == b
  {
    OrderInjective(s, a / 3, b / 3);
  }

  lemma MemberSourceInjective(s: int, a: int, b: int)
    requires IsSelector(s) && 0 <= a < 9 && 0 <= b < 9
    requires MemberSource(s, a) == MemberSource(s, b)
    ensures a == b
  {
    OrderInjective(s, a % 3, b % 3);
  }

  lemma LineSourceInjective(sel: seq<int>, a: int, b: int)
    requires IsSelectors(sel) && 0 <= a < 9 && 0 <= b < 9
    requires LineSource(sel, a) == LineSource(sel, b)
    ensures a == b
  {
    MemberSourceInjective(sel[a / 3], a, b);
  }

  // ---------------------------------------------------------------------
  // The transforms on one grid

  /** Digit v under the relabelling `perm`; 0 (empty) is kept. */
  function Relabel(perm: seq<int>, v: int): int
    requires |perm| == 9 && 0 <= v <= 9
  {
    if v == 0 then 0 else perm[v - 1]
  }

  function NumberSwapGrid(g: Grid, perm: seq<int>): (h: Grid)
    requires IsPuzzle(g) && IsDigitPermutation(perm)
    ensures IsPuzzle(h)
    ensures IsFilled(g) ==> IsFilled(h)
  {
    seq(9, r requires 0 <= r < 9 =>
      seq(9, c requires 0 <= c < 9 => Relabel(perm, g[r][c])))
  }

  function RowSwapGrid(g: Grid, sel: seq<int>): (h: Grid)
    requires IsGrid(g) && IsSelectors(sel)
    ensures IsGrid(h)
    ensures IsPuzzle(g) ==> IsPuzzle(h)
    ensures IsFilled(g) ==> IsFilled(h)
  {
    seq(9, r requires 0 <= r < 9 => g[LineSource(sel, r)])
  }

  function ColumnSwapGrid(g: Grid, sel: seq<int>): (h: Grid)
    requires IsGrid(g) && IsSelectors(sel)
    ensures IsGrid(h)
    ensures IsPuzzle(g) ==> IsPuzzle(h)
    ensures IsFilled(g) ==> IsFilled(h)
  {
    seq(9, r requires 0 <= r < 9 =>
      seq(9, c requires 0 <= c < 9 => g[r][LineSource(sel, c)]))
  }

  function BoxRowSwapGrid(g: Grid, s: int): (h: Grid)
    requires IsGrid(g) && IsSelector(s)
    ensures IsGrid(h)
    ensures IsPuzzle(g) ==> IsPuzzle(h)
    ensures IsFilled(g) ==> IsFilled(h)
  {
    seq(9, r requires 0 <= r < 9 => g[GroupSource(s, r)])
  }

  function BoxColumnSwapGrid(g: Grid, s: int): (h: Grid)
    requires IsGrid(g) && IsSelector(s)
    ensures IsGrid(h)
    ensures IsPuzzle(g) ==> IsPuzzle(h)
    ensures IsFilled(g) ==> IsFilled(h)
  {
    seq(9, r requires 0 <= r < 9 =>
      seq(9, c requires 0 <= c < 9 => g[r][GroupSource(s, c)]))
  }

  function TransposeGrid(g: Grid): (h: Grid)
    requires IsGrid(g)
    ensures IsGrid(h)
    ensures IsPuzzle(g) ==> IsPuzzle(h)
    ensures IsFilled(g) ==> IsFilled(h)
  {
    seq(9, r requires 0 <= r < 9 =>
      seq(9, c requires 0 <= c < 9 => g[c][r]))
  }

  // ---------------------------------------------------------------------
  // Each transform maps valid solutions to valid solutions

  lemma NumberSwapPreservesSolution(g: Grid, perm: seq<int>)
    requires IsSolution(g) && IsDigitPermutation(perm)
    ensures IsSolution(NumberSwapGrid(g, perm))
  {
    var h := NumberSwapGrid(g, perm);
    forall b, x, y | 0 <= b < 9 && 0 <= x < 9 && 0 <= y < 9 && x != y
      ensures BlockCell(h, b, x) != BlockCell(h, b, y)
    {
      assert BlockCell(h, b, x) == perm[BlockCell(g, b, x) - 1];
      assert BlockCell(h, b, y) == perm[BlockCell(g, b, y) - 1];
    }
  }

  lemma RowSwapPreservesSolution(g: Grid, sel: seq<int>)
    requires IsSolution(g) && IsSelectors(sel)
    ensures IsSolution(RowSwapGrid(g, sel))
  {
    var h := RowSwapGrid(g, sel);
    forall c, a, b | 0 <= c < 9 && 0 <= a < 9 && 0 <= b < 9 && a != b
      ensures h[a][c] != h[b][c]
    {
      if LineSource(sel, a) == LineSource(sel, b) {
        LineSourceInjective(sel, a, b);
      }
    }
    forall x, a, b | 0 <= x < 9 && 0 <= a < 9 && 0 <= b < 9 && a != b
      ensures BlockCell(h, x, a) != BlockCell(h, x, b)
    {
      var s := sel[x / 3];
      assert BlockCell(h, x, a) == BlockCell(g, x, GroupSource(s, a));
      assert BlockCell(h, x, b) == BlockCell(g, x, GroupSource(s, b));
      if GroupSource(s, a) == GroupSource(s, b) {
        GroupSourceInjective(s, a, b);
      }
    }
  }

  lemma ColumnSwapPreservesSolution(g: Grid, sel: seq<int>)
    requires IsSolution(g) && IsSelectors(sel)
    ensures IsSolution(ColumnSwapGrid(g, sel))
  {
    var h := ColumnSwapGrid(g, sel);
    forall r, a, b | 0 <= r < 9 && 0 <= a < 9 && 0 <= b < 9 && a != b
      ensures h[r][a] != h[r][b]
    {
      if LineSource(sel, a) == LineSource(sel, b) {
        LineSourceInjective(sel, a, b);
      }
    }
    forall x, a, b | 0 <= x < 9 && 0 <= a < 9 && 0 <= b < 9 && a != b
      ensures BlockCell(h, x, a) != BlockCell(h, x, b)
    {
      var s := sel[x % 3];
      assert BlockCell(h, x, a) == BlockCell(g, x, MemberSource(s, a));
      assert BlockCell(h, x, b) == BlockCell(g, x, MemberSource(s, b));
      if MemberSource(s, a) == MemberSource(s, b) {
        MemberSourceInjective(s, a, b);
      }
    }
  }

  lemma BoxRowSwapPreservesSolution(g: Grid, s: int)
    requires IsSolution(g) && IsSelector(s)
    ensures IsSolution(BoxRowSwapGrid(g, s))
  {
    var h := BoxRowSwapGrid(g, s);
    forall c, a, b | 0 <= c < 9 && 0 <= a < 9 && 0 <= b < 9 && a != b
      ensures h[a][c] != h[b][c]
    {
      if GroupSource(s, a) == GroupSource(s, b) {
        GroupSourceInjective(s, a, b);
      }
    }
    forall x, a, b | 0 <= x < 9 && 0 <= a < 9 && 0 <= b < 9 && a != b
      ensures BlockCell(h, x, a) != BlockCell(h, x, b)
    {
      assert BlockCell(h, x, a) == BlockCell(g, GroupSource(s, x), a);
      assert BlockCell(h, x, b) == BlockCell(g, GroupSource(s, x), b);
    }
  }

  lemma BoxColumnSwapPreservesSolution(g: Grid, s: int)
    requires IsSolution(g) && IsSelector(s)
    ensures IsSolution(BoxColumnSwapGrid(g, s))
  {
    var h := BoxColumnSwapGrid(g, s);
    forall r, a, b | 0 <= r < 9 && 0 <= a < 9 && 0 <= b < 9 && a != b
      ensures h[r][a] != h[r][b]
    {
      if GroupSource(s, a) == GroupSource(s, b) {
        GroupSourceInjective(s, a, b);
      }
    }
    forall x, a, b | 0 <= x < 9 && 0 <= a < 9 && 0 <= b < 9 && a != b
      ensures BlockCell(h, x, a) != BlockCell(h, x, b)
    {
      assert BlockCell(h, x, a) == BlockCell(g, MemberSource(s, x), a);
      assert BlockCell(h, x, b) == BlockCell(g, MemberSource(s, x), b);
    }
  }

  lemma TransposePreservesSolution(g: Grid)
    requires IsSolution(g)
    ensures IsSolution(TransposeGrid(g))
  {
    var h := TransposeGrid(g);
    forall x, a, b | 0 <= x < 9 && 0 <= a < 9 && 0 <= b < 9 && a != b
      ensures BlockCell(h, x, a) != BlockCell(h, x, b)
    {
      assert BlockCell(h, x, a) == BlockCell(g, Flip(x), Flip(a));
      assert BlockCell(h, x, b) == BlockCell(g, Flip(x), Flip(b));
    }
  }

  /** Transposing twice gives the grid back. */
  lemma TransposeInvolution(g: Grid)
    requires IsGrid(g)
    ensures TransposeGrid(TransposeGrid(g)) == g
  {
    var h := TransposeGrid(TransposeGrid(g));
    forall r | 0 <= r < 9 ensures h[r] == g[r] {
      assert forall c :: 0 <= c < 9 ==> h[r][c] == g[r][c];
    }
  }

  // ---------------------------------------------------------------------
  // Each transform can be undone

  /** The selector of the ordering that undoes ordering s. */
  function InverseSelector(s: int): (t: int)
    requires IsSelector(s)
    ensures IsSelector(t)
    ensures forall k :: 0 <= k < 3 ==> Order(s, Order(t, k)) == k
  {
    [0, 1, 2, 4, 3, 5][s]
  }

  /** One inverse selector per band (or stack). */
  function InverseSelectors(sel: seq<int>): (inv: seq<int>)
    requires IsSelectors(sel)
    ensures IsSelectors(inv)
    ensures forall g :: 0 <= g < 3 ==> inv[g] == InverseSelector(sel[g])
  {
    [InverseSelector(sel[0]), InverseSelector(sel[1]), InverseSelector(sel[2])]
  }

  /** Two digit permutations that undo each other. */
  predicate AreInverse(perm: seq<int>, inv: seq<int>)
    requires IsDigitPermutation(perm) && IsDigitPermutation(inv)
  {
    forall k :: 0 <= k < 9 ==> inv[perm[k] - 1] == k + 1
  }

  /** Every digit permutation has an inverse: digit d goes back to the
      position where perm holds d, plus one. */
  function InversePerm(perm: seq<int>): (inv: seq<int>)
    requires IsDigitPermutation(perm)
    ensures IsDigitPermutation(inv)
    ensures AreInverse(perm, inv) && AreInverse(inv, perm)
  {
    InverseTableIsPermutation(perm);
    InverseTableUndoes(perm);
    InverseTable(perm)
  }

  function InverseTable(perm: seq<int>): (inv: seq<int>)
    ensures |inv| == 9
  {
    seq(9, d => Position(perm, d + 1) + 1)
  }

  lemma InverseTableIsPermutation(perm: seq<int>)
    requires IsDigitPermutation(perm)
    ensures IsDigitPermutation(InverseTable(perm))
  {
    var inv := InverseTable(perm);
    PermutationPositions(perm);
    forall a, b | 0 <= a < 9 && 0 <= b < 9 && a != b ensures inv[a] != inv[b] {
      assert perm[inv[a] - 1] == a + 1;
      assert perm[inv[b] - 1] == b + 1;
    }
  }

  lemma InverseTableUndoes(perm: seq<int>)
    requires IsDigitPermutation(perm)
    requires IsDigitPermutation(InverseTable(perm))
    ensures AreInverse(perm, InverseTable(perm)) && AreInverse(InverseTable(perm), perm)
  {
    var inv := InverseTable(perm);
    PermutationPositions(perm);
    forall k | 0 <= k < 9 ensures inv[perm[k] - 1] == k + 1 {
      assert Position(perm, perm[k]) <= k;
    }
    forall d | 0 <= d < 9 ensures perm[inv[d] - 1] == d + 1 {
      assert Position(perm, d + 1) < 9;
    }
  }

  /** Relabelling by perm and then by its inverse gives the grid back, so
      every relabelling is a bijection on boards. */
  lemma NumberSwapInverse(g: Grid, perm: seq<int>)
    requires IsPuzzle(g) && IsDigitPermutation(perm)
    ensures NumberSwapGrid(NumberSwapGrid(g, perm), InversePerm(perm)) == g
  {
    var inv := InversePerm(perm);
    var h := NumberSwapGrid(NumberSwapGrid(g, perm), inv);
    forall r | 0 <= r < 9 ensures h[r] == g[r] {
      assert forall c :: 0 <= c < 9 ==> h[r][c] == g[r][c];
    }
  }

  /** Reordering rows within bands is undone by the inverse selectors. */
  lemma RowSwapInverse(g: Grid, sel: seq<int>)
    requires IsGrid(g) && IsSelectors(sel)
    ensures RowSwapGrid(RowSwapGrid(g, sel), InverseSelectors(sel)) == g
  {
    var inv := InverseSelectors(sel);
    var h := RowSwapGrid(RowSwapGrid(g, sel), inv);
    forall r | 0 <= r < 9 ensures h[r] == g[r] {
      assert LineSource(sel, LineSource(inv, r)) == r;
    }
  }

  /** Reordering columns within stacks is undone by the inverse
      selectors. */
  lemma ColumnSwapInverse(g: Grid, sel: seq<int>)
    requires IsGrid(g) && IsSelectors(sel)
    ensures ColumnSwapGrid(ColumnSwapGrid(g, sel), InverseSelectors(sel)) == g
  {
    var inv := InverseSelectors(sel);
    var h := ColumnSwapGrid(ColumnSwapGrid(g, sel), inv);
    forall r | 0 <= r < 9 ensures h[r] == g[r] {
      forall c | 0 <= c < 9 ensures h[r][c] == g[r][c] {
        assert LineSource(sel, LineSource(inv, c)) == c;
      }
    }
  }

  /** Reordering the bands is undone by the inverse selector. */
  lemma BoxRowSwapInverse(g: Grid, s: int)
    requires IsGrid(g) && IsSelector(s)
    ensures BoxRowSwapGrid(BoxRowSwapGrid(g, s), InverseSelector(s)) == g
  {
    var h := BoxRowSwapGrid(BoxRowSwapGrid(g, s), InverseSelector(s));
    forall r | 0 <= r < 9 ensures h[r] == g[r] {
      assert GroupSource(s, GroupSource(InverseSelector(s), r)) == r;
    }
  }

  /** Reordering the stacks is undone by the inverse selector. */
  lemma BoxColumnSwapInverse(g: Grid, s: int)
    requires IsGrid(g) && IsSelector(s)
    ensures BoxColumnSwapGrid(BoxColumnSwapGrid(g, s), InverseSelector(s)) == g
  {
    var h := BoxColumnSwapGrid(BoxColumnSwapGrid(g, s), InverseSelector(s));
    forall r | 0 <= r < 9 ensures h[r] == g[r] {
      forall c | 0 <= c < 9 ensures h[r][c] == g[r][c] {
        assert GroupSource(s, GroupSource(InverseSelector(s), c)) == c;
      }
    }
  }

  // ---------------------------------------------------------------------
  // The transforms on a stack of grids

  /** Puzzle and solution stacked along a new first axis. */
  type Stack = seq<Grid>

  predicate IsGridStack(ps: Stack) {
    forall l :: 0 <= l < |ps| ==> IsGrid(ps[l])
  }

  /** Every layer holds values 0..9, as the relabelling needs. */
  predicate IsValueStack(ps: Stack) {
    forall l :: 0 <= l < |ps| ==> IsPuzzle(ps[l])
  }

  /** A stacked puzzle/solution pair satisfying the grid model. */
  predicate IsPairStack(ps: Stack) {
    |ps| == 2 && IsPair(ps[0], ps[1])
  }

  /** A valid pair holds values 0..9 in both layers. */
  lemma PairStackHoldsValues(ps: Stack)
    requires IsPairStack(ps)
    ensures IsValueStack(ps)
  {
  }

  function NumberSwap(ps: Stack, perm: seq<int>): (qs: Stack)
    requires IsValueStack(ps) && IsDigitPermutation(perm)
    ensures |qs| == |ps| && IsValueStack(qs)
  {
    seq(|ps|, l requires 0 <= l < |ps| => NumberSwapGrid(ps[l], perm))
  }

  function RowSwap(ps: Stack, sel: seq<int>): (qs: Stack)
    requires IsGridStack(ps) && IsSelectors(sel)
    ensures |qs| == |ps| && IsGridStack(qs)
    ensures IsValueStack(ps) ==> IsValueStack(qs)
  {
    seq(|ps|, l requires 0 <= l < |ps| => RowSwapGrid(ps[l], sel))
  }

  function ColumnSwap(ps: Stack, sel: seq<int>): (qs: Stack)
    requires IsGridStack(ps) && IsSelectors(sel)
    ensures |qs| == |ps| && IsGridStack(qs)
    ensures IsValueStack(ps) ==> IsValueStack(qs)
  {
    seq(|ps|, l requires 0 <= l < |ps| => ColumnSwapGrid(ps[l], sel))
  }

  function BoxRowSwap(ps: Stack, s: int): (qs: Stack)
    requires IsGridStack(ps) && IsSelector(s)
    ensures |qs| == |ps| && IsGridStack(qs)
    ensures IsValueStack(ps) ==> IsValueStack(qs)
  {
    seq(|ps|, l requires 0 <= l < |ps| => BoxRowSwapGrid(ps[l], s))
  }

  function BoxColumnSwap(ps: Stack, s: int): (qs: Stack)
    requires IsGridStack(ps) && IsSelector(s)
    ensures |qs| == |ps| && IsGridStack(qs)
    ensures IsValueStack(ps) ==> IsValueStack(qs)
  {
    seq(|ps|, l requires 0 <= l < |ps| => BoxColumnSwapGrid(ps[l], s))
  }

  function Transpose(ps: Stack): (qs: Stack)
    requires IsGridStack(ps)
    ensures |qs| == |ps| && IsGridStack(qs)
    ensures IsValueStack(ps) ==> IsValueStack(qs)
  {
    seq(|ps|, l requires 0 <= l < |ps| => TransposeGrid(ps[l]))
  }

  // ---------------------------------------------------------------------
  // Each stacked transform maps a valid pair to a valid pair: the
  // solution stays a solution and, because both layers move alike, every
  // given of the puzzle still agrees with the solution.

  lemma NumberSwapPreservesPair(ps: Stack, perm: seq<int>)
    requires IsPairStack(ps) && IsDigitPermutation(perm)
    ensures IsPairStack(NumberSwap(ps, perm))
  {
    NumberSwapPreservesSolution(ps[1], perm);
  }

  lemma RowSwapPreservesPair(ps: Stack, sel: seq<int>)
    requires IsPairStack(ps) && IsSelectors(sel)
    ensures IsPairStack(RowSwap(ps, sel))
  {
    RowSwapPreservesSolution(ps[1], sel);
  }

  lemma ColumnSwapPreservesPair(ps: Stack, sel: seq<int>)
    requires IsPairStack(ps) && IsSelectors(sel)
    ensures IsPairStack(ColumnSwap(ps, sel))
  {
    ColumnSwapPreservesSolution(ps[1], sel);
  }

  lemma BoxRowSwapPreservesPair(ps: Stack, s: int)
    requires IsPairStack(ps) && IsSelector(s)
    ensures IsPairStack(BoxRowSwap(ps, s))
  {
    BoxRowSwapPreservesSolution(ps[1], s);
  }

  lemma BoxColumnSwapPreservesPair(ps: Stack, s: int)
    requires IsPairStack(ps) && IsSelector(s)
    ensures IsPairStack(BoxColumnSwap(ps, s))
  {
    BoxColumnSwapPreservesSolution(ps[1], s);
  }

  lemma TransposePreservesPair(ps: Stack)
    requires IsPairStack(ps)
    ensures IsPairStack(Transpose(ps))
  {
    TransposePreservesSolution(ps[1]);
  }

  // ---------------------------------------------------------------------
  // Compositions of transforms

  /** One transform instance with its parameters. */
  datatype Op =
    | NumberSwapOp(perm: seq<int>)
    | RowSwapOp(rows: seq<int>)
    | ColumnSwapOp(columns: seq<int>)
    | BoxRowSwapOp(band: int)
    | BoxColumnSwapOp(stack: int)
    | TransposeOp

  predicate IsOp(op: Op) {
    match op
    case NumberSwapOp(perm) => IsDigitPermutation(perm)
    case RowSwapOp(rows) => IsSelectors(rows)
    case ColumnSwapOp(columns) => IsSelectors(columns)
    case BoxRowSwapOp(band) => IsSelector(band)
    case BoxColumnSwapOp(stack) => IsSelector(stack)
    case TransposeOp => true
  }

  function ApplyOp(ps: Stack, op: Op): (qs: Stack)
    requires IsValueStack(ps) && IsOp(op)
    ensures |qs| == |ps| && IsValueStack(qs)
  {
    match op
    case NumberSwapOp(perm) => NumberSwap(ps, perm)
    case RowSwapOp(rows) => RowSwap(ps, rows)
    case ColumnSwapOp(columns) => ColumnSwap(ps, columns)
    case BoxRowSwapOp(band) => BoxRowSwap(ps, band)
    case BoxColumnSwapOp(stack) => BoxColumnSwap(ps, stack)
    case TransposeOp => Transpose(ps)
  }

  /** Applies `ops` in order, first element first. */
  function ApplyOps(ps: Stack, ops: seq<Op>): (qs: Stack)
    requires IsValueStack(ps)
    requires forall k :: 0 <= k < |ops| ==> IsOp(ops[k])
    ensures |qs| == |ps| && IsValueStack(qs)
    decreases |ops|
  {
    if ops == [] then ps else ApplyOps(ApplyOp(ps, ops[0]), ops[1..])
  }

  /** Running a chain in two pieces is running it whole. */
  lemma {:induction false} ApplyOpsAppend(ps: Stack, a: seq<Op>, b: seq<Op>)
    requires IsValueStack(ps)
    requires forall k :: 0 <= k < |a| ==> IsOp(a[k])
    requires forall k :: 0 <= k < |b| ==> IsOp(b[k])
    ensures forall k :: 0 <= k < |a + b| ==> IsOp((a + b)[k])
    ensures ApplyOps(ps, a + b) == ApplyOps(ApplyOps(ps, a), b)
    decreases |a|
  {
    if a == [] {
      assert a + b == b;
    } else {
      assert (a + b)[1..] == a[1..] + b;
      ApplyOpsAppend(ApplyOp(ps, a[0]), a[1..], b);
    }
  }

  lemma ApplyOpPreservesPair(ps: Stack, op: Op)
    requires IsPairStack(ps) && IsOp(op)
    ensures IsValueStack(ps)
    ensures IsPairStack(ApplyOp(ps, op))
  {
    match op
    case NumberSwapOp(perm) => NumberSwapPreservesPair(ps, perm);
    case RowSwapOp(rows) => RowSwapPreservesPair(ps, rows);
    case ColumnSwapOp(columns) => ColumnSwapPreservesPair(ps, columns);
    case BoxRowSwapOp(band) => BoxRowSwapPreservesPair(ps, band);
    case BoxColumnSwapOp(stack) => BoxColumnSwapPreservesPair(ps, stack);
    case TransposeOp => TransposePreservesPair(ps);
  }

  /** Every composition of the six transform kinds, whatever their order
      and parameters, maps a valid pair to a valid pair. */
  lemma {:induction false} ApplyOpsPreservesPair(ps: Stack, ops: seq<Op>)
    requires IsPairStack(ps)
    requires forall k :: 0 <= k < |ops| ==> IsOp(ops[k])
    ensures IsValueStack(ps)
    ensures IsPairStack(ApplyOps(ps, ops))
    decreases |ops|
  {
    PairStackHoldsValues(ps);
    if ops != [] {
      ApplyOpPreservesPair(ps, ops[0]);
      ApplyOpsPreservesPair(ApplyOp(ps, ops[0]), ops[1..]);
    }
  }

  /** A single layer that holds digits 1..9 keeps doing so under every
      composition. */
  lemma {:induction false} ApplyOpsKeepsFilled(ps: Stack, ops: seq<Op>, l: int)
    requires IsValueStack(ps) && 0 <= l < |ps| && IsFilled(ps[l])
    requires forall k :: 0 <= k < |ops| ==> IsOp(ops[k])
    ensures IsFilled(ApplyOps(ps, ops)[l])
    decreases |ops|
  {
    if ops != [] {
      var qs := ApplyOp(ps, ops[0]);
      assert IsFilled(qs[l]);
      ApplyOpsKeepsFilled(qs, ops[1..], l);
    }
  }
}
