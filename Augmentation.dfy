/** The augmentation engine: every source puzzle/solution pair yields
    `factor` derived pairs, each made by pushing the stacked pair through
    the fixed pipeline of symmetries
      relabel -> rows in bands -> columns in stacks -> bands -> stacks
      -> transpose (only when the coin shows 1),
    and stored at slot i * factor + j of two freshly allocated arrays.
    The random draws are explicit: one `Choice` per output slot, in the
    order the loops consume them. */
module Augmentation {
  import opened GridModel
  import opened Symmetry

  /** The draws of one derived pair: a shuffled 1..9, three row selectors,
      three column selectors, a band selector, a stack selector and a coin
      (the value of randint(0, 2)). */
  datatype Choice = Choice(
    perm: seq<int>,
    rows: seq<int>,
    columns: seq<int>,
    band: int,
    stack: int,
    coin: int)

  /** The ranges the random draws fall in. */
  predicate IsChoice(ch: Choice) {
    IsDigitPermutation(ch.perm) &&
    IsSelectors(ch.rows) && IsSelectors(ch.columns) &&
    IsSelector(ch.band) && IsSelector(ch.stack) &&
    0 <= ch.coin < 2
  }

  /** The transforms of one derived pair, in the fixed order the
      generator applies them; the transposition only when the coin shows 1.
      Every transform is built from in-range draws, and a transposition
      can only come last. */
  function Pipeline(ch: Choice): (ops: seq<Op>)
    ensures |ops| == 5 || |ops| == 6
    ensures |ops| == 6 <==> ch.coin != 0
    ensures ops[0] == NumberSwapOp(ch.perm)
    ensures forall k :: 0 <= k < |ops| ==> (ops[k].TransposeOp? <==> k == 5)
    ensures IsChoice(ch) ==> forall k :: 0 <= k < |ops| ==> IsOp(ops[k])
  {
    [NumberSwapOp(ch.perm), RowSwapOp(ch.rows), ColumnSwapOp(ch.columns),
     BoxRowSwapOp(ch.band), BoxColumnSwapOp(ch.stack)] +
    (if ch.coin != 0 then [TransposeOp] else [])
  }

  /** The derived stack for one set of draws. */
  function Derive(ps: Stack, ch: Choice): (qs: Stack)
    requires IsValueStack(ps) && IsChoice(ch)
    ensures |qs| == |ps| && IsValueStack(qs)
  {
    ApplyOps(ps, Pipeline(ch))
  }

  /** A valid pair stays a valid pair under every set of draws: the
      solution is still a completed board and every given of the puzzle
      still agrees with it. */
  lemma DerivePreservesPair(ps: Stack, ch: Choice)
    requires IsPairStack(ps) && IsChoice(ch)
    ensures IsValueStack(ps)
    ensures IsPairStack(Derive(ps, ch))
  {
    ApplyOpsPreservesPair(ps, Pipeline(ch));
  }

  // ---------------------------------------------------------------------
  // Slot indexing

  /** Output slot of derived pair j of source pair i. Slot k belongs to
      source k / factor as its derived pair k % factor. */
  function Slot(i: int, j: int, factor: int): (k: int)
    requires 0 <= i && 0 <= j < factor
    ensures k / factor == i && k % factor == j
  {
    SlotDivMod(i, j, factor);
    i * factor + j
  }

  lemma SlotDivMod(i: int, j: int, factor: int)
    requires 0 <= i && 0 <= j < factor
    ensures (i * factor + j) / factor == i && (i * factor + j) % factor == j
  {
    var k := i * factor + j;
    var q, r := k / factor, k % factor;
    assert k == q * factor + r && 0 <= r < factor;
    if q > i {
      MulMonotone(i + 1, q, factor);
      assert false;
    } else if q < i {
      MulMonotone(q + 1, i, factor);
      assert false;
    }
  }

  lemma {:induction false} MulMonotone(a: int, b: int, c: nat)
    requires a <= b
    ensures a * c <= b * c
    decreases c
  {
    if c > 0 {
      MulMonotone(a, b, c - 1);
    }
  }

  /** Every slot of a source in range lies inside the n * factor outputs. */
  lemma SlotInRange(i: int, j: int, n: int, factor: int)
    requires 0 <= i < n && 0 <= j < factor
    ensures 0 <= Slot(i, j, factor) < n * factor
  {
    MulMonotone(i + 1, n, factor);
  }

  /** Every one of the n * factor outputs is the slot of exactly one
      (source, derived) pair. */
  lemma SlotCovers(k: int, n: nat, factor: nat)
    requires 0 <= k < n * factor
    ensures factor > 0 && 0 <= k / factor < n
    ensures Slot(k / factor, k % factor, factor) == k
  {
    if factor == 0 {
      assert false;
    }
    if k / factor >= n {
      MulMonotone(n, k / factor, factor);
      assert false;
    }
  }

  /** Every zipped source pair holds values 0..9 in both grids. */
  predicate SourcesInRange(puzzles: seq<Grid>, solutions: seq<Grid>) {
    forall i :: 0 <= i < PairCount(puzzles, solutions) ==>
      IsPuzzle(puzzles[i]) && IsPuzzle(solutions[i])
  }

  /** Preconditions of augment_by_symmetries on its inputs: source pairs
      hold values 0..9 and there is one valid set of draws per output slot. */
  predicate IsAugmentInput(
    puzzles: seq<Grid>, solutions: seq<Grid>, factor: nat, choices: seq<Choice>)
  {
    SourcesInRange(puzzles, solutions) &&
    |choices| == |puzzles| * factor &&
    forall k :: 0 <= k < |choices| ==> IsChoice(choices[k])
  }

  /** The j-th derivation of source pair i, made with the draws of its
      slot. */
  ghost function Derived(
    puzzles: seq<Grid>, solutions: seq<Grid>, factor: nat, choices: seq<Choice>,
    i: int, j: int): (ps: Stack)
    requires IsAugmentInput(puzzles, solutions, factor, choices)
    requires 0 <= i < PairCount(puzzles, solutions) && 0 <= j < factor
    ensures |ps| == 2
  {
    SlotInRange(i, j, |puzzles|, factor);
    Derive([puzzles[i], solutions[i]], choices[Slot(i, j, factor)])
  }

  /** The j-th derivation of source pair i sits in slot i * factor + j of
      the two output sequences, for every zipped source pair and every
      j < factor. */
  ghost predicate IsAugmentation(
    outPuzzles: seq<Grid>, outSolutions: seq<Grid>,
    puzzles: seq<Grid>, solutions: seq<Grid>, factor: nat, choices: seq<Choice>)
    requires IsAugmentInput(puzzles, solutions, factor, choices)
  {
    |outPuzzles| == |outSolutions| == |puzzles| * factor &&
    forall i, j :: 0 <= i < PairCount(puzzles, solutions) && 0 <= j < factor ==>
      Slot(i, j, factor) < |outPuzzles| &&
      outPuzzles[Slot(i, j, factor)] == Derived(puzzles, solutions, factor, choices, i, j)[0] &&
      outSolutions[Slot(i, j, factor)] == Derived(puzzles, solutions, factor, choices, i, j)[1]
  }

  /** Read slot by slot: output k is derivation k % factor of source pair
      k / factor, made with the k-th draws. */
  lemma AugmentationAtSlot(
    outPuzzles: seq<Grid>, outSolutions: seq<Grid>,
    puzzles: seq<Grid>, solutions: seq<Grid>, factor: nat, choices: seq<Choice>, k: int)
    requires IsAugmentInput(puzzles, solutions, factor, choices)
    requires IsAugmentation(outPuzzles, outSolutions, puzzles, solutions, factor, choices)
    requires 0 <= k < PairCount(puzzles, solutions) * factor
    ensures factor > 0 && k / factor < PairCount(puzzles, solutions) && k < |choices|
    ensures outPuzzles[k] == Derive([puzzles[k / factor], solutions[k / factor]], choices[k])[0]
    ensures outSolutions[k] == Derive([puzzles[k / factor], solutions[k / factor]], choices[k])[1]
  {
    var m := PairCount(puzzles, solutions);
    SlotCovers(k, m, factor);
    MulMonotone(m, |puzzles|, factor);
    var i, j := k / factor, k % factor;
    assert Slot(i, j, factor) == k;
    assert Derived(puzzles, solutions, factor, choices, i, j)
      == Derive([puzzles[i], solutions[i]], choices[k]);
  }

  /** Augmenting valid pairs yields only valid pairs: every derived
      solution is a completed board and every derived puzzle agrees with
      its solution. */
  lemma AugmentationPreservesPairs(
    outPuzzles: seq<Grid>, outSolutions: seq<Grid>,
    puzzles: seq<Grid>, solutions: seq<Grid>, factor: nat, choices: seq<Choice>, k: int)
    requires IsAugmentInput(puzzles, solutions, factor, choices)
    requires IsAugmentation(outPuzzles, outSolutions, puzzles, solutions, factor, choices)
    requires forall i :: 0 <= i < PairCount(puzzles, solutions) ==> IsPair(puzzles[i], solutions[i])
    requires 0 <= k < PairCount(puzzles, solutions) * factor
    ensures k < |outPuzzles| && IsPair(outPuzzles[k], outSolutions[k])
  {
    AugmentationAtSlot(outPuzzles, outSolutions, puzzles, solutions, factor, choices, k);
    DerivePreservesPair([puzzles[k / factor], solutions[k / factor]], choices[k]);
  }

  /** One derived pair: the source pair stacked into one array and pushed
      through the transforms in the fixed order. */
  method DerivePair(puzzle: Grid, solution: Grid, ch: Choice)
    returns (newPuzzle: Grid, newSolution: Grid)
    requires IsPuzzle(puzzle) && IsPuzzle(solution) && IsChoice(ch)
    ensures newPuzzle == Derive([puzzle, solution], ch)[0]
    ensures newSolution == Derive([puzzle, solution], ch)[1]
  {
    var ps: Stack := [puzzle, solution];
    ghost var ops := Pipeline(ch);
    ghost var derived := ApplyOps(ps, ops);
    ps := NumberSwap(ps, ch.perm);
    assert ApplyOps(ps, ops[1..]) == derived;
    ps := RowSwap(ps, ch.rows);
    assert ApplyOps(ps, ops[2..]) == derived;
    ps := ColumnSwap(ps, ch.columns);
    assert ApplyOps(ps, ops[3..]) == derived;
    ps := BoxRowSwap(ps, ch.band);
    assert ApplyOps(ps, ops[4..]) == derived;
    ps := BoxColumnSwap(ps, ch.stack);
    assert ApplyOps(ps, ops[5..]) == derived;
    if ch.coin != 0 {
      ps := Transpose(ps);
      assert ApplyOps(ps, ops[6..]) == derived;
    }
    assert ps == derived;
    newPuzzle, newSolution := ps[0], ps[1];
  }

  /** The inner loop of augment_by_symmetries for source pair i: fills
      slots i * factor .. i * factor + factor - 1 and nothing else. */
  method AugmentSource(
    newPuzzles: array<Grid>, newSolutions: array<Grid>,
    puzzles: seq<Grid>, solutions: seq<Grid>, factor: nat, choices: seq<Choice>, i: int)
    requires IsAugmentInput(puzzles, solutions, factor, choices)
    requires 0 <= i < PairCount(puzzles, solutions)
    requires newPuzzles != newSolutions
    requires newPuzzles.Length == newSolutions.Length == |puzzles| * factor
    modifies newPuzzles, newSolutions
    ensures forall j :: 0 <= j < factor ==>
      Slot(i, j, factor) < newPuzzles.Length &&
      newPuzzles[Slot(i, j, factor)] == Derived(puzzles, solutions, factor, choices, i, j)[0] &&
      newSolutions[Slot(i, j, factor)] == Derived(puzzles, solutions, factor, choices, i, j)[1]
    ensures forall k :: 0 <= k < newPuzzles.Length && k / factor != i ==>
      newPuzzles[k] == old(newPuzzles[k]) && newSolutions[k] == old(newSolutions[k])
  {
    var fi := i * factor;
    for j := 0 to factor
      invariant forall j' :: 0 <= j' < j ==>
        Slot(i, j', factor) < newPuzzles.Length &&
        newPuzzles[Slot(i, j', factor)] == Derived(puzzles, solutions, factor, choices, i, j')[0] &&
        newSolutions[Slot(i, j', factor)] == Derived(puzzles, solutions, factor, choices, i, j')[1]
      invariant forall k :: 0 <= k < newPuzzles.Length && k / factor != i ==>
        newPuzzles[k] == old(newPuzzles[k]) && newSolutions[k] == old(newSolutions[k])
    {
      var fij := fi + j;
      assert fij == Slot(i, j, factor);
      SlotInRange(i, j, |puzzles|, factor);
      var puzzle, solution := DerivePair(puzzles[i], solutions[i], choices[fij]);
      assert puzzle == Derived(puzzles, solutions, factor, choices, i, j)[0];
      assert solution == Derived(puzzles, solutions, factor, choices, i, j)[1];
      newPuzzles[fij] := puzzle;
      newSolutions[fij] := solution;
    }
  }

  /** Allocates len(puzzles) * factor output slots and fills slot
      i * factor + j with the j-th derivation of source pair i. Slots past
      the last zipped pair are left as allocated (numpy's `empty`). */
  method AugmentBySymmetries(
    puzzles: seq<Grid>, solutions: seq<Grid>, factor: nat, choices: seq<Choice>)
    returns (newPuzzles: array<Grid>, newSolutions: array<Grid>)
    requires IsAugmentInput(puzzles, solutions, factor, choices)
    ensures fresh(newPuzzles) && fresh(newSolutions)
    ensures IsAugmentation(newPuzzles[..], newSolutions[..], puzzles, solutions, factor, choices)
  {
    var n := |puzzles|;
    newPuzzles := new Grid[n * factor];
    newSolutions := new Grid[n * factor];
    for i := 0 to PairCount(puzzles, solutions)
      invariant forall i', j :: 0 <= i' < i && 0 <= j < factor ==>
        Slot(i', j, factor) < newPuzzles.Length &&
        newPuzzles[Slot(i', j, factor)] == Derived(puzzles, solutions, factor, choices, i', j)[0] &&
        newSolutions[Slot(i', j, factor)] == Derived(puzzles, solutions, factor, choices, i', j)[1]
    {
      AugmentSource(newPuzzles, newSolutions, puzzles, solutions, factor, choices, i);
    }
  }
}
