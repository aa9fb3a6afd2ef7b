/** The dataset generator: augments a loaded corpus of puzzle/solution
    pairs by a factor chosen from the requested sample count, then encodes
    the augmented pairs as network tensors. */
module DataGen {
  import opened GridModel
  import opened Symmetry
  import opened Augmentation
  import opened Encoder

  /** The augmentation factor for `samples` requested samples from a
      corpus of n pairs: samples / n rounded to the nearest integer, halves
      rounded up, and never below 1. Computed as floor((2 samples + n) / 2n),
      which equals truncating 0.5 + samples / n whenever that is positive. */
  function Factor(samples: int, n: int): (f: int)
    requires n > 0
    ensures f >= 1
    ensures f == 1 <==> 2 * samples < 3 * n
    ensures f > 1 ==> n * (2 * f - 1) <= 2 * samples < n * (2 * f + 1)
  {
    var q := (2 * samples + n) / (2 * n);
    FactorBracket(samples, n);
    assert q <= 1 <==> 2 * samples < 3 * n;
    if q < 1 then 1 else q
  }

  /** The quotient behind Factor brackets samples / n within half a unit. */
  lemma FactorBracket(samples: int, n: int)
    requires n > 0
    ensures var q := (2 * samples + n) / (2 * n);
      n * (2 * q - 1) <= 2 * samples < n * (2 * q + 1)
  {
    var q := (2 * samples + n) / (2 * n);
    var r := (2 * samples + n) % (2 * n);
    assert 2 * samples + n == 2 * n * q + r && 0 <= r < 2 * n;
    assert n * (2 * q - 1) == 2 * n * q - n;
    assert n * (2 * q + 1) == 2 * n * q + n;
  }

  /** Asking for more samples never lowers the factor. */
  lemma FactorMonotone(s1: int, s2: int, n: int)
    requires n > 0 && s1 <= s2
    ensures Factor(s1, n) <= Factor(s2, n)
  {
  }

  /** Requesting an exact multiple of the corpus size gives that
      multiple. */
  lemma FactorOfMultiple(n: int, m: int)
    requires n > 0 && m >= 1
    ensures Factor(n * m, n) == m
  {
    var f := Factor(n * m, n);
    if f < m {
      MulMonotone(2 * f + 1, 2 * m, n);
      assert false;
    } else if f > m {
      MulMonotone(2 * m + 1, 2 * f - 1, n);
      assert false;
    }
  }

  /** Output k of the augmentation: derivation k % f of source pair k / f,
      made with the k-th draws. */
  ghost function Sample(
    puzzles: seq<Grid>, solutions: seq<Grid>, f: nat, choices: seq<Choice>, k: int): (ps: Stack)
    requires IsAugmentInput(puzzles, solutions, f, choices)
    requires 0 <= k < PairCount(puzzles, solutions) * f
    ensures |ps| == 2 && IsPuzzle(ps[0]) && IsPuzzle(ps[1])
  {
    SlotCovers(k, PairCount(puzzles, solutions), f);
    MulMonotone(PairCount(puzzles, solutions), |puzzles|, f);
    Derive([puzzles[k / f], solutions[k / f]], choices[k])
  }

  /** Every generated sample comes from a valid pair when the corpus holds
      valid pairs, and its target tensor decodes to a completed board. */
  lemma GeneratedSamplesAreValid(
    puzzles: seq<Grid>, solutions: seq<Grid>, f: nat, choices: seq<Choice>, k: int)
    requires IsAugmentInput(puzzles, solutions, f, choices)
    requires forall i :: 0 <= i < PairCount(puzzles, solutions) ==> IsPair(puzzles[i], solutions[i])
    requires 0 <= k < PairCount(puzzles, solutions) * f
    ensures IsPair(Sample(puzzles, solutions, f, choices, k)[0], Sample(puzzles, solutions, f, choices, k)[1])
    ensures IsSolution(DecodeSolution(EncodeSolution(Sample(puzzles, solutions, f, choices, k)[1])))
    ensures DecodePuzzle(EncodePuzzle(Sample(puzzles, solutions, f, choices, k)[0]))
      == Sample(puzzles, solutions, f, choices, k)[0]
  {
    var ps := Sample(puzzles, solutions, f, choices, k);
    SlotCovers(k, PairCount(puzzles, solutions), f);
    DerivePreservesPair([puzzles[k / f], solutions[k / f]], choices[k]);
    SolutionRoundTrip(ps[1]);
    PuzzleRoundTrip(ps[0]);
  }

  /** The generator on a loaded corpus: augments by Factor(samples, n) and
      encodes the result. Sample k of X and Y is the encoding of output k
      of the augmentation. */
  method GenerateData(samples: int, puzzles: seq<Grid>, solutions: seq<Grid>, choices: seq<Choice>)
    returns (X: array4<int>, Y: array4<int>)
    requires |solutions| >= |puzzles| > 0
    requires SourcesInRange(puzzles, solutions)
    requires |choices| == |puzzles| * Factor(samples, |puzzles|)
    requires forall k :: 0 <= k < |choices| ==> IsChoice(choices[k])
    ensures fresh(X) && fresh(Y)
    ensures X.Length0 == Y.Length0 == |puzzles| * Factor(samples, |puzzles|)
    ensures X.Length1 == X.Length2 == Y.Length1 == Y.Length2 == 9 && X.Length3 == 10 && Y.Length3 == 9
    ensures forall k, b, c, d :: 0 <= k < X.Length0 && 0 <= b < 9 && 0 <= c < 9 && 0 <= d < 10 ==>
      X[k, b, c, d] == EncodePuzzle(Sample(puzzles, solutions, Factor(samples, |puzzles|), choices, k)[0])[b][c][d]
    ensures forall k, b, c, d :: 0 <= k < Y.Length0 && 0 <= b < 9 && 0 <= c < 9 && 0 <= d < 9 ==>
      Y[k, b, c, d] == EncodeSolution(Sample(puzzles, solutions, Factor(samples, |puzzles|), choices, k)[1])[b][c][d]
  {
    var factor := Factor(samples, |puzzles|);
    var newPuzzles, newSolutions := AugmentBySymmetries(puzzles, solutions, factor, choices);
    forall k | 0 <= k < newPuzzles.Length
      ensures newPuzzles[k] == Sample(puzzles, solutions, factor, choices, k)[0]
      ensures newSolutions[k] == Sample(puzzles, solutions, factor, choices, k)[1]
    {
      AugmentationAtSlot(newPuzzles[..], newSolutions[..], puzzles, solutions, factor, choices, k);
    }
    X, Y := FormatPuzzles(newPuzzles[..], newSolutions[..]);
  }
}
