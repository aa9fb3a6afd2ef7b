# Sudoku training-data generator (timedist), modelled in Dafny

This project models the data generator of the `timedist` Sudoku demo, which trains a Keras network on Sudoku boards. The generator has three parts:

- The **augmentation loop**. It multiplies a corpus of puzzle/solution pairs by a factor. Each derived pair stacks a puzzle and its solution into one array and pushes the stack through a fixed chain of Sudoku symmetries:
  1. digit relabelling;
  2. row reordering inside each band;
  3. column reordering inside each stack;
  4. band reordering;
  5. stack reordering;
  6. a transposition on a coin flip.

  The derived pair is stored at slot `i * factor + j`.
- The **factor rule**. It turns a requested sample count into an augmentation factor.
- The **tensor encoder**. It walks every cell of every pair and writes two one-hot vectors into zero-initialised arrays, both indexed by (sample, 3x3 block, cell in block):
  - `X` (10 wide, index 0 = empty);
  - `Y` (9 wide, index digit - 1).

Modules:

- `GridModel`: boards as `seq<seq<int>>` and the (block, cell-in-block) addressing with its inverse. It also holds the validity rules for a pair: the solution has distinct digits in every row, column and block, and every non-empty puzzle cell agrees with the solution.
- `Symmetry`: the six transforms on one grid and on a stacked pair. Also the `Op` datatype and `ApplyOps`, which composes transforms.
  - The transforms come from a library that is not part of this model. They are defined here from their standard Sudoku meaning under two assumptions:
    - a selector `s` in 0..5 picks the `s`-th ordering of three items in lexicographic order;
    - `number_swap` maps digit `v` to `perm[v-1]` and keeps 0.
- `Augmentation`: `augment_by_symmetries` as imperative code over output arrays, with the random draws of each output slot passed in as a `Choice`.
- `Encoder`: `format_puzzles` as imperative code over `array4<int>` tensors, specified by the nested-sequence encodings `EncodePuzzle` and `EncodeSolution`, which decode losslessly.
- `DataGen`: the factor rule and `generate_data` on an already loaded corpus.

## Model

| member | source | states |
|---|---|---|
| GridModel.Box | timedist/datagen.py:27 | the block index of a cell is in 0..8 and lies in band row/3 and stack col/3 |
| GridModel.RelCell | timedist/datagen.py:29-32 | the cell-in-block index is in 0..8 and is made of row%3 and col%3 |
| GridModel.AddressRoundTrip | timedist/datagen.py:27-32 | (row, col) is recovered from (box, rel_cell) |
| GridModel.AddressRoundTripInverse | timedist/datagen.py:27-32 | every (block, cell-in-block) slot is the address of some cell, so the map is onto |
| GridModel.AddressInjective | timedist/datagen.py:24-32 | two different cells never share a slot, so each slot of a sample is written by exactly one cell |
| GridModel.PairCount | timedist/datagen.py:22 | zip stops at the shorter of the two sequences |
| GridModel.DigitPermutationCovers | timedist/datagen.py:73-74 | nine distinct digits drawn from 1..9 (the shuffled arange(1, 10)) include every digit |
| Symmetry.NumberSwapGrid | timedist/datagen.py:75 | relabelling keeps values in 0..9 and keeps a filled board filled |
| Symmetry.RowSwapGrid | timedist/datagen.py:76 | reordering rows within bands keeps the 9x9 shape and the value ranges |
| Symmetry.ColumnSwapGrid | timedist/datagen.py:77 | reordering columns within stacks keeps the 9x9 shape and the value ranges |
| Symmetry.BoxRowSwapGrid | timedist/datagen.py:78 | reordering bands keeps the 9x9 shape and the value ranges |
| Symmetry.BoxColumnSwapGrid | timedist/datagen.py:79 | reordering stacks keeps the 9x9 shape and the value ranges |
| Symmetry.TransposeGrid | timedist/datagen.py:80-81 | transposing keeps the 9x9 shape and the value ranges |
| Symmetry.NumberSwapPreservesSolution | timedist/datagen.py:75 | relabelling a valid solution by a digit permutation gives a valid solution |
| Symmetry.RowSwapPreservesSolution | timedist/datagen.py:76 | row reordering within bands maps valid solutions to valid solutions |
| Symmetry.ColumnSwapPreservesSolution | timedist/datagen.py:77 | column reordering within stacks maps valid solutions to valid solutions |
| Symmetry.BoxRowSwapPreservesSolution | timedist/datagen.py:78 | band reordering maps valid solutions to valid solutions |
| Symmetry.BoxColumnSwapPreservesSolution | timedist/datagen.py:79 | stack reordering maps valid solutions to valid solutions |
| Symmetry.TransposePreservesSolution | timedist/datagen.py:80-81 | transposition maps valid solutions to valid solutions |
| Symmetry.TransposeInvolution | timedist/datagen.py:80-81 | transposing twice gives the board back |
| Symmetry.InverseSelector | timedist/datagen.py:76-79 | every one of the six orderings has an ordering that undoes it |
| Symmetry.InversePerm | timedist/datagen.py:73-75 | every digit permutation has an inverse permutation, which undoes it and is undone by it |
| Symmetry.NumberSwapInverse | timedist/datagen.py:75 | relabelling by any digit permutation is undone by relabelling with its inverse, so every relabelling is a bijection on boards |
| Symmetry.RowSwapInverse | timedist/datagen.py:76 | row reordering is undone by the inverse selectors |
| Symmetry.ColumnSwapInverse | timedist/datagen.py:77 | column reordering is undone by the inverse selectors |
| Symmetry.BoxRowSwapInverse | timedist/datagen.py:78 | band reordering is undone by the inverse selector |
| Symmetry.BoxColumnSwapInverse | timedist/datagen.py:79 | stack reordering is undone by the inverse selector |
| Symmetry.NumberSwap | timedist/datagen.py:72-75 | relabelling the stacked pair keeps the layer count and the 0..9 range of every layer; NumberSwapPreservesPair is its partner |
| Symmetry.RowSwap | timedist/datagen.py:76 | row reordering of the stack keeps the layer count, the 9x9 shape and the value ranges; RowSwapPreservesPair is its partner |
| Symmetry.ColumnSwap | timedist/datagen.py:77 | column reordering of the stack keeps the layer count, the 9x9 shape and the value ranges; ColumnSwapPreservesPair is its partner |
| Symmetry.BoxRowSwap | timedist/datagen.py:78 | band reordering of the stack keeps the layer count, the 9x9 shape and the value ranges; BoxRowSwapPreservesPair is its partner |
| Symmetry.BoxColumnSwap | timedist/datagen.py:79 | stack reordering of the stacked pair keeps the layer count, the 9x9 shape and the value ranges; BoxColumnSwapPreservesPair is its partner |
| Symmetry.Transpose | timedist/datagen.py:80-81 | transposing the stack keeps the layer count, the 9x9 shape and the value ranges; TransposePreservesPair is its partner |
| Symmetry.NumberSwapPreservesPair | timedist/datagen.py:72-75 | relabelling the stacked pair keeps it a valid puzzle/solution pair, since both layers undergo the same transform |
| Symmetry.RowSwapPreservesPair | timedist/datagen.py:72-76 | the same for row reordering |
| Symmetry.ColumnSwapPreservesPair | timedist/datagen.py:72-77 | the same for column reordering |
| Symmetry.BoxRowSwapPreservesPair | timedist/datagen.py:72-78 | the same for band reordering |
| Symmetry.BoxColumnSwapPreservesPair | timedist/datagen.py:72-79 | the same for stack reordering |
| Symmetry.TransposePreservesPair | timedist/datagen.py:72-81 | the same for transposition |
| Symmetry.ApplyOps | timedist/datagen.py:75-81 | the successive reassignments of ps keep the layer count and the 0..9 range |
| Symmetry.ApplyOpsAppend | timedist/datagen.py:75-81 | running a chain of transforms in two pieces gives the same stack as running it whole |
| Symmetry.ApplyOpPreservesPair | timedist/datagen.py:75-81 | any single transform keeps a stacked pair valid |
| Symmetry.ApplyOpsPreservesPair | timedist/datagen.py:72-81 | every chain of transforms, in any order and length, keeps a stacked pair valid |
| Symmetry.ApplyOpsKeepsFilled | timedist/datagen.py:72-81 | a layer holding only digits 1..9 keeps doing so through every chain, so derived solutions have no empty cell |
| Augmentation.Pipeline | timedist/datagen.py:73-81 | the chain has five transforms, six exactly when the coin is nonzero; it starts with the relabelling, a transposition can only be the sixth, and in-range draws give only valid transforms |
| Augmentation.Derive | timedist/datagen.py:72-81 | a derived stack has as many layers as the source stack and keeps values in 0..9 |
| Augmentation.DerivePreservesPair | timedist/datagen.py:72-82 | a derived pair of a valid pair is a valid pair |
| Augmentation.Slot | timedist/datagen.py:69-71 | slot i * factor + j divides back into source i and derivation j |
| Augmentation.SlotInRange | timedist/datagen.py:66-71 | every slot written lies inside the len(puzzles) * factor allocation |
| Augmentation.SlotCovers | timedist/datagen.py:66-71 | every slot below count * factor is written by exactly one (i, j) |
| Augmentation.AugmentationAtSlot | timedist/datagen.py:64-83 | output k is derivation k % factor of source pair k / factor, made with the k-th draws |
| Augmentation.AugmentationPreservesPairs | timedist/datagen.py:64-83 | augmenting valid pairs yields only valid pairs |
| Augmentation.DerivePair | timedist/datagen.py:72-82 | the step-by-step reassignment of ps computes exactly the composed pipeline on the stacked pair |
| Augmentation.AugmentSource | timedist/datagen.py:69-82 | the inner loop fills the factor slots of source i with its derivations and changes no other slot |
| Augmentation.AugmentBySymmetries | timedist/datagen.py:64-83 | fresh outputs of length len(puzzles) * factor, where slot i * factor + j holds derivation j of zipped source pair i |
| Encoder.OneHotExactlyOne | timedist/datagen.py:34-42 | a one-hot vector has exactly one 1 and all other entries 0 |
| Encoder.OneHotDecodes | timedist/datagen.py:34-42 | the position of the 1 is the encoded value |
| Encoder.PyIndex | timedist/datagen.py:47 | a Python subscript lands in range and agrees with the requested index modulo the length |
| Encoder.EncodePuzzle | timedist/datagen.py:34-42 | for every cell (r, c), the vector at (Box(r, c), RelCell(r, c)) is 10 wide with a 1 at the cell's value (0 for empty) and 0 elsewhere |
| Encoder.EncodeSolution | timedist/datagen.py:44-47 | for every cell (r, c), the vector at (Box(r, c), RelCell(r, c)) is 9 wide with a 1 at the Python subscript value - 1 and 0 elsewhere |
| Encoder.EncodingIsOneHot | timedist/datagen.py:34-47 | every X vector (10 wide) and every Y vector (9 wide) of an encoded sample has exactly one 1 |
| Encoder.PuzzleRoundTrip | timedist/datagen.py:22-42 | reading each cell back from its (box, rel_cell) vector gives the puzzle, with 0 for empty |
| Encoder.SolutionRoundTrip | timedist/datagen.py:44-47 | the position of the 1 plus one gives back every solution digit |
| Encoder.EmptySolutionCellReadsAsNine | timedist/datagen.py:44-47 | an empty solution cell gets subscript -1 and is encoded the same as a 9 |
| Encoder.FormatPuzzles | timedist/datagen.py:12-49 | X and Y are fresh with shapes len(puzzles)x9x9x10 and len(puzzles)x9x9x9; sample i of every zipped pair is its encoding, and samples past the zip stay zero |
| Encoder.EncodeSample | timedist/datagen.py:22-47 | filling sample i writes exactly its encoding and leaves every other sample unchanged |
| Encoder.EncodeRow | timedist/datagen.py:25-47 | after each row, exactly the visited cells' one-hot entries are set |
| DataGen.Factor | timedist/datagen.py:58 | the factor is at least 1; it is 1 exactly when samples / n < 1.5; otherwise it is samples / n rounded to the nearest integer, halves up |
| DataGen.FactorBracket | timedist/datagen.py:58 | the rounded quotient lies within half a unit of samples / n |
| DataGen.FactorMonotone | timedist/datagen.py:58 | asking for more samples never gives a smaller factor |
| DataGen.FactorOfMultiple | timedist/datagen.py:58 | asking for m times the corpus size gives factor m |
| DataGen.GeneratedSamplesAreValid | timedist/datagen.py:51-62 | from a corpus of valid pairs every generated sample is a valid pair, its target tensor decodes to a completed board, and its input tensor decodes to its puzzle |
| DataGen.GenerateData | timedist/datagen.py:51-62 | X and Y hold n * Factor(samples, n) samples, and sample k is the encoding of augmentation output k |

## Left out

- Reading the corpus file and the console output (`read_puzzles`, the `print`, the `__main__` viewer). The loaded corpus is a parameter of `DataGen.GenerateData`.
- The random number generator. The shuffled permutation and the `randint` draws of each output slot are a `Choice` value passed in per slot. Their ranges are preconditions: `perm` is a permutation of 1..9, selectors are in 0..5 and the coin is in 0..1.
- The bodies of `number_swap`, `row_swap`, `column_swap`, `box_row_swap`, `box_column_swap` and `transpose`. They belong to an external library that is not part of this model. The Dafny versions follow the standard Sudoku symmetries, and the selector encoding is an assumption.
- The `is None` branch of the encoder (timedist/datagen.py:39-40). The grids are integer arrays, so it never fires. An empty cell holds 0 and the else branch writes index 0, exactly as the None branch would.
- numpy storage types. `X` and `Y` are float arrays and the augmented grids are `int8`. Here they are unbounded integers; the values 0, 1 and 0..9 fit every one of those types.
- DataGen.Factor: models `int(.5 + samples / n)` as the exact integer `(2 * samples + n) / (2 * n)`, so the result is exact where float rounding of the division could differ for very large counts. For a negative argument truncation and floor can differ, but `max(1, ...)` turns both into 1.
- DataGen.Factor, DataGen.GenerateData: an empty corpus makes the division raise, so the model requires n > 0.
- DataGen.GenerateData: requires at least as many solutions as puzzles. With more puzzles than solutions, `zip` stops early and the slots of `np.empty` past the last pair hold arbitrary bytes, which `format_puzzles` would then encode. The model leaves those slots as empty sequences and cannot encode them.
- Augmentation.AugmentBySymmetries: slots past the last zipped pair are left as allocated, like `np.empty`. Their content is unconstrained, and `IsAugmentation` says nothing about them.
- Encoder.FormatPuzzles: cell values are required to lie in 0..9. numpy would also accept negative subscripts down to -10 for `X` (and wrap them), and raises an error above the width. An empty solution cell (0) is modelled: numpy wraps subscript -1 to the last slot.
- Error types. The code raises no error of its own. It checks neither value ranges, nor puzzle/solution consistency, nor `factor >= 1`. The model follows the code:
  - cell values outside 0..9 are excluded by preconditions on the encoder and the augmentation;
  - pair validity is a hypothesis of the preservation lemmas, not a check;
  - `factor` is a `nat`, and a factor of 0 gives empty outputs, as `range(0)` does.
- Augmentation.AugmentBySymmetries: the default `factor = 8` of `augment_by_symmetries` is not modelled. The factor is always an explicit argument, as at its only call site.
- The training scripts (timedist/train.py) and the whole conv2d variant: Keras models, polygon rasterisation and display.
