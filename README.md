# Hopfield network over a small dense-matrix library

This project models the core of a small Java neural-network library and
proves properties of the model. The core has four parts:

- **Matrix** (`Matrices.Matrix`): a rows by cols grid of numbers in a
  two-dimensional array. It has bounds-checked accessors, in-place mutators,
  folds and factories.
- **MatrixMath**: element-wise addition and subtraction, scalar
  multiplication and division, the matrix product, transpose, identity, the
  dot product of two vectors and the vector-length check. Each operation
  checks the shapes of its operands.
- **HopfieldNetwork** (`Hopfield.HopfieldNetwork`): one square weight matrix.
  `Train` adds the outer product of the bipolar pattern with itself, minus
  the identity (the Hebbian rule). `Present` does one synchronous threshold
  pass over the columns of the weights.
- **BiPolarUtil** and the console front end: the boolean to {-1, +1}
  conversions, the `[T,F,...,]` text form of a pattern, and the console
  demonstration as a concrete run.

Each class the source mutates is a Dafny `class` over an `array2<real>` or
`array<bool>`. Every such class is specified against a value abstraction:
`Matrix.Cells()` and `HopfieldNetwork.Weights()` are `seq<seq<real>>`
grids. The pure module `Grids` defines the grid operations (sum,
difference, scaling, product, transpose, identity, row-major packing, dot
product) and proves the algebraic facts about them. The methods of
`MatrixMath` are proved to compute those grid functions. The Hopfield
learning and recall rules are the functions `Hopfield.Trained` and
`Hopfield.Recall`, and the lemmas about them carry the network's promises.

Java's checked exceptions become values. Modules `Errors.Result` and
`Errors.Outcome` carry one `Error` variant per exception class:
MatrixIndexOutOfBounds, MatrixIncompatibility, NotVector, NotBipolarDecimal
and HopfieldNetworkError. Java's own unchecked failures are not modelled as
values. These are array index errors on a negative index, and reading
`matData[0]` of a zero-row array. They become `requires` clauses that
exclude exactly those inputs.

Cells are exact `real` numbers. Every value a Hopfield network produces is
a small integer, so nothing that matters depends on double rounding.

## Model

| member | source | states |
|---|---|---|
| Matrices.Matrix.constructor | org/util/Matrix.java:38-52 | A new rows by cols matrix has that shape and every cell is 0. |
| Matrices.Matrix.FromArray | org/util/Matrix.java:61-69 | The matrix takes the caller's array itself, not a copy; its shape is the array's shape. The first row must exist, because the width is read from it. |
| Matrices.Matrix.CreateColumnMatrix | org/util/Matrix.java:81-90 | A fresh n by 1 matrix whose cell (i, 0) is input[i]. |
| Matrices.Matrix.CreateRowMatrix | org/util/Matrix.java:101-111 | A fresh 1 by n matrix whose only row is the input. |
| Matrices.Matrix.Add | org/util/Matrix.java:150-154 | 1-indexed: cell (row-1, col-1) grows by value, and every other cell is unchanged. |
| Matrices.Matrix.Clear | org/util/Matrix.java:160-166 | Every cell becomes 0 and the shape stays. |
| Matrices.Matrix.Clone | org/util/Matrix.java:173-177 | The clone as written: same shape and contents, but the same underlying array. |
| Matrices.Matrix.CloneCopy | org/util/Matrix.java:173-177 | The corrected clone: same shape and contents in a fresh array of its own. |
| Matrices.CloneSharesStorage | org/util/Matrix.java:173-177 | After cloning a zero 1 by 1 matrix and setting the original's cell to 7, the clone as written reads 7 and the copying clone reads 0. |
| Matrices.Matrix.Equals | org/util/Matrix.java:186-208 | The equality as written: false when the shapes differ; otherwise true exactly when every this[i][j] equals other[i+1][j+1] wherever that cell exists. |
| Matrices.Matrix.EqualsCellwise | org/util/Matrix.java:186-208 | The corrected equality: true exactly when the shapes agree and every cell agrees. |
| Matrices.EqualsRejectsItself | org/util/Matrix.java:186-208 | [[1, 2], [3, 4]] is unequal to itself under the equality as written, and equal under the corrected one. |
| Matrices.EqualsMissesDifference | org/util/Matrix.java:186-208 | [[1]] equals [[2]] under the equality as written, and not under the corrected one. |
| Matrices.Matrix.GetElement | org/util/Matrix.java:225-233 | MatrixIndexOutOfBounds exactly when row > rows-1 or col > cols-1; otherwise the cell's value. |
| Matrices.Matrix.GetCol | org/util/Matrix.java:270-282 | MatrixIndexOutOfBounds exactly when col > cols-1; otherwise a fresh rows by 1 matrix holding column col. |
| Matrices.Matrix.GetRow | org/util/Matrix.java:297-309 | MatrixIndexOutOfBounds exactly when row > rows-1; otherwise a fresh 1 by cols copy of row row. |
| Matrices.Matrix.IsVector | org/util/Matrix.java:316-323 | True exactly when rows == 1 or cols == 1; a vector then packs to its only row or its only column. |
| Matrices.Matrix.IsZero | org/util/Matrix.java:331-345 | True exactly when every cell is 0. |
| Matrices.Matrix.Set | org/util/Matrix.java:362-370 | MatrixIndexOutOfBounds with nothing changed when an index is out of range; otherwise cell (row, col) becomes value and nothing else changes. |
| Matrices.Matrix.Sum | org/util/Matrix.java:377-387 | The sum of all cells equals the sum of the row-major packing. |
| Matrices.Matrix.ToPackedArray | org/util/Matrix.java:395-411 | A fresh array of rows*cols cells holding the rows one after another. |
| Grids.FlattenAt | org/util/Matrix.java:395-411 | In the row-major packing of an r by c grid, cell (i, j) lands at index i*c + j. |
| Grids.FlattenLength | org/util/Matrix.java:395-411 | The packing of an r by c grid has r*c cells. |
| Grids.GridSumIsPackedSum | org/util/Matrix.java:377-387 | Summing row by row equals summing the packed sequence. |
| Grids.PackedVector | org/util/Matrix.java:316-323 | A one-row grid packs to its row, a one-column grid to its column. |
| Grids.SetCell | org/util/Matrix.java:362-370 | Setting a cell changes that cell only and keeps the shape. |
| Grids.Extensionality | org/util/Matrix.java:186-208 | Two r by c grids that agree on every cell are equal, which is what a cell-by-cell equality decides. |
| MatrixMath.Add | org/util/MatrixMath.java:31-50 | MatrixIncompatibility exactly when the shapes differ; otherwise a fresh matrix holding the cell-wise sum. |
| MatrixMath.Subtract | org/util/MatrixMath.java:65-84 | MatrixIncompatibility exactly when the shapes differ; otherwise a fresh matrix holding the cell-wise difference. |
| Grids.SubUndoesAdd | org/util/MatrixMath.java:31-84 | Subtracting b from a + b gives a back. |
| Grids.AddCommutes | org/util/MatrixMath.java:31-50 | a + b equals b + a. |
| MatrixMath.Divide | org/util/MatrixMath.java:97-110 | A fresh matrix of the same shape holding every cell divided by the nonzero divisor. |
| MatrixMath.MultiplyScalar | org/util/MatrixMath.java:184-198 | A fresh matrix of the same shape holding every cell times the multiplier. |
| Grids.DivUndoesScale | org/util/MatrixMath.java:97-110 | Multiplying by k and then dividing by a nonzero k gives the grid back. |
| MatrixMath.DotProduct | org/util/MatrixMath.java:127-148 | NotVector unless both are vectors; MatrixIncompatibility when the packed lengths differ; otherwise the dot product of the packed sequences, whatever the orientation. |
| Grids.DotCommutes | org/util/MatrixMath.java:127-148 | The dot product is symmetric. |
| Grids.DotZero | org/util/MatrixMath.java:127-148 | The dot product with an all-zero vector is 0. |
| MatrixMath.Identity | org/util/MatrixMath.java:159-171 | A fresh size by size matrix with 1 on the diagonal and 0 elsewhere. |
| MatrixMath.Multiply | org/util/MatrixMath.java:214-233 | MatrixIncompatibility exactly when a.cols != b.rows; otherwise a fresh a.rows by b.cols matrix whose cell (i, j) is the dot product of row i of a with column j of b. |
| Grids.MulIdentityRight | org/util/MatrixMath.java:159-171 | Multiplying by the identity on the right leaves a grid unchanged. |
| Grids.MulIdentityLeft | org/util/MatrixMath.java:159-171 | Multiplying by the identity on the left leaves a grid unchanged. |
| Grids.DotUnit | org/util/MatrixMath.java:159-171 | The dot product with the k-th column of the identity picks out element k. |
| MatrixMath.Transpose | org/util/MatrixMath.java:243-257 | A fresh cols by rows matrix whose cell (j, i) is cell (i, j) of the operand. |
| Grids.TransposeInvolution | org/util/MatrixMath.java:243-257 | Transposing twice gives the grid back. |
| Grids.ColumnIsTransposedRow | org/util/MatrixMath.java:243-257 | The transpose of a row matrix is the column matrix of the same values. |
| MatrixMath.VectorLengthSquared | org/util/MatrixMath.java:270-285 | NotVector for a non-vector; otherwise the sum of the squares of the packed cells, which is never negative. |
| Grids.DotSelfNonNegative | org/util/MatrixMath.java:270-285 | A sum of squares is never negative, so the square root the source takes exists. |
| BiPolarUtil.BipolarToDouble | org/util/BiPolarUtil.java:37-46 | The code is 1 or -1, and it is 1 exactly when the boolean is true. |
| BiPolarUtil.DoubleToBipolar | org/util/BiPolarUtil.java:99-112 | NotBipolarDecimal exactly when the number is neither 1 nor -1; otherwise a boolean whose code is the number. |
| BiPolarUtil.BooleanRoundTrip | org/util/BiPolarUtil.java:37-112 | Decoding the code of a boolean gives the boolean back. |
| BiPolarUtil.BipolarSquare | org/util/BiPolarUtil.java:37-46 | The square of a bipolar code is 1. |
| BiPolarUtil.BipolarToDoubleArray | org/util/BiPolarUtil.java:56-65 | A fresh array of the same length holding the code of each element. |
| BiPolarUtil.DoubleToBipolarArray | org/util/BiPolarUtil.java:125-135 | NotBipolarDecimal exactly when some element is not a code; otherwise a fresh array of booleans whose codes are the input. |
| BiPolarUtil.BipolarToDoubleGrid | org/util/BiPolarUtil.java:75-85 | A fresh array of the same shape holding the code of each cell. |
| BiPolarUtil.DoubleToBipolarGrid | org/util/BiPolarUtil.java:148-159 | NotBipolarDecimal exactly when some cell is not a code; otherwise a fresh array of the same shape whose codes are the input. |
| Hopfield.HopfieldNetwork.constructor | org/neural/HopfieldNetwork.java:25-27 | A network of size n has an n by n all-zero weight matrix, so its diagonal is zero. |
| Hopfield.HopfieldNetwork.GetWeight | org/neural/HopfieldNetwork.java:34-36 | The network's own weight matrix object, not a copy. |
| Hopfield.HopfieldNetwork.GetSize | org/neural/HopfieldNetwork.java:43-47 | The weights are an n by n grid, where n is the size returned. |
| Hopfield.HopfieldNetwork.Present | org/neural/HopfieldNetwork.java:61-111 | HopfieldNetworkError exactly when the pattern length differs from the size; otherwise a fresh array whose element col is true exactly when the dot product of the bipolar pattern with weight column col is above 0. The weights are not changed. |
| Hopfield.HopfieldNetwork.Train | org/neural/HopfieldNetwork.java:124-153 | HopfieldNetworkError with the weights unchanged exactly when the pattern length differs from the size; otherwise the weight matrix is replaced by a fresh one holding the Hebbian update of the old weights. The zero diagonal is kept. |
| Hopfield.OuterAt | org/neural/HopfieldNetwork.java:132-137 | Cell (i, j) of the column matrix times the row matrix of r is r[i] * r[j]. |
| Hopfield.TrainedAt | org/neural/HopfieldNetwork.java:129-148 | Training adds r[i] * r[j] to weight (i, j), less 1 on the diagonal, where r is the bipolar pattern. |
| Hopfield.TrainedKeepsDiagonal | org/neural/HopfieldNetwork.java:140-144 | Training never changes a diagonal weight. |
| Hopfield.TrainKeepsZeroDiagonal | org/neural/HopfieldNetwork.java:140-148 | A zero diagonal survives every training call. |
| Hopfield.TrainCommutes | org/neural/HopfieldNetwork.java:147-148 | Training on a and then b gives the same weights as training on b and then a. |
| Hopfield.RecallUntrained | org/neural/HopfieldNetwork.java:79-109 | An all-zero network answers every pattern with all outputs false. |
| ConsoleHopfield.FormatBoolean | org/implement/ConsoleHopfield.java:17-33 | The result is the text form of the array: its entries, each a letter and a comma, between square brackets. |
| ConsoleHopfield.EntriesAt | org/implement/ConsoleHopfield.java:22-27 | The entries take two characters per element: the element's letter, then a comma. |
| ConsoleHopfield.FormattedAt | org/implement/ConsoleHopfield.java:17-33 | The text form has length 2 + 2n, starts with '[' and ends with ']'; position 2i+1 is 'T' exactly when element i is true, and position 2i+2 is a comma. An empty array gives "[]". |
| ConsoleHopfield.DemoTraining | org/implement/ConsoleHopfield.java:37-47 | One training call on [T,T,F,F] gives the weights [[0,1,-1,-1],[1,0,-1,-1],[-1,-1,0,1],[-1,-1,1,0]]. |
| ConsoleHopfield.DemoRecall | org/implement/ConsoleHopfield.java:52-62 | Those weights recall [T,T,F,F] from itself and from the corrupted [T,F,F,F]. |
| ConsoleHopfield.Demo | org/implement/ConsoleHopfield.java:35-64 | Run on the network object: train a size-4 network on [T,T,F,F], then present [T,T,F,F] and [T,F,F,F]; both answers are [T,T,F,F]. |

## Left out

- `Matrix.randMatrix`: it draws from `Math.random`, which is nondeterministic.
- `Matrix.print` and every console message of `ConsoleHopfield.main`: these are console output with floating-point formatting. `Demo` keeps the scenario and drops the printing.
- `Matrix.getRows` and `Matrix.getCols` are the constant fields `rows` and `cols`, read directly.
- MatrixMath.VectorLengthSquared: returns the sum of squares; the final `Math.sqrt` is floating-point numerics and is not modelled.
- MatrixMath.Divide: requires a nonzero divisor, because division by zero relies on IEEE infinity and NaN.
- Java `double` rounding in general: cells are exact reals.
- Java runtime exceptions are not modelled as values. A negative index is excluded by `nat` parameters. An out-of-range index to the 1-indexed `Matrix.add` is excluded by its `requires`. Building a zero-row matrix through the array constructor reads `matData[0]` and fails; this is excluded by the `requires` of FromArray, CreateColumnMatrix, Clone, GetCol, Divide, Transpose, Add, Subtract, Multiply, the 2D BiPolarUtil conversions and Train (which transposes a one-row matrix).
- Java arrays of arrays are modelled as `array2`, so every two-dimensional input is rectangular.
- The `printStackTrace`-and-continue branches in `Equals`, `Present` and `Train`: under the modelled preconditions their exceptions cannot occur. In `Equals` they are the skipped out-of-range cells.
- The dead allocation of a zero contribution matrix at the start of `train`, which is overwritten before it is read.
- The applet front end, `UtilTest` and the empty exception classes (the latter become variants of `Errors.Error`).

## Findings

| source | as written | input that shows it | evidently intended | confidence | as-written member | corrected member |
|---|---|---|---|---|---|---|
| org/util/Matrix.java:173-177 | `clone()` passes the matrix's own array to the array constructor, which keeps it, so the clone and the original share storage | clone a 1 by 1 zero matrix, then set the original's cell to 7: the clone reads 7 | a clone whose later changes are independent of the original's | not executed | Matrices.Matrix.Clone, Matrices.CloneSharesStorage | Matrices.Matrix.CloneCopy |
| org/util/Matrix.java:196-204 | `equals` compares `this[i][j]` with `other.getElement(i+1, j+1)` and skips the last row and column by swallowing the out-of-bounds exception | [[1, 2], [3, 4]] compared with itself gives false; [[1]] compared with [[2]] gives true | true exactly when the shapes and all cells agree | not executed | Matrices.Matrix.Equals, Matrices.EqualsRejectsItself, Matrices.EqualsMissesDifference | Matrices.Matrix.EqualsCellwise |
