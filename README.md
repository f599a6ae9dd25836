# ToUniform: least-squares CDF fitting and noise-stream shaping, in Dafny

This project models the numeric core of ToUniform over Dafny `real`. ToUniform generates
coloured noise and remaps it back to a uniform distribution. The model has three parts:

- `leastsquaresfit.dfy` covers `LeastSquaresPolynomialFit<N>`. `AddPoint` folds a sample
  into power sums: `ata[k] += x^k` for k in 0..2N, and `aty[k] += x^k * y` for k in 0..N.
  `CalculateCoefficients` builds the augmented matrix `[H | I]` from the Hankel matrix
  `H[r][c] = ata[r + c]`. It then runs Gauss–Jordan elimination, which picks a pivot,
  normalises its row, clears the column and swaps the row into place. Last, it multiplies
  the resulting inverse by `aty`. `Evaluate` computes `sum c[i] * x^i`. The class keeps
  its three `std::array` fields as Dafny arrays, and its methods are loops with
  invariants. Each in-place step on the local matrix (an `array2`) is proved to follow a
  specification function on `seq<seq<real>>`: `Augmented`, `PivotRow`, `Normalize`,
  `Eliminate`, `Swap`, `Step`, `InvertFrom` and `Fit`. The algebra is proved about those
  functions:
  - the unit columns grow by one with every step;
  - the right block `R` satisfies `R * H == I` and `H * R == I`;
  - a successful fit's coefficients solve the normal equations `H * c == aty`;
  - when no pivot is zero, samples taken exactly from a polynomial of degree at most N
    give back that polynomial;
  - the fit does not depend on the order in which samples arrive.

  The pivot rule of the source can stop on an invertible system (see Findings below).
  `PivotStep` is one elimination step at any chosen pivot row. The same step with the
  pivot chosen by magnitude (`MagnitudeInvertFrom`, `MagnitudeFit`) is proved to stop
  only on a singular `H`.
- `mathutils.dfy` covers `Lerp` and `Convolve`. `Convolve` is the source's loop pair,
  with its index clipping and the invariant `indexA + indexB == outIndex`. It is proved
  against the defining sum of a discrete convolution.
- `bluenoisestream.dfy` covers the three `Next` methods of `BlueNoiseStreamLUT`,
  `BlueNoiseStreamPolynomial` and `RedNoiseStreamPolynomial`:
  - the three-tap filters and the shift of the two-value history;
  - the CDF table lookup, with its clamped indices and its special-cased endpoints;
  - the branch-free choice of a cubic piece and its Horner evaluation.

  The random draw `RandomFloat01()` is a parameter of `Next` and of the constructors.

`polynomial.dfy` holds the shared helpers: `Pow`, the finite dot product `Dot` and
`PolyValue`, plus their linearity lemmas.
`rowoperations.dfy` holds the row-operation algebra that the `*Recovers` lemmas use
(`RowOperationUndone`, `WeightAddedAtPivot`, `AddedTerm`): a dot product with a
row-combined vector equals one with the original vector once the weight at the pivot
position is adjusted, which is how an elimination step is absorbed into the recording
matrix F.

The source computes in `float` and `double`; the model uses exact reals. Beyond that,
the model differs from the source in one place: the elimination stops when a pivot is
zero, where the source divides by that zero.

The source's casts `int(f)` truncate toward zero, and `Trunc` models them exactly.

## Model

| member | source | states |
|---|---|---|
| `LeastSquaresFit.LeastSquaresPolynomialFit.constructor` | leastsquaresfit.h:102-106 | accumulators and coefficients start at zero; `ata` has 2N+1 entries, `aty` and `coefficients` N+1 |
| `LeastSquaresFit.LeastSquaresPolynomialFit.AddPoint` | leastsquaresfit.h:10-25 | `ata[k] == old(ata[k]) + x^k` for k in 0..2N, `aty[k] == old(aty[k]) + x^k*y` for k in 0..N, coefficients unchanged; keeps `ata[k]` equal to the sum of x^k and `aty[k]` equal to the sum of x^k*y over all samples added |
| `LeastSquaresFit.LeastSquaresPolynomialFit.AddPowers` | leastsquaresfit.h:12-17 | the first loop adds x^k to every `ata[k]` and changes nothing else |
| `LeastSquaresFit.LeastSquaresPolynomialFit.AddWeightedPowers` | leastsquaresfit.h:19-24 | the second loop adds x^k*y to every `aty[k]` and changes nothing else |
| `LeastSquaresFit.SumsAppend` | leastsquaresfit.h:10-25 | the sums for two batches of samples add up to the sums for the two batches concatenated, so accumulators can be merged |
| `LeastSquaresFit.SumsPermutation` | leastsquaresfit.h:10-25 | the power sums depend only on the multiset of samples, not their order |
| `LeastSquaresFit.FitOrderIndependent` | leastsquaresfit.h:10-86 | two sample sequences that are permutations of each other give the same accumulators and the same fit |
| `LeastSquaresFit.Augmented` | leastsquaresfit.h:29-38 | the start matrix has N+1 rows of 2(N+1) entries; the left block is Hankel (`m[r][c] == ata[r+c]`) and therefore symmetric; the right block is the identity |
| `LeastSquaresFit.BuildAugmented` | leastsquaresfit.h:30-38 | the nested loops fill a fresh array with exactly `Augmented(ata)`; every index `ix + iy` stays inside `ata` |
| `LeastSquaresFit.FillRow` | leastsquaresfit.h:33-37 | the inner loop writes row iy of the augmented matrix and leaves the other rows alone |
| `LeastSquaresFit.PivotRow` | leastsquaresfit.h:43-53 | the pivot row p has t <= p <= N, its entry in column t is >= every entry at or below the diagonal, and the earlier rows have strictly smaller entries (first maximum wins) |
| `LeastSquaresFit.PivotUnique` | leastsquaresfit.h:43-53 | the pivot rule picks exactly one row |
| `LeastSquaresFit.FindPivot` | leastsquaresfit.h:43-53 | the search loop returns a row satisfying the pivot rule, together with its value |
| `LeastSquaresFit.Normalize` | leastsquaresfit.h:55-57 | the definition `NormalizeRow` follows: row p multiplied back by d gives the old row p, and every other row is unchanged |
| `LeastSquaresFit.Eliminate` | leastsquaresfit.h:59-69 | the definition `EliminateColumn` follows: the pivot row is unchanged, and when its entry in column t is 1 every other row ends with 0 in column t |
| `LeastSquaresFit.Swap` | leastsquaresfit.h:71-76 | the definition `SwapRows` follows: rows p and t are exchanged and every other row is unchanged |
| `LeastSquaresFit.PivotStep` | leastsquaresfit.h:55-76 | one pass at pivot row p (t <= p <= N) fails exactly when the entry at row p, column t is 0; otherwise the new row t has 1 in column t and every other row has 0 there |
| `LeastSquaresFit.PivotStepUnitColumns` | leastsquaresfit.h:55-76 | a pass at any pivot row at or below the diagonal keeps the unit columns before t and adds column t to them |
| `LeastSquaresFit.Step` | leastsquaresfit.h:43-76 | the source's pass, with the pivot chosen by `PivotRow`: it fails exactly when the chosen pivot is 0; otherwise the new row t has 1 in column t and every other row has 0 there |
| `LeastSquaresFit.InvertFrom` | leastsquaresfit.h:41-77 | the definition `InvertInPlace` follows: the loop over columns t..N, None at the first zero pivot, otherwise a matrix of the same shape; what it achieves is in the rows `InverseOnSuccess` and `RightInverseOnSuccess` |
| `LeastSquaresFit.Fit` | leastsquaresfit.h:27-86 | the definition `CalculateCoefficients` follows: None exactly when the elimination meets a zero pivot, otherwise N+1 coefficients; what they satisfy is in the rows `FitSolvesNormalEquations` and `ExactFit` |
| `LeastSquaresFit.StepInvariant` | leastsquaresfit.h:55-76 | one step keeps every row equal to (its right block) * H and keeps the columns before t unit columns, so after column t columns 0..t are unit columns |
| `LeastSquaresFit.InvertFromInvariant` | leastsquaresfit.h:41-77 | the remaining loop keeps both invariants up to the last column |
| `LeastSquaresFit.InitialConsistent` | leastsquaresfit.h:29-38 | at the start every row equals (its right block) * H, because the right block is I |
| `LeastSquaresFit.NormalizeConsistent` | leastsquaresfit.h:55-57 | dividing row p by a nonzero d keeps every row equal to (its right block) * H |
| `LeastSquaresFit.EliminateConsistent` | leastsquaresfit.h:59-69 | subtracting multiples of the pivot row from the other rows keeps every row equal to (its right block) * H |
| `LeastSquaresFit.SwapConsistent` | leastsquaresfit.h:71-76 | exchanging rows p and t keeps every row equal to (its right block) * H |
| `LeastSquaresFit.PivotStepConsistent` | leastsquaresfit.h:55-76 | a successful pass at any pivot row keeps every row equal to (its right block) * H |
| `LeastSquaresFit.InvertFromConsistent` | leastsquaresfit.h:41-77 | when the remaining loop succeeds, its result still has every row equal to (its right block) * H |
| `LeastSquaresFit.InvertFromUnitColumns` | leastsquaresfit.h:41-77 | when the remaining loop succeeds, every column of its left block is a unit column |
| `LeastSquaresFit.InverseOnSuccess` | leastsquaresfit.h:40-77 | when no pivot is zero, the left block ends as the identity and the right block R satisfies R * H == I |
| `LeastSquaresFit.InitialRecovers` | leastsquaresfit.h:29-38 | the start matrix is recovered from itself by the identity: `A == I * A` for the augmented matrix A, the base of the right-inverse argument |
| `LeastSquaresFit.NormalizeRecovers` | leastsquaresfit.h:55-57 | dividing row p by a nonzero d is undone by multiplying column p of the row-operation matrix F by d, so `F * m == A` (A the augmented matrix) still holds |
| `LeastSquaresFit.EliminateRecovers` | leastsquaresfit.h:59-69 | subtracting multiples of the pivot row is undone by adding those multiples into column p of F, so `F * m == A` (A the augmented matrix) still holds |
| `LeastSquaresFit.SwapRecovers` | leastsquaresfit.h:71-76 | exchanging rows p and t is undone by exchanging columns p and t of F, so `F * m == A` (A the augmented matrix) still holds |
| `LeastSquaresFit.PivotStepRecovers` | leastsquaresfit.h:43-76 | a successful elimination step, at whichever row is the pivot, keeps `F * m == A` (A the augmented matrix) for a suitably updated F |
| `LeastSquaresFit.InvertFromRecovers` | leastsquaresfit.h:41-77 | the whole remaining elimination keeps `F * m == A` (A the augmented matrix) for some F |
| `LeastSquaresFit.RightInverseOnSuccess` | leastsquaresfit.h:40-77 | when no pivot is zero, row i of H times column j of the final right block R is 1 for i == j and 0 otherwise: `H * R == I` |
| `LeastSquaresFit.FitSolvesNormalEquations` | leastsquaresfit.h:27-86 | when no pivot is zero, the returned coefficients c satisfy `sum over j of H[k][j] * c[j] == aty[k]` for every k: the fit solves the normal equations |
| `LeastSquaresFit.NormalizeRow` | leastsquaresfit.h:55-57 | dividing row p by its pivot value in place gives `Normalize(m, p, d)` |
| `LeastSquaresFit.EliminateColumn` | leastsquaresfit.h:59-69 | the row loop subtracts `m[row][t]` times the pivot row from every row except the pivot row, giving `Eliminate(m, p, t)` |
| `LeastSquaresFit.SubtractRowInPlace` | leastsquaresfit.h:65-68 | the column loop replaces one row by row - pivot row * multiplier and leaves every other row alone |
| `LeastSquaresFit.SwapRows` | leastsquaresfit.h:71-76 | exchanging rows p and t column by column gives `Swap(m, p, t)` |
| `LeastSquaresFit.InvertInPlace` | leastsquaresfit.h:40-77 | the in-place elimination succeeds exactly when the functional elimination does, and then the array holds its result |
| `LeastSquaresFit.MultiplyRight` | leastsquaresfit.h:79-85 | `coefficients[i] == sum over j of m[i][N+1+j] * aty[j]`, the right block times `aty` |
| `LeastSquaresFit.LeastSquaresPolynomialFit.CalculateCoefficients` | leastsquaresfit.h:27-86 | succeeds exactly when no pivot is zero, and then the coefficients are `Fit(ata, aty)`; otherwise they are unchanged; the accumulators are never touched |
| `LeastSquaresFit.SignedPivotStopsOnSamples` | leastsquaresfit.h:43-57 | for the samples x = 1, 3, 4, -0.5 (any y) and N = 2, the Hankel matrix is nonsingular, yet the fit is None: the signed rule picks a 0 pivot in column 1 over the -6.5 below it |
| `LeastSquaresFit.ZeroPivotSums` | leastsquaresfit.h:10-25 | the samples at x = 1, 3, 4, -0.5 accumulate the power sums 4, 7.5, 26.25, 91.875, 338.0625, whatever their y |
| `LeastSquaresFit.ZeroPivotHankelNonsingular` | leastsquaresfit.h:29-38 | the 3 x 3 Hankel matrix built from those sums maps only the zero vector to 0 |
| `LeastSquaresFit.ZeroPivotFirstStep` | leastsquaresfit.h:43-76 | the first pass on that matrix succeeds and leaves 0 at row 1 and -6.5 at row 2 of column 1 |
| `LeastSquaresFit.MagnitudePivotRow` | leastsquaresfit.h:43-53 | the corrected pivot rule: t <= p <= N, the entry at row p has the largest absolute value in column t from the diagonal down, and earlier rows have strictly smaller ones |
| `LeastSquaresFit.MagnitudeFit` | leastsquaresfit.h:27-86 | the fit with the corrected pivot rule is None exactly when its elimination is, otherwise N+1 coefficients |
| `LeastSquaresFit.MagnitudeInvertFromRecovers` | leastsquaresfit.h:41-77 | the elimination with the corrected rule keeps `F * m == A` (A the augmented matrix) for some F |
| `LeastSquaresFit.MagnitudeInvertFromUnitColumns` | leastsquaresfit.h:41-77 | when the elimination with the corrected rule succeeds, every column of its left block is a unit column |
| `LeastSquaresFit.MagnitudeStopsOnSingular` | leastsquaresfit.h:41-77 | with the pivot chosen by magnitude, a run that stops has met a column that is zero from the diagonal down, and then H has a nonzero kernel vector |
| `LeastSquaresFit.StuckColumnSingular` | leastsquaresfit.h:55-57 | a column that is zero from the diagonal down, after unit columns before it, gives a nonzero vector that H maps to 0 |
| `LeastSquaresFit.MagnitudeFitSucceedsWhenNonsingular` | leastsquaresfit.h:40-77 | with the pivot chosen by magnitude, the fit succeeds on every nonsingular H |
| `LeastSquaresFit.MagnitudeFitSolvesNormalEquations` | leastsquaresfit.h:27-86 | with the pivot chosen by magnitude, a successful fit's coefficients satisfy H c == aty |
| `LeastSquaresFit.MagnitudePivotFitsSamples` | leastsquaresfit.h:43-57 | with the pivot chosen by magnitude, the samples that stop the source's rule are fitted |
| `LeastSquaresFit.FitRecoversSolution` | leastsquaresfit.h:79-85 | if p solves the normal equations H p == aty, a successful fit returns exactly p |
| `LeastSquaresFit.NormalEquationsOfExactSamples` | leastsquaresfit.h:10-25 | samples lying on a polynomial p of degree <= N make the accumulated sums satisfy H p == aty |
| `LeastSquaresFit.ExactFit` | leastsquaresfit.h:10-86 | fitting samples taken exactly from a polynomial of degree <= N gives back its coefficients whenever no pivot is zero |
| `LeastSquaresFit.LeastSquaresPolynomialFit.Evaluate` | leastsquaresfit.h:88-100 | returns the sum of `coefficients[i] * x^i` (ascending powers) and changes nothing |
| `MathUtils.Lerp` | mathutils.h:5-8 | `Lerp(A,B,0) == A`, `Lerp(A,B,1) == B`, and for t in [0,1] the result lies between A and B |
| `MathUtils.LerpMonotone` | mathutils.h:5-8 | for A <= B the interpolation does not decrease as t grows |
| `MathUtils.Convolve` | mathutils.h:10-38 | the output has length size(A)+size(B)-1 and out[k] is the sum of A[i]*B[j] over i+j == k; the inner loop keeps `indexA + indexB == outIndex` with both accesses in bounds |
| `MathUtils.PrefixOutsideB` | mathutils.h:20-27 | the terms the clipping step skips (indexA below outIndex-size(B)+1) have no partner in B and add 0 |
| `MathUtils.TailOutsideB` | mathutils.h:29-34 | the terms after the inner loop stops (indexB < 0) have no partner in B and add 0 |
| `MathUtils.ConvolveWithImpulse` | mathutils.h:10-38 | convolving with the unit impulse [1] gives back A |
| `BlueNoiseStream.Trunc` | BlueNoiseStream.h:103 | `int(f)` truncates toward zero: it is floor(f) for f >= 0 and never negative for f > -1 |
| `BlueNoiseStream.BlueFilter` | BlueNoiseStream.h:17-24 | inputs in [0,1] give an output in [-1,1], and in (-1,1) when the inputs are below 1; the taps 0.5, -1, 0.5 sum to 0, so a constant signal gives 0 |
| `BlueNoiseStream.ToUnit` | BlueNoiseStream.h:29-30 | `y * 0.5 + 0.5` maps [-1,1] onto [0,1] and (-1,1) into (0,1) |
| `BlueNoiseStream.RedFilter` | BlueNoiseStream.h:197-204 | the taps 0.25, 0.5, 0.25 sum to 1: inputs in [0,1] (or [0,1)) give an output in [0,1] (or [0,1)), and a constant signal passes unchanged |
| `BlueNoiseStream.LutIsCdf` | BlueNoiseStream.h:33-100 | the table has 64 entries, increases strictly and lies strictly between 0 and 1 |
| `BlueNoiseStream.LutOrdered` | BlueNoiseStream.h:33-99 | any two table entries are ordered like their positions |
| `BlueNoiseStream.LutIndexOf` | BlueNoiseStream.h:102-105 | for x*63 > -1: 0 <= xindex1 <= 63, xindex2 == min(xindex1+1, 63), fraction in [0,1); for x in [0,1], xindex1 + fraction == x*63; from x >= 1 on, xindex1 == 63 with fraction 0 |
| `BlueNoiseStream.LutIndexMonotone` | BlueNoiseStream.h:102-105 | a larger x reads the table at the same cell with a larger fraction, or at a later cell |
| `BlueNoiseStream.LutCdf` | BlueNoiseStream.h:102-115 | returns exactly 0 at x == 0 and exactly 1 for x >= 1; for x in (0,1) it returns `Lerp(LUT[xindex1], LUT[xindex1+1], fraction)`; always in [0,1] |
| `BlueNoiseStream.LutCdfBracketed` | BlueNoiseStream.h:107-115 | for x in (0,1) the result lies between the two table entries it interpolates |
| `BlueNoiseStream.LutCdfMonotone` | BlueNoiseStream.h:32-115 | the table lookup is itself a CDF: nondecreasing in x on [0, infinity) |
| `BlueNoiseStream.LutCdfSameCell` | BlueNoiseStream.h:107-115 | within one table cell the result grows with the fraction |
| `BlueNoiseStream.PieceOffset` | BlueNoiseStream.h:167 | `first = min(int(x*4),3)*4` is 0, 4, 8 or 12, so `first+3 <= 15`; it selects the quarter of [0,1] holding x, with the last quarter also taking x >= 1 |
| `BlueNoiseStream.Horner` | BlueNoiseStream.h:168 | the Horner form equals `c[first+3] + c[first+2]*x + c[first+1]*x^2 + c[first]*x^3`, the cubic whose coefficients run from the highest power down |
| `BlueNoiseStream.PiecewiseCubic` | BlueNoiseStream.h:159-168 | the result is the selected piece's cubic, evaluated as a polynomial in ascending powers |
| `BlueNoiseStream.PiecewiseCubicEndpoints` | BlueNoiseStream.h:161-168 | the first piece has no constant term, so 0 maps to exactly 0; at 1 the last piece gives 0.99999 |
| `BlueNoiseStream.BlueNoiseStreamLUT.constructor` | BlueNoiseStream.h:6-11 | the history starts with two random draws in [0,1] |
| `BlueNoiseStream.BlueNoiseStreamLUT.Next` | BlueNoiseStream.h:13-116 | shifts the history (`lastValues[1] == old(lastValues[0])`, `lastValues[0] == value`) and returns the table lookup of the normalised blue-filtered value, which lies in [0,1] |
| `BlueNoiseStream.BlueNoiseStreamPolynomial.constructor` | BlueNoiseStream.h:133-138 | the history starts with two random draws in [0,1] |
| `BlueNoiseStream.BlueNoiseStreamPolynomial.Next` | BlueNoiseStream.h:140-169 | shifts the history the same way and returns the piecewise cubic at the normalised blue-filtered value |
| `BlueNoiseStream.RedNoiseStreamPolynomial.constructor` | BlueNoiseStream.h:186-191 | the history starts with two random draws in [0,1] |
| `BlueNoiseStream.RedNoiseStreamPolynomial.Next` | BlueNoiseStream.h:193-221 | shifts the history the same way and returns the piecewise cubic at the red-filtered value |

## Left out

- Floating-point rounding is not modelled. Every `float` and `double` is a `real`, so
  nothing here is bit-exact. That covers the source's double-precision accumulation and
  its `(float)` casts, such as the result of `Evaluate`.
- `LeastSquaresFit.LeastSquaresPolynomialFit.CalculateCoefficients` returns `false` at
  the first zero pivot and leaves the coefficients unchanged. The source divides by the
  zero pivot and fills the coefficients with infinities or NaNs, which reals cannot express.
- The fit's template parameter N is a constructor argument, `n`.
- `MathUtils.Convolve` requires at least one input to be nonempty. With both inputs
  empty, the source asks for a vector of size -1.
- Each `Next` and each stream constructor takes the random draw as a parameter in [0,1].
  That draw stands in for `RandomFloat01`, the PCG generator and `ldexpf`, which are not
  part of this model. The interval is closed because converting a 32-bit draw to `float`
  can round up to 1.
- `BlueNoiseStream.LutIndexOf` and `BlueNoiseStream.PieceOffset` require `x*63 > -1` and
  `x*4 > -1`. Below those bounds, the source's `int()` cast produces a negative array
  index. The streams never reach those bounds.
- The hard-coded cubic coefficients are only an approximation of the CDF table. This
  model does not claim they are close to the table or continuous across pieces.
- The lookup table is written as eight rows of eight entries joined together, instead
  of one flat array.
- Not part of this model: main.cpp (experiment orchestration, printing and CSV output),
  csv.h (`WriteCSV`, file I/O) and MakeHistograms.py (plotting and FFT).
- `CalculateCoefficients` picks the pivot with the largest signed value, not the largest
  magnitude, and the main model keeps that rule. `Evaluate` sums ascending powers in a loop.

## Findings

| source | as written | input that shows it | evidently intended | confidence | as-written member | corrected member |
|---|---|---|---|---|---|---|
| leastsquaresfit.h:43-53 | the pivot of column t is the row with the largest signed entry (`>` on the raw values) | N = 2 with samples at x = 1, 3, 4, -0.5 and any y: the Hankel matrix has determinant 804.375, column 0 pivots on row 2, column 1 then holds 0 and -6.5 below the diagonal, the rule picks the 0, and lines 55-57 divide by it | partial pivoting by magnitude, which stops only when H is singular | high, not executed | `LeastSquaresFit.SignedPivotStopsOnSamples` | `LeastSquaresFit.MagnitudeFitSucceedsWhenNonsingular` |

The in-place methods and `CalculateCoefficients` keep the source's signed rule, since
they model the code as written. The corrected elimination shares `PivotStep` and its
lemmas with them. `MagnitudePivotFitsSamples` shows that it completes the fit of the
samples above, and `MagnitudeFitSolvesNormalEquations` shows that its result solves
the normal equations.
