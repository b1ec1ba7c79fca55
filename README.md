# konpeito-ES3 core in Dafny

konpeito-ES3 is an ECMAScript 3 library for complex numbers and complex
matrices. This project models its discrete, exactly computable core in
Dafny. Numbers are pairs of `real`s instead of IEEE doubles.

- **Complex** (`complex.dfy`, `complex_ext.dfy`, `complex_order.dfy`):
  - construction from a number, a boolean or a two-element array;
  - arithmetic, including the real-only and imaginary-only fast paths of
    `mul` and `div`, plus `dot` (conj(A)·B);
  - the tolerance predicates;
  - the `re + im` total order behind `compareTo`, `max`, `min` and `clip`;
  - `rem` and `mod`;
  - a small extended layer (NaN, ±Infinity) for the branches of
    `compareTo`, `equals`, `equalsState`, `rem`, `mod` and `sign` that test
    non-finite values explicitly.
- **Matrix** (`matrix.dfy`, with the value-level specifications in
  `grid.dfy`, `grid_tests.dfy`, `products.dfy`, `arithmetic.dfy`,
  `select.dfy`, `vectors.dfy`, `reordering.dfy` and `sorting.dfy`):
  - a class holding `matrix_array`, `row_length` and `column_length`;
  - the in-place `_resize`, `_rot90`, `_delete*`, `_exchange*`, `_concat*`
    and `_each` primitives, each with its `clone()._op()` wrapper;
  - elementwise arithmetic with cyclic broadcasting;
  - the matrix product and integer powers;
  - `getMatrix`/`setMatrix`, `eachVector*`, `reshape`, `flip`, `circshift`,
    `transpose`, the conjugate transpose `T()` and the stable index sort;
  - the shape and tolerance predicates, including `isPermutation`.
- **Matrix text input** (`text.dfy`, `matrix_tool.dfy`,
  `matrix_input.dfy`): `trimBracket`, the `match2` segmenter, range
  expansion `a:b` / `a:s:b` through `InterpolationCalculation`, the
  `toMatrixArrayFromString*` family, and the row validation of the
  constructor.
- **Linear algebra** (`elimination.dfy`, `decomposition.dfy`,
  `determinant.dfy`, `solve.dfy`, `inverse.dfy`, `inverse_findings.dfy`,
  `measures.dfy`):
  - pivot search and `rank`;
  - `lup`/`lu` with Pᵀ·L·U = A;
  - the cofactor and LUP determinant;
  - `linsolve` with A·x = b;
  - the Gauss–Jordan `inv` with inv(A)·A = I;
  - `trace`, `inner`, the 1-norm and ∞-norm, and the fast paths of `cond`.
- **Statistics** (`statistics.dfy`): `max`, `min`, `sum`, `mean`, `prod`,
  `median`, `sort` and `variance`. Each per-vector `main` loop is proved
  equal to a recursive specification.
- **Signal** (`fft_bits.dfy`, `fft_cache.dfy`, `signal_tool.dfy`,
  `signal.dfy`, `signal_fixtures.dfy`, `real_sums.dfy`):
  - 32-bit bit reversal and its table;
  - the move-to-front `FFTCache` as a class;
  - direct convolution and cross-correlation;
  - the `Signal.conv`/`xcorr` wrappers and `fftshift`.
- **Polyfill** (`js_number.dfy`, `polyfill.dfy`):
  - the `Math.imul` fallback, proved equal to ToInt32(x·y) (section
    21.3.2.19 of ECMA-262);
  - `Math.trunc`, `Number.isInteger` and `Number.isSafeInteger`;
  - the one-argument `Array.prototype.splice` shim, on a small array class.

Conventions:
- A thrown exception is the `Err` case of `Wrappers.Result`, carrying the
  library's message.
- Code that updates objects in place is modelled as classes and methods
  with `modifies` clauses.
- Loops are methods whose postconditions tie them to recursive functions.
  The properties the library promises are proved about those functions as
  lemmas.

## Model

| member | source | states |
|---|---|---|
| ComplexNum.Abs | src/math/core/Complex.js:337-343 | Math.abs as `norm` applies it to a value on an axis: non-negative and equal to x or -x |
| ComplexNum.Tol | src/math/core/Complex.js:656-669 | `tolerance ? tolerance : Number.EPSILON`: a non-zero tolerance is kept, 0 becomes EPSILON, and the result is never 0 |
| ComplexNum.FromArg | src/math/core/Complex.js:111-170 | the constructor: a number n gives (n, 0), a boolean gives (1 or 0, 0), a pair [a, b] gives (a, b), any other array length throws |
| ComplexNum.FromArgRoundTrip | src/math/core/Complex.js:111-170 | every accepted representation of a value (Complex, pair, `{_re, _im}` record, real number, boolean) constructs that value again |
| ComplexNum.Add | src/math/core/Complex.js:429-435 | add is componentwise |
| ComplexNum.Sub | src/math/core/Complex.js:442-448 | sub is componentwise |
| ComplexNum.Negate | src/math/core/Complex.js:872-874 | negate gives the additive inverse: a + negate(a) == 0 |
| ComplexNum.Conj | src/math/core/Complex.js:860-866 | conj flips the imaginary sign, returns the receiver when it is real, and a + conj(a) is the real 2·re |
| ComplexNum.Mul | src/math/core/Complex.js:455-474 | both fast paths (both real, both purely imaginary) and the general path give the product formula |
| ComplexNum.Dot | src/math/core/Complex.js:481-500 | dot is conj(A)·B on all three paths, not the A·conj(B) its documentation states |
| ComplexNum.NormSqPositive | src/math/core/Complex.js:519-526 | the divisor's squared modulus is never negative and is 0 only for the zero value, so the general division path never divides by 0 for a nonzero divisor |
| ComplexNum.Div | src/math/core/Complex.js:507-527 | div is defined exactly for a nonzero divisor, and then every path gives the quotient a·conj(b)/abs(b)² |
| ComplexNum.DivGeneral | src/math/core/Complex.js:519-526 | the general path (a·conj(b)) · (1 / abs(b)²) is the quotient |
| ComplexNum.QuotientRoundTrip | src/math/core/Complex.js:507-527 | the quotient times the divisor gives the dividend back |
| ComplexNum.DivRealPath | src/math/core/Complex.js:510-513 | the real fast path `(a.re / b.re, b.im)` equals the general quotient |
| ComplexNum.DivImaginaryPath | src/math/core/Complex.js:514-518 | the imaginary fast path `(a.im / b.im, 0)` equals the general quotient |
| ComplexNum.DivGeneralPath | src/math/core/Complex.js:519-526 | the general path's scaled numerator equals the quotient |
| ComplexNum.DivRoundTrip | src/math/core/Complex.js:507-527 | (a / b)·b == a and (a·b) / b == a for every nonzero b |
| ComplexNum.MulCancel | src/math/core/Complex.js:455-474 | a nonzero factor cancels: x·b == y·b implies x == y |
| ComplexNum.ZeroProduct | src/math/core/Complex.js:455-474 | a product with a nonzero factor is zero only when the other factor is |
| ComplexNum.Inv | src/math/core/Complex.js:576-584 | inv (1/re for a real value, (0, -1/im) for an imaginary one, ONE.div(x) otherwise) equals 1 / x and is defined exactly for x != 0 |
| ComplexNum.InvDiv | src/math/core/Complex.js:576-584 | inv(z)·z == 1, and a / z == a·inv(z) |
| ComplexNum.FloorR | src/math/core/Complex.js:808-810 | Math.floor: the integer r with r <= x < r + 1 |
| ComplexNum.CeilR | src/math/core/Complex.js:816-818 | Math.ceil: the integer r with r - 1 < x <= r |
| ComplexNum.RoundR | src/math/core/Complex.js:824-826 | Math.round: the integer r with r - 0.5 <= x < r + 0.5 (halves round up) |
| ComplexNum.Floor | src/math/core/Complex.js:808-810 | floor of both parts |
| ComplexNum.Ceil | src/math/core/Complex.js:816-818 | ceil of both parts |
| ComplexNum.Round | src/math/core/Complex.js:824-826 | round of both parts, halves up |
| ComplexNum.Fix | src/math/core/Complex.js:832-834 | both parts truncated toward zero: an integer of the same sign and at most one unit smaller in magnitude |
| ComplexNum.Fract | src/math/core/Complex.js:840-842 | fract is what floor drops: floor(a) + fract(a) == a, both parts in [0, 1) |
| ComplexNum.TolerancePredicates | src/math/core/Complex.js:1403-1458 | isZero/isOne/isReal compare strictly below the tolerance (a part exactly at it fails), isComplex is not-isReal, isInteger tests the real part with the tolerance and the imaginary part with the default |
| ComplexNum.AddSubInverse | src/math/core/Complex.js:429-448 | sub undoes add and add undoes sub |
| ComplexNum.NegateInvolution | src/math/core/Complex.js:872-874 | negate twice is the identity and a - a == 0 |
| ComplexNum.ConjProperties | src/math/core/Complex.js:860-866 | conj is an involution, distributes over products and sums, and z·conj(z) == (abs(z)², 0) |
| ComplexNum.RingLaws | src/math/core/Complex.js:429-474 | add and mul are commutative and associative, mul distributes over add and sub, ONE and ZERO are the units |
| ComplexNum.MulAssoc | src/math/core/Complex.js:455-474 | mul is associative across its fast paths |
| ComplexNum.MulDistributes | src/math/core/Complex.js:455-474 | mul distributes over add and sub |
| ExtComplex.NumAdd | src/math/core/Complex.js:429-435 | the `+` add applies to each part, on IEEE values: exact on finite parts, NaN when NaN is involved |
| ExtComplex.NumAddCommutes | src/math/core/Complex.js:429-435 | `+` on IEEE values (with infinities and NaN) is commutative, so add is too |
| ExtComplex.NumNeg | src/math/core/Complex.js:872-874 | unary minus keeps a part finite, infinite or NaN |
| ExtComplex.NumAbs | src/math/core/Complex.js:656-669 | `Math.abs` on IEEE values: the magnitude of a finite value, +Infinity for either infinity, NaN for NaN |
| ExtComplex.NumLessStrict | src/math/core/Complex.js:1472-1484 | the `<` that isPositive/isNegative use is irreflexive, asymmetric and total on distinct non-NaN values |
| ExtComplex.XTestsLift | src/math/core/Complex.js:1425-1524 | isFinite holds of every finite value, and isZero and isPositive give the same answers as on the finite model |
| ExtComplex.XIsFiniteMeans | src/math/core/Complex.js:1498-1524 | isFinite (neither NaN nor an infinity in either part) holds exactly of values with two finite parts |
| ExtComplex.XEquals | src/math/core/Complex.js:656-669 | equals is false when either side is NaN, true for two identical non-NaN values, and otherwise only true for finite values |
| ExtComplex.XEqualsLift | src/math/core/Complex.js:656-669 | on finite values equals is the finite model's equals |
| ExtComplex.XEqualsSymmetric | src/math/core/Complex.js:656-669 | equals(a, b) == equals(b, a) on all values, infinities and NaN included |
| ExtComplex.AbsDifferenceSymmetric | src/math/core/Complex.js:667-668 | `Math.abs(x - y) == Math.abs(y - x)` on IEEE values |
| ExtComplex.XState | src/math/core/Complex.js:676-703 | getState gives a class 0..5; class 3 means NaN and every NaN that is not also infinite lands there; classes 3..5 are exactly the non-finite values |
| ExtComplex.XStateLift | src/math/core/Complex.js:676-703 | on finite values getState is the finite model's class |
| ExtComplex.XCompareTo | src/math/core/Complex.js:711-743 | compareTo is NaN (unordered) when either side is NaN |
| ExtComplex.XCompareToLift | src/math/core/Complex.js:711-743 | on finite values compareTo is the finite key comparison |
| ExtComplex.XCompareToInfinity | src/math/core/Complex.js:715-733 | a finite value is below a value with a +Infinity part and above one with a -Infinity part, in both argument orders |
| ExtComplex.XCompareToTwoInfinities | src/math/core/Complex.js:715-733 | +Infinity and -Infinity are unordered, and +Infinity equals itself |
| ExtComplex.XCompareToAntisymmetric | src/math/core/Complex.js:711-743 | for a non-negative tolerance, compareTo(a, b) is less exactly when compareTo(b, a) is more, same and unordered are symmetric, and a non-NaN value is the same as itself |
| ExtComplex.XRem | src/math/core/Complex.js:535-546 | rem throws exactly when an imaginary part is not 0 (NaN included), and a non-finite operand gives NaN |
| ExtComplex.XRemLift | src/math/core/Complex.js:535-546 | on finite values rem is the finite rem, with NaN where the finite model reports a zero divisor |
| ExtComplex.XMod | src/math/core/Complex.js:554-570 | mod throws exactly when an imaginary part is not 0, and a zero divisor returns the dividend |
| ExtComplex.XModNonFinite | src/math/core/Complex.js:554-570 | a non-finite operand with a nonzero divisor makes mod NaN |
| ExtComplex.XModLift | src/math/core/Complex.js:554-570 | on finite values mod is the finite mod as written |
| ExtComplex.XSign | src/math/core/Complex.js:397-418 | sign is left to the division by the norm exactly for finite values off both axes |
| ExtComplex.XSignAxes | src/math/core/Complex.js:409-416 | on an axis sign(c) is 0 for c = 0 and otherwise has modulus 1 with sign(c)·abs(c) == c |
| ExtComplex.ImaginarySign | src/math/core/Complex.js:397-418 | on the imaginary axis the only unit z with z·abs(c) == c is ±i |
| ExtComplex.XSignNonFinite | src/math/core/Complex.js:398-407 | a non-finite value's sign is NaN exactly when it is NaN or has an infinite imaginary part; otherwise 1 for a +Infinity and -1 for a -Infinity real part |
| ComplexOrder.Compare | src/math/core/Complex.js:734-742 | compareTo on finite values is never unordered; it is 0 exactly when the keys re+im are at most the tolerance apart, 1 only for a larger key, -1 only for a smaller key (or a negative tolerance) |
| ComplexOrder.CompareAntisymmetric | src/math/core/Complex.js:711-743 | with a non-negative tolerance compareTo is reflexive, its 0 is symmetric, and a < b exactly when b > a |
| ComplexOrder.CompareNegativeTolerance | src/math/core/Complex.js:734 | a negative tolerance is truthy and used as given, so compareTo(a, a) is -1 |
| ComplexOrder.CompareTransitive | src/math/core/Complex.js:734-742 | strictly-less is transitive, also across a detour through an equal value (the keys form a semiorder) |
| ComplexOrder.CompareByKey | src/math/core/Complex.js:735-736 | values with equal keys re+im compare alike against any value |
| ComplexOrder.Equals | src/math/core/Complex.js:656-669 | equals holds for identical values, and otherwise exactly when both parts are strictly closer than the tolerance |
| ComplexOrder.EqualsSymmetric | src/math/core/Complex.js:656-669 | equals(a, b) == equals(b, a) |
| ComplexOrder.EqualsCloseKeys | src/math/core/Complex.js:656-669 | values equal within a tolerance have keys less than twice the tolerance apart |
| ComplexOrder.State | src/math/core/Complex.js:681-697 | getState on finite values: 0 exactly for zero, 1 exactly for a nonzero value with a positive real part, 2 otherwise |
| ComplexOrder.Max | src/math/core/Complex.js:750-758 | max returns one of its operands, the receiver unless it compares strictly less, and the result compares at least as large as both |
| ComplexOrder.Min | src/math/core/Complex.js:765-773 | min returns one of its operands, the receiver unless it compares strictly greater, and the result compares at most as large as both |
| ComplexOrder.Clip | src/math/core/Complex.js:781-798 | clip throws exactly when min > max, returns min when min and max compare equal, otherwise returns x, min or max and the result lies between min and max; x already in range is returned |
| ComplexOrder.RemProperties | src/math/core/Complex.js:544 | a - b·trunc(a/b) is smaller than b in magnitude, is zero or has the sign of a, and differs from a by an integer multiple of b |
| ComplexOrder.Rem | src/math/core/Complex.js:535-546 | rem throws exactly when an imaginary part is nonzero, succeeds exactly for real operands with a divisor that is not zero, and its real result is smaller than the divisor and has the dividend's sign |
| ComplexOrder.RemQuotient | src/math/core/Complex.js:535-546 | rem's result differs from the dividend by an integer multiple of the divisor |
| ComplexOrder.ModAsWritten | src/math/core/Complex.js:554-570 | mod as written throws exactly when an imaginary part is nonzero, returns the dividend for a zero divisor, and otherwise adds the divisor back whenever the two operands are in different equalsState classes |
| ComplexOrder.ModAsWrittenZeroRemainder | src/math/core/Complex.js:554-570 | mod(-6, 3) and mod(0, 3) as written give 3 |
| ComplexOrder.ModAsWrittenAddsBack | src/math/core/Complex.js:565-566 | a zero remainder between operands of different equalsState classes comes back as the divisor |
| ComplexOrder.ModZeroRemainder | src/math/core/Complex.js:548-553 | the corrected mod gives 0 for mod(-6, 3) and mod(0, 3) |
| ComplexOrder.RemExamples | src/math/core/Complex.js:535-546 | rem(-6, 3) and rem(0, 3) are 0 |
| ComplexOrder.Mod | src/math/core/Complex.js:548-570 | the corrected mod keeps the errors and the zero-divisor case and returns a value smaller than the divisor that is zero or has the divisor's sign |
| ComplexOrder.ModQuotient | src/math/core/Complex.js:548-570 | the corrected mod differs from the dividend by an integer multiple of the divisor |
| ComplexOrder.ModAgreement | src/math/core/Complex.js:554-570 | where the remainder and the dividend are nonzero, mod as written equals the corrected mod |
| Grid.RectShape | src/math/core/Matrix.js:387-401 | a grid that passes isCorrectMatrixArray has |m| rows of Cols(m) > 0 cells each |
| Grid.ShapeRect | src/math/core/Matrix.js:387-401 | an r×c grid with r, c > 0 passes isCorrectMatrixArray and has c columns |
| Grid.GridEq | src/math/core/Matrix.js:846-865 | two grids of one shape that agree cell by cell are the same grid |
| Grid.Transpose | src/math/core/Matrix.js:3580-3589 | transpose of an r×c grid is c×r with cell (i, j) taken from (j, i) |
| Grid.TransposeInvolution | src/math/core/Matrix.js:3580-3589 | transposing twice gives the grid back |
| Grid.ConjGrid | src/math/core/Matrix.js:2205-2209 | conj keeps the shape and conjugates every cell |
| Grid.CTranspose | src/math/core/Matrix.js:3595-3605 | ctranspose (T()) of an r×c grid is c×r with cell (i, j) the conjugate of (j, i) |
| Grid.CTransposeInvolution | src/math/core/Matrix.js:3595-3605 | T() applied twice gives the grid back |
| Grid.CTransposeOfReal | src/math/core/Matrix.js:3595-3605 | on a real grid T() is the plain transpose |
| Grid.FlattenAt | src/math/core/Matrix.js:3406-3430 | row-major order puts cell (i, j) of an r×c grid at index i·c + j of r·c cells |
| Grid.FlattenLength | src/math/core/Matrix.js:3406-3430 | an r×c grid has r·c cells in row-major order |
| Grid.Unflatten | src/math/core/Matrix.js:3406-3430 | reshape's refill: an r×c grid whose cell (i, j) is element i·c + j |
| Grid.FlattenUnflatten | src/math/core/Matrix.js:3406-3430 | filling a grid row by row and reading it back gives the same cells |
| Grid.UnflattenSplit | src/math/core/Matrix.js:3406-3430 | the refilled grid's first row is the first c cells and its other rows are the rest refilled |
| Grid.UnflattenFlatten | src/math/core/Matrix.js:3406-3430 | reshaping a grid to its own shape gives it back |
| Grid.Resized | src/math/core/Matrix.js:3099-3135 | _resize gives an r×c grid keeping the overlapping cells and ZERO in the new ones |
| Grid.ResizeRoundTrip | src/math/core/Matrix.js:3099-3135 | growing a grid and shrinking it back restores it |
| Grid.ResizeSame | src/math/core/Matrix.js:3099-3135 | resizing to the grid's own shape changes nothing |
| Grid.DeleteRowAt | src/math/core/Matrix.js:3154-3163 | _deleteRow drops exactly row k; rows before it stay, rows after it move up one |
| Grid.DeleteColumnAt | src/math/core/Matrix.js:3171-3182 | _deleteColumn drops exactly column k of every row |
| Grid.SwapRows | src/math/core/Matrix.js:3209-3223 | _exchangeRow swaps rows a and b and keeps every other row |
| Grid.SwapRowsInvolution | src/math/core/Matrix.js:3209-3223 | exchanging the same two rows twice restores the grid; exchanging a row with itself changes nothing |
| Grid.SwapColumns | src/math/core/Matrix.js:3232-3248 | _exchangeColumn swaps cells a and b in every row |
| Grid.ConcatRight | src/math/core/Matrix.js:3276-3289 | _concatRight of r×c and r×d grids is r×(c+d), row i being row i of the left followed by row i of the right |
| Grid.ConcatRightCells | src/math/core/Matrix.js:3276-3289 | the left cells keep their positions and right cell (i, j) lands at (i, c + j) |
| Grid.ConcatBottom | src/math/core/Matrix.js:3297-3308 | _concatBottom stacks the rows: the first |m| rows are m and the rest are n |
| Grid.ConcatBottomTranspose | src/math/core/Matrix.js:3276-3308 | concatenating to the bottom is concatenating to the right of the transposes, transposed |
| Grid.Rot1 | src/math/core/Matrix.js:3038-3052 | one quarter turn of an R×C grid is C×R with cell (i, j) from m[R-1-j][i] |
| Grid.Rot2 | src/math/core/Matrix.js:3053-3060 | a half turn keeps the shape with cell (i, j) from m[R-1-i][C-1-j] |
| Grid.Rot3 | src/math/core/Matrix.js:3061-3075 | three quarter turns give a C×R grid with cell (i, j) from m[j][C-1-i] |
| Grid.RotTwice | src/math/core/Matrix.js:3020-3080 | two single quarter turns are the half turn |
| Grid.RotThrice | src/math/core/Matrix.js:3020-3080 | a quarter turn after a half turn is the three-quarter turn |
| Grid.RotThriceCell | src/math/core/Matrix.js:3020-3080 | each cell of a quarter turn after a half turn is the three-quarter turn's cell |
| Grid.TurnsFour | src/math/core/Matrix.js:3020-3080 | four quarter turns restore the grid |
| Grid.RotFourTimes | src/math/core/Matrix.js:3020-3080 | a quarter turn after a three-quarter turn restores the grid |
| Grid.RotatedTurns | src/math/core/Matrix.js:3020-3080 | the rot_type cases 0..3 of _rot90 are that many single quarter turns |
| Grid.TurnsAdd | src/math/core/Matrix.js:3020-3080 | t quarter turns followed by u quarter turns are t + u quarter turns |
| Grid.TurnsMod | src/math/core/Matrix.js:3020-3080 | k quarter turns are k mod 4 quarter turns |
| Grid.TurnsPeriod | src/math/core/Matrix.js:3020-3080 | four more quarter turns change nothing |
| Grid.RotatedAdd | src/math/core/Matrix.js:3020-3080 | a turn of type t then u is a turn of type (t + u) mod 4 |
| Grid.Reversed | src/math/core/Matrix.js:3459-3465 | flip's main reverses a vector: element i is element n-1-i |
| Grid.ReversedInvolution | src/math/core/Matrix.js:3453-3467 | flipping twice restores the vector |
| Grid.JsRem | src/math/core/Matrix.js:3375-3385 | JavaScript `%` on integers: magnitude below n, Euclidean for a non-negative dividend and the negated residue of -x for a negative one |
| Grid.JsRemNormalised | src/math/core/Matrix.js:3375-3385 | `((x % n) + n) % n` with JavaScript's `%` is the Euclidean residue x mod n |
| Grid.ModUnique | src/math/core/Matrix.js:3375-3385 | a = k·n + r with 0 <= r < n fixes a mod n = r and a div n = k |
| Grid.Shifted | src/math/core/Matrix.js:3375-3385 | circshift's main rotates a vector k places: y[i] = x[(i - k) mod n], same length |
| Grid.ShiftedCompose | src/math/core/Matrix.js:3368-3387 | shifting by k then by l is shifting by k + l |
| Grid.ShiftedCell | src/math/core/Matrix.js:3368-3387 | each element of a shift by k then l is the element of a shift by k + l |
| Grid.ShiftedWhole | src/math/core/Matrix.js:3368-3387 | a shift by 0 or by the vector's length changes nothing |
| Grid.ModSub | src/math/core/Matrix.js:3375-3385 | subtracting k after reducing mod n gives the residue of a - k |
| Grid.Column | src/math/core/Matrix.js:1069-1085 | the column vector eachVectorColumn hands out: |m| cells, cell i being m[i][j] |
| Grid.Tiled | src/math/core/Matrix.js:946-966 | the cyclic read of createMatrixDoEachCalculation: a 1×1 grid gives its one cell everywhere |
| Grid.TiledInside | src/math/core/Matrix.js:946-966 | inside the grid the cyclic read is the plain read |
| Grid.TiledRow | src/math/core/Matrix.js:946-966 | a single row is read again for every row index |
| Grid.Broadcast | src/math/core/Matrix.js:1821-1834 | the cellwise operators produce max(r1, r2) × max(c1, c2) cells, each op applied to the cyclically read cells of both operands |
| Grid.MapGrid | src/math/core/Matrix.js:903-937 | cloneMatrixDoEachCalculation keeps the shape and maps every cell |
| Grid.MatMul | src/math/core/Matrix.js:1862-1907 | mul of r×n and n×c grids is r×c with cell (i, j) the row-column sum Σ a[i][k]·b[k][j] |
| Grid.Eye | src/math/core/Matrix.js:1384-1388 | eye(r, c) is r×c with ONE on the diagonal and ZERO elsewhere |
| GridTests.MatTol | src/math/core/Matrix.js:1723 | `tolerance ? tolerance : 1.0e-10`: never 0, and a nonzero tolerance is kept |
| GridTests.PermScanStart | src/math/core/Matrix.js:1724-1725 | the scan invariant of isPermutation holds with no cell scanned and nothing marked |
| GridTests.PermScanNextRow | src/math/core/Matrix.js:1726-1727 | a finished row hands the invariant on to the start of the next row |
| GridTests.PermScanZero | src/math/core/Matrix.js:1738-1740 | a zero cell is passed over and the invariant moves one cell on |
| GridTests.PermScanOne | src/math/core/Matrix.js:1729-1733 | a one in an unmarked row and column marks both and keeps the invariant |
| GridTests.PermScanStray | src/math/core/Matrix.js:1738-1740 | a cell that is neither one nor zero means the grid is not a permutation matrix, so `return false` is right |
| GridTests.PermScanSecondOne | src/math/core/Matrix.js:1734-1736 | a one in an already marked row or column means the grid is not a permutation matrix |
| GridTests.PermScanAllMarked | src/math/core/Matrix.js:1743-1748 | a full scan with every row and column marked means the grid is a permutation matrix, so `return true` is right |
| GridTests.PermScanMarksHaveOnes | src/math/core/Matrix.js:1726-1748 | after a full scan a marked row or column holds the one that marked it |
| GridTests.PermScanOnesAreSingle | src/math/core/Matrix.js:1726-1742 | after a full scan no row and no column holds two ones |
| GridTests.PermScanUnmarked | src/math/core/Matrix.js:1743-1747 | after a full scan an unmarked row or column means the grid is not a permutation matrix |
| GridTests.EyeTests | src/math/core/Matrix.js:1543-1712 | eye(n) passes isIdentity, isDiagonal, isTriangleUpper, isTriangleLower, isSymmetric and isHermitian for any non-negative tolerance |
| GridTests.EyePermutation | src/math/core/Matrix.js:1719-1749 | eye(n) passes isPermutation whenever the tolerance keeps ONE and ZERO apart |
| GridTests.SwapRowsPermutation | src/math/core/Matrix.js:3209-3223 | exchanging two rows of a permutation matrix gives a permutation matrix |
| GridTests.SwappedRowsHaveOne | src/math/core/Matrix.js:3209-3223 | after a row exchange every row of a permutation matrix still holds a one |
| GridTests.SwappedColumnsHaveOne | src/math/core/Matrix.js:3209-3223 | after a row exchange every column still holds a one and the shape is kept |
| GridTests.SwappedColumnsSingle | src/math/core/Matrix.js:3209-3223 | after a row exchange no column holds two ones |
| GridTests.TriangularDiagonal | src/math/core/Matrix.js:1568-1712 | isDiagonal holds exactly when isTriangleUpper and isTriangleLower both hold; isIdentity implies isDiagonal and isDiagonal implies isTridiagonal |
| GridTests.TransposeTriangular | src/math/core/Matrix.js:1687-1712 | a matrix is upper triangular exactly when its transpose is lower triangular |
| GridTests.SymmetricRealHermitian | src/math/core/Matrix.js:1642-1680 | a real matrix that passes isSymmetric passes isHermitian |
| Products.SumSingle | src/math/core/Matrix.js:1896-1899 | a running sum from ZERO with a single nonzero term is that term |
| Products.SumAdd | src/math/core/Matrix.js:1896-1899 | running sums of termwise sums add |
| Products.SumScaleLeft | src/math/core/Matrix.js:1896-1899 | a left factor distributes over a running sum |
| Products.SumScaleRight | src/math/core/Matrix.js:1896-1899 | a right factor distributes over a running sum |
| Products.SumSwap | src/math/core/Matrix.js:1896-1899 | the order of summation of a double sum does not matter |
| Products.RowColumnSum | src/math/core/Matrix.js:1896-1899 | mul's inner loop adds the terms a[i][k]·b[k][j] in order from ZERO |
| Products.MatMulCell | src/math/core/Matrix.js:1892-1905 | cell (i, j) of mul is the sum of a[i][k]·b[k][j] over k |
| Products.AssocCell | src/math/core/Matrix.js:1892-1905 | each cell of (a b) c equals that cell of a (b c) |
| Products.MatMulAssoc | src/math/core/Matrix.js:1862-1907 | matrix mul is associative: (a b) c == a (b c) |
| Products.EyeLeftCell | src/math/core/Matrix.js:1384-1388 | each cell of eye · a is that cell of a |
| Products.EyeRightCell | src/math/core/Matrix.js:1384-1388 | each cell of a · eye is that cell of a |
| Products.MatMulEye | src/math/core/Matrix.js:1862-1907 | eye is neutral for mul on both sides |
| Products.MatMulZero | src/math/core/Matrix.js:1862-1907 | a product with an all-zero right factor is all zero |
| Products.MatPow | src/math/core/Matrix.js:2232-2256 | the n-th power of a square grid is a square grid of the same size |
| Products.MatPowOne | src/math/core/Matrix.js:2232-2256 | a^1 == a |
| Products.MatPowAdd | src/math/core/Matrix.js:2232-2256 | a^m a^n == a^(m+n) |
| Products.MatPowAddZero | src/math/core/Matrix.js:2232-2256 | a^m a^0 == a^m |
| Products.MatPowAddStep | src/math/core/Matrix.js:2232-2256 | a^m a^(n-1) == a^(m+n-1) gives a^m a^n == a^(m+n) |
| Products.AssocThen | src/math/core/Matrix.js:1862-1907 | p q == r gives p (q a) == r a |
| Products.MatPowSquare | src/math/core/Matrix.js:2251 | (a a)^k == a^(2k), which is what squaring x in the loop relies on |
| Products.MatPowZero | src/math/core/Matrix.js:2232-2256 | every positive power of an all-zero square grid is that grid |
| Products.SquaringStep | src/math/core/Matrix.js:2247-2253 | one pass of repeated squaring (multiply y by x on an odd exponent, square x, halve the exponent) keeps y·x^k |
| Products.PowAsWritten | src/math/core/Matrix.js:2232-2256 | the loop as written computes a^ToUint32(n): the exponent is reduced mod 2^32 by `>>>=` |
| Products.AsWrittenTurn | src/math/core/Matrix.js:2248-2252 | one pass as written lowers the exponent and keeps y·x^ToUint32(k) |
| Products.AsWrittenStep | src/math/core/Matrix.js:2248-2252 | with `n & 1` read through ToInt32 and `n >>>= 1` through ToUint32 the pass keeps y·x^ToUint32(k) |
| Products.ShiftBits | src/math/core/Matrix.js:2248-2252 | on a non-negative n, `n & 1` agrees with the low bit of ToUint32(n), `n >>> 1` is ToUint32(n)/2, and ToUint32(n) <= n |
| Products.PowAsWrittenCounterexample | src/math/core/Matrix.js:2232-2256 | pow of the 2×2 zero matrix to 2^32 as written gives eye(2), while the true power is the zero matrix |
| Products.PowBySquaring | src/math/core/Matrix.js:2232-2256 | the corrected loop, halving the exponent exactly, computes a^n for every n |
| JsNumber.ToUint32 | src/math/core/Matrix.js:2252 | ToUint32, which `>>>` applies: a value in [0, 2^32) congruent to n mod 2^32 |
| JsNumber.ToInt32 | src/math/core/Matrix.js:2248 | ToInt32, which `&` applies: a value in [-2^31, 2^31) congruent to n mod 2^32 |
| JsNumber.UniqueInWindow | src/math/core/Matrix.js:2248-2252 | only one integer in a window of width 2^32 is congruent to a given one, so the two conversions are determined |
| JsNumber.Congruent | src/math/core/Matrix.js:2248-2252 | integers congruent mod 2^32 have the same ToInt32 and ToUint32 |
| JsNumber.Int32Fixed | src/math/core/Matrix.js:2248 | ToInt32 leaves a signed 32-bit integer as it is |
| Polyfill.Low16 | src/math/tools/Polyfill.js:25-29 | `x & 0xFFFF` is a value in [0, 2^16) |
| Polyfill.High16 | src/math/tools/Polyfill.js:26-28 | `x >>> 16` is a value in [0, 2^16) |
| Polyfill.Shl16 | src/math/tools/Polyfill.js:27-29 | `v << 16` is a signed 32-bit value |
| Polyfill.ToUint32Cong | src/math/tools/Polyfill.js:25-27 | `>>> 0` changes a value only by a multiple of 2^32 |
| Polyfill.Split16 | src/math/tools/Polyfill.js:25-28 | x is congruent mod 2^32 to (x >>> 16)·2^16 + (x & 0xFFFF) |
| Polyfill.Low16Shifted | src/math/tools/Polyfill.js:27-29 | masking to 16 bits before a 16-place shift loses only multiples of 2^32 |
| Polyfill.Shl16Residue | src/math/tools/Polyfill.js:27-29 | `v << 16` is congruent to v·2^16 mod 2^32 |
| Polyfill.Imul | src/math/tools/Polyfill.js:24-31 | the Math.imul fallback returns ToInt32(x1·x2), the product's low 32 bits read as signed |
| Polyfill.ProductCong | src/math/tools/Polyfill.js:25-29 | x1·x2 is congruent mod 2^32 to the three 16-bit partial products the fallback adds (the high·high term vanishes) |
| Polyfill.ThreeTermCong | src/math/tools/Polyfill.js:25-29 | three running sums congruent to their terms stay congruent to the total |
| Polyfill.ShiftedPartialCong | src/math/tools/Polyfill.js:27-29 | `(b & 0xFFFF) << 16` is congruent to b·2^16 |
| Polyfill.ImulSumCong | src/math/tools/Polyfill.js:25-29 | the value the fallback holds before its final mask is congruent to the sum of the partial products |
| Polyfill.ImulResidue | src/math/tools/Polyfill.js:30 | `y & 0xFFFFFFFF` on that value gives ToInt32(x1·x2) |
| Polyfill.Trunc | src/math/tools/Polyfill.js:33-37 | the Math.trunc fallback `x > 0 ? floor(x) : ceil(x)` is an integer of x's sign less than 1 from x, toward zero |
| Polyfill.FloorBounds | src/math/tools/Polyfill.js:33-37 | floor(x) <= x < floor(x) + 1, and floor of an integer is itself |
| Polyfill.TruncNum | src/math/tools/Polyfill.js:33-37 | Math.trunc keeps a number finite exactly when it was, and passes the infinities and NaN through |
| Polyfill.IsIntegerMeans | src/math/tools/Polyfill.js:106-111 | the Number.isInteger fallback holds exactly of finite values without a fraction |
| Polyfill.IsSafeIntegerMeans | src/math/tools/Polyfill.js:141-147 | the Number.isSafeInteger fallback holds exactly of integers n with -(2^53-1) <= n <= 2^53-1 |
| Splice.ActualStart | src/math/tools/Polyfill.js:152-162 | the start index splice uses: counted from the end when negative, clamped into [0, length] |
| Splice.ActualDeleteCount | src/math/tools/Polyfill.js:152-162 | the number of elements removed is clamped so that start + count stays within the length |
| Splice.NativePlan | src/math/tools/Polyfill.js:152-162 | the host splice's reading of its arguments never reaches past the end of the array |
| Splice.ShimOneArgument | src/math/tools/Polyfill.js:158-160 | with the shim's added deleteCount, a lone start removes everything from that index on and leaves the prefix |
| Splice.JsArray.NativeSplice | src/math/tools/Polyfill.js:152 | the host splice returns the removed elements and leaves the prefix, the inserted items and the suffix |
| Splice.JsArray.Splice | src/math/tools/Polyfill.js:153-162 | the shim copies its arguments; with one argument it removes everything from the start index and keeps the prefix; otherwise it behaves as the host splice |
| Splice.JsArray.constructor | src/math/tools/Polyfill.js:152-162 | an array on which splice is called holds the given elements |
| Matrices.Matrix.constructor | src/math/core/Matrix.js:517-541 | the constructor's last step: a correct array is stored, with row_length and column_length read from it |
| Matrices.Matrix.Clone | src/math/core/Matrix.js:653-655 | clone() is a new Matrix with the same cells |
| Matrices.Matrix.Length | src/math/core/Matrix.js:1258-1260 | length() is the larger of the two dimensions |
| Matrices.Matrix.ResizeInPlace | src/math/core/Matrix.js:3099-3135 | _resize to the same shape is a no-op; otherwise it throws exactly when r <= 0 or c <= 0, and else leaves the r×c grid with the old overlapping cells and ZERO in the new ones |
| Matrices.Matrix.GrowRow | src/math/core/Matrix.js:3112-3121 | one row of _resize's fill loop: the old cells, then ZERO up to the wider width |
| Matrices.Matrix.RotType | src/math/core/Matrix.js:3021-3025 | the turn count is reduced to 0..3 as the Euclidean count mod 4, one turn when no count is given |
| Matrices.Matrix.Rot90InPlace | src/math/core/Matrix.js:3020-3080 | _rot90 leaves the grid turned the reduced number of quarter turns |
| Matrices.Matrix.RotateCopy | src/math/core/Matrix.js:3038-3075 | the three loops of _rot90 fill the result from the backup copy as the quarter turns do |
| Matrices.Matrix.DeleteRowInPlace | src/math/core/Matrix.js:3154-3163 | _deleteRow throws exactly for a single-row matrix or an index past the last row; otherwise the row at splice's start index is removed |
| Matrices.Matrix.DeleteColumnInPlace | src/math/core/Matrix.js:3171-3182 | _deleteColumn throws exactly for a single column or an index past the last column; otherwise that column is removed from every row |
| Matrices.Matrix.ExchangeRowInPlace | src/math/core/Matrix.js:3209-3223 | _exchangeRow throws exactly for a single row or an index past the last row; otherwise rows a and b are swapped |
| Matrices.Matrix.ExchangeColumnInPlace | src/math/core/Matrix.js:3232-3248 | _exchangeColumn throws exactly for a single column or an index past the last column; otherwise columns a and b are swapped |
| Matrices.Matrix.ConcatRightInPlace | src/math/core/Matrix.js:3276-3289 | _concatRight throws exactly when the row counts differ; otherwise every row is extended by the other matrix's row |
| Matrices.Matrix.ConcatBottomInPlace | src/math/core/Matrix.js:3297-3308 | _concatBottom throws exactly when the column counts differ; otherwise the other matrix's rows are appended, as copies (the source shares them; see Left out) |
| Matrices.Matrix.EachInPlace | src/math/core/Matrix.js:903-928 | _each replaces every cell by f's result where f returns one and keeps it where f returns undefined |
| Matrices.Matrix.Resize | src/math/core/Matrix.js:3144-3146 | resize works on a clone, with the errors and result of _resize |
| Matrices.Matrix.Rot90 | src/math/core/Matrix.js:3087-3089 | rot90 is a clone turned as _rot90 turns it |
| Matrices.Matrix.DeleteRow | src/math/core/Matrix.js:3189-3191 | deleteRow is _deleteRow on a clone |
| Matrices.Matrix.DeleteColumn | src/math/core/Matrix.js:3198-3200 | deleteColumn is _deleteColumn on a clone |
| Matrices.Matrix.ExchangeRow | src/math/core/Matrix.js:3256-3258 | exchangeRow is _exchangeRow on a clone |
| Matrices.Matrix.ExchangeColumn | src/math/core/Matrix.js:3266-3268 | exchangeColumn is _exchangeColumn on a clone |
| Matrices.Matrix.ConcatRight | src/math/core/Matrix.js:3315-3317 | concatRight is _concatRight on a clone; the widths add |
| Matrices.Matrix.ConcatBottom | src/math/core/Matrix.js:3324-3326 | concatBottom is _concatBottom on a clone; the heights add; the lower rows are copies, not the argument's own rows (see Left out) |
| Matrices.Matrix.CloneEach | src/math/core/Matrix.js:935-937 | cloneMatrixDoEachCalculation is _each on a clone |
| Matrices.Matrix.Create | src/math/core/Matrix.js:417-550 | new Matrix(x) fails exactly when reading x fails (with that message) and otherwise holds the array read from x, `:` rows dropped |
| Matrices.Matrix.CreateMatrixDoEachCalculation | src/math/core/Matrix.js:946-966 | fails exactly for a non-positive size or when f throws for some cell; otherwise dimension × column_length cells, cell (i, j) being f(i, j), or ZERO where f returns undefined |
| Matrices.Matrix.Memset | src/math/core/Matrix.js:1357-1376 | memset fails exactly for a non-positive size and otherwise repeats x cyclically over the new shape |
| Matrices.Matrix.EyeMatrix | src/math/core/Matrix.js:1384-1388 | eye fails exactly for a non-positive size and otherwise is ONE on the diagonal and ZERO elsewhere |
| Matrices.Matrix.Zeros | src/math/core/Matrix.js:1396-1401 | zeros fails exactly for a non-positive size and otherwise holds ZERO in every cell |
| Matrices.Matrix.Equals | src/math/core/Matrix.js:846-865 | equals holds exactly for the same shape and every cell pair equal within the tolerance |
| Matrices.Matrix.EachTest | src/math/core/Matrix.js:1527-1536 | the `_each` scan behind the cell tests is true exactly when every cell passes |
| Matrices.Matrix.IsReal | src/math/core/Matrix.js:1503-1511 | isReal holds exactly when every cell is real within the tolerance |
| Matrices.Matrix.IsComplex | src/math/core/Matrix.js:1518-1520 | isComplex is the negation of isReal |
| Matrices.Matrix.IsZeros | src/math/core/Matrix.js:1527-1536 | isZeros holds exactly when every cell is zero within `tolerance ? tolerance : 1.0e-10` |
| Matrices.Matrix.IsIdentity | src/math/core/Matrix.js:1543-1561 | isIdentity holds exactly when the diagonal cells are one and the others zero |
| Matrices.Matrix.IsDiagonal | src/math/core/Matrix.js:1568-1577 | isDiagonal holds exactly when every off-diagonal cell is zero |
| Matrices.Matrix.IsTridiagonal | src/math/core/Matrix.js:1584-1593 | isTridiagonal holds exactly when every cell more than one off the diagonal is zero |
| Matrices.Matrix.IsTriangleUpper | src/math/core/Matrix.js:1687-1696 | isTriangleUpper holds exactly when every cell below the diagonal is zero |
| Matrices.Matrix.IsTriangleLower | src/math/core/Matrix.js:1703-1712 | isTriangleLower holds exactly when every cell above the diagonal is zero |
| Matrices.Matrix.IsSymmetric | src/math/core/Matrix.js:1642-1655 | isSymmetric holds exactly for a square matrix whose cells above the diagonal equal their mirror images |
| Matrices.Matrix.IsHermitian | src/math/core/Matrix.js:1662-1680 | isHermitian holds exactly for a square matrix with a real diagonal whose cells above it are the conjugates of their mirror images |
| Matrices.Matrix.IsPermutation | src/math/core/Matrix.js:1719-1749 | isPermutation holds exactly for a square matrix of ones and zeros with exactly one one in every row and every column |
| Matrices.Matrix.FirstUnmarked | src/math/core/Matrix.js:1743-1747 | the closing loop finds the first index whose row or column is unmarked, every index before it being marked |
| Matrices.Matrix.GetMatrix | src/math/core/Matrix.js:1126-1140 | getMatrix fails exactly when a position cannot be read, and otherwise selects the cells at every pair of positions |
| Matrices.Matrix.SetMatrix | src/math/core/Matrix.js:1150-1164 | setMatrix fails exactly when a position cannot be read, and otherwise returns a copy with the replacement written at every pair of positions |
| Matrices.Matrix.EachVectorRow | src/math/core/Matrix.js:1046-1062 | eachVectorRow returns every row passed through f, as the row-by-row specification gives it |
| Matrices.Matrix.StoreRow | src/math/core/Matrix.js:1056-1059 | one pass widens the result to the longer of its width and f's output, then writes the output into that row |
| Matrices.Matrix.EachVectorColumn | src/math/core/Matrix.js:1069-1085 | eachVectorColumn returns every column passed through f, as the column-by-column specification gives it |
| Matrices.Matrix.FillColumns | src/math/core/Matrix.js:1073-1083 | the loop of eachVectorColumn takes the result from no columns stored to all of them |
| Matrices.Matrix.NextColumnOf | src/math/core/Matrix.js:1074-1082 | one pass of that loop stores one more column |
| Matrices.Matrix.StoreColumn | src/math/core/Matrix.js:1079-1082 | one pass lengthens the result to the longer of its height and f's output, then writes the output into that column |
| Matrices.Matrix.EachVectorAuto | src/math/core/Matrix.js:974-1000 | eachVectorAuto gives what the specification gives: a row vector whole, anything else column by column |
| Matrices.Matrix.EachVectorBoth | src/math/core/Matrix.js:1009-1039 | eachVectorBoth is the rows pass followed by the columns pass |
| Matrices.Matrix.EachVector | src/math/core/Matrix.js:1094-1117 | eachVector dispatches on the dimension and throws for an unknown one |
| Matrices.Matrix.Flip | src/math/core/Matrix.js:3453-3467 | flip reverses every vector along the given dimension (auto by default) |
| Matrices.Matrix.FlipLR | src/math/core/Matrix.js:3436-3438 | fliplr reverses every row |
| Matrices.Matrix.FlipUD | src/math/core/Matrix.js:3444-3446 | flipud reverses every column |
| Matrices.Matrix.Circshift | src/math/core/Matrix.js:3368-3397 | circshift and roll rotate every vector along the dimension by the shift |
| Matrices.Matrix.Reshape | src/math/core/Matrix.js:3406-3430 | reshape fails exactly when the cell count changes and otherwise lays the cells out again in row-major order |
| Matrices.Matrix.Transpose | src/math/core/Matrix.js:3580-3589 | transpose is the c×r grid of mirrored cells |
| Matrices.Matrix.Conj | src/math/core/Matrix.js:2205-2209 | conj conjugates every cell |
| Matrices.Matrix.CTranspose | src/math/core/Matrix.js:3595-3597 | ctranspose is the conjugate transpose |
| Matrices.Matrix.T | src/math/core/Matrix.js:3603-3605 | T() is the conjugate transpose, not the plain one |
| Matrices.Matrix.IndexSort | src/math/core/Matrix.js:3476-3570 | indexsort fails exactly as the specification does and otherwise returns the rows reordered by the stable sort of the key vector |
| Matrices.Matrix.Combine | src/math/core/Matrix.js:946-966 | the common tail of the cellwise operators fails exactly when some cell's operation fails and otherwise holds op of the cyclically read cells |
| Matrices.Matrix.Add | src/math/core/Matrix.js:1821-1834 | add throws exactly when both the row and the column counts differ, and otherwise is the cellwise sum over the larger shape, each operand read cyclically |
| Matrices.Matrix.Sub | src/math/core/Matrix.js:1841-1854 | sub has add's size rule and is the broadcast cellwise difference |
| Matrices.Matrix.DotMul | src/math/core/Matrix.js:1964-1977 | dotmul throws exactly when neither operand is 1×1 and both counts differ, and otherwise is the cyclically read cellwise product |
| Matrices.Matrix.DotDiv | src/math/core/Matrix.js:1984-1997 | dotdiv throws exactly on dotmul's size rule or a zero divisor cell, and otherwise is the cellwise quotient |
| Matrices.Matrix.Rem | src/math/core/Matrix.js:2060-2073 | rem throws exactly on dotmul's size rule or where a cell's rem fails, and otherwise is the cellwise rem |
| Matrices.Matrix.Mod | src/math/core/Matrix.js:2081-2094 | mod throws exactly on dotmul's size rule or a complex cell, and otherwise is the cellwise mod |
| Matrices.Matrix.MapCells | src/math/core/Matrix.js:1870-1889 | mul's loops for a 1×1 operand map every cell |
| Matrices.Matrix.Product | src/math/core/Matrix.js:1893-1906 | mul's triple loop computes the matrix product |
| Matrices.Matrix.Mul | src/math/core/Matrix.js:1862-1907 | mul scales by a 1×1 operand on either side, throws exactly when the inner sizes differ, and otherwise is the matrix product |
| Matrices.Matrix.Pow | src/math/core/Matrix.js:2232-2256 | pow raises a 1×1 value directly, throws for a non-square matrix or a negative exponent, and otherwise returns the exponent-th power |
| Matrices.EachCell | src/math/core/Matrix.js:903-928 | the grid after _each keeps its shape; each cell is f's result or the old cell |
| Matrices.ColumnsOf | src/math/core/Matrix.js:951 | `column_length ? column_length : dimension`: an omitted or zero column count means square |
| Matrices.GridEqualsReflexiveSymmetric | src/math/core/Matrix.js:846-865 | matrix equals is reflexive for any tolerance and symmetric |
| Arithmetic.Lift | src/math/core/Matrix.js:1831-1833 | an operation that cannot fail, as a cellwise operation that always succeeds with its value |
| Arithmetic.DivCell | src/math/core/Complex.js:507-527 | div on one cell succeeds exactly for a nonzero divisor and then times the divisor gives the dividend back |
| Arithmetic.Cellwise | src/math/core/Matrix.js:946-966 | the cellwise result exists exactly when every cell succeeds, has the larger of both shapes and combines the cyclically read cells |
| Arithmetic.CellwiseLift | src/math/core/Matrix.js:1821-1834 | with an operation that cannot fail, the cellwise result is the plain broadcast |
| Arithmetic.BroadcastSameShape | src/math/core/Matrix.js:1831-1833 | on two grids of one shape the operators pair each cell with the same cell of the other |
| Arithmetic.BroadcastScalar | src/math/core/Matrix.js:1831-1833 | a 1×1 right operand is combined with every cell |
| Arithmetic.BroadcastRow | src/math/core/Matrix.js:1831-1833 | a single row as wide as the left operand is combined with every row |
| Arithmetic.AddCommutes | src/math/core/Matrix.js:1821-1834 | add's size rule is symmetric and add is commutative, whichever operand is broadcast |
| Arithmetic.SubAddRoundTrip | src/math/core/Matrix.js:1821-1854 | (a - b) + b == a for two grids of one shape |
| Arithmetic.AddScalarRefused | src/math/core/Matrix.js:1824-1826 | add does not exempt a 1×1 operand: it is refused beside any matrix with no dimension of 1, while dotmul lets it through |
| Arithmetic.DotDivUndoesDotMul | src/math/core/Matrix.js:1964-1997 | dotdiv by b undoes dotmul by b when no cell of b is zero |
| Arithmetic.DotDivFails | src/math/core/Matrix.js:1984-1997 | dotdiv fails exactly when a divisor cell that is read is zero |
| Arithmetic.RemModCells | src/math/core/Matrix.js:2060-2094 | rem and mod cells fail on complex operands; rem keeps the dividend's sign and mod the divisor's, both smaller than the divisor |
| Arithmetic.ModFailsUndefined | src/math/core/Matrix.js:2081-2094 | every failure of cellwise mod is the complex-argument error |
| Arithmetic.Times | src/math/core/Matrix.js:1862-1907 | mul fails exactly when neither operand is 1×1 and the inner sizes differ, with the size error |
| Arithmetic.TimesIsMatMul | src/math/core/Matrix.js:1862-1907 | the 1×1 fast paths agree with the matrix product wherever that is defined |
| Arithmetic.TimesScalar | src/math/core/Matrix.js:1870-1889 | a 1×1 operand on either side scales every cell of the other |
| Arithmetic.TimesAssociative | src/math/core/Matrix.js:1862-1907 | mul is associative wherever the shapes chain |
| Vectors.Zeros | src/math/core/Matrix.js:3112-3121 | the ZERO padding _resize writes: n cells, all ZERO |
| Vectors.Longest | src/math/core/Matrix.js:1056 | the width eachVectorRow reaches after k rows: at least 1 and at least every output length so far |
| Vectors.LongestAttained | src/math/core/Matrix.js:1056 | that width is 1 or the length of one of the outputs |
| Vectors.Columns | src/math/core/Matrix.js:1074-1077 | the column vectors, left to right, column j being Column(m, j) |
| Vectors.RowsUpTo | src/math/core/Matrix.js:1050-1060 | the result after k rows of eachVectorRow has |m| rows and the width reached so far |
| Vectors.EachRow | src/math/core/Matrix.js:1046-1062 | eachVectorRow's result is rectangular, |m| rows wide as the longest output |
| Vectors.RowsStart | src/math/core/Matrix.js:1047-1049 | before the first row the result is the |m|×1 ZERO matrix made by `_resize(row_length, 1)` |
| Vectors.PutRow | src/math/core/Matrix.js:1057-1059 | writing the output into row k: that row starts with the output and keeps its old tail, every other row is kept |
| Vectors.PutRowNone | src/math/core/Matrix.js:1057-1059 | writing nothing leaves the grid as it is |
| Vectors.PutRowStep | src/math/core/Matrix.js:1057-1059 | writing cell c extends the written prefix by one |
| Vectors.RowsNext | src/math/core/Matrix.js:1050-1060 | one row step (widen, then write f's output) takes the state after k rows to the state after k + 1 |
| Vectors.RowsNextCell | src/math/core/Matrix.js:1050-1060 | the same, cell by cell |
| Vectors.EachRowRows | src/math/core/Matrix.js:1046-1062 | every row of eachVectorRow's result is f's output on that row padded with ZERO to the common width |
| Vectors.EachRowWidth | src/math/core/Matrix.js:1046-1062 | the width of the result is the longest output, and 1 when every output is shorter |
| Vectors.EachRowKeepsShape | src/math/core/Matrix.js:1046-1062 | when f keeps every row's length, eachVectorRow gives exactly f's outputs |
| Vectors.ColumnsUpTo | src/math/core/Matrix.js:1073-1083 | the result after k columns of eachVectorColumn has the height reached so far and Cols(m) columns |
| Vectors.EachColumn | src/math/core/Matrix.js:1069-1085 | eachVectorColumn's result is rectangular, as tall as the longest output, with Cols(m) columns |
| Vectors.ColumnsStart | src/math/core/Matrix.js:1070-1072 | before the first column the result is the 1×column_length ZERO matrix |
| Vectors.PutColumn | src/math/core/Matrix.js:1080-1082 | writing the output into column k keeps the shape |
| Vectors.PutColumnCell | src/math/core/Matrix.js:1080-1082 | after the write, column k holds the output from the top and every other cell is kept |
| Vectors.PutColumnNone | src/math/core/Matrix.js:1080-1082 | writing nothing leaves the grid as it is |
| Vectors.PutColumnStep | src/math/core/Matrix.js:1080-1082 | writing cell i extends the written prefix by one |
| Vectors.ColumnsNext | src/math/core/Matrix.js:1073-1083 | one column step (lengthen, then write f's output) takes the state after k columns to the state after k + 1 |
| Vectors.ColumnsNextCell | src/math/core/Matrix.js:1073-1083 | the same, cell by cell |
| Vectors.ColumnsTranspose | src/math/core/Matrix.js:1074-1077 | the column vectors are the rows of the transpose |
| Vectors.EachColumnTranspose | src/math/core/Matrix.js:1046-1085 | eachVectorColumn is eachVectorRow on the transpose, transposed back |
| Vectors.EachAuto | src/math/core/Matrix.js:974-1000 | eachVectorAuto on one row succeeds exactly when f's output is non-empty and gives it as a row vector; any other matrix goes column by column |
| Vectors.EachAutoRow | src/math/core/Matrix.js:974-1000 | on one row with a non-empty output the row path agrees with eachVectorRow |
| Vectors.EachBoth | src/math/core/Matrix.js:1009-1039 | eachVectorBoth is eachVectorColumn applied to eachVectorRow's result |
| Vectors.SettingsDimension | src/math/core/Matrix.js:3370 | `!(type && type.dimension) ? "auto" : type.dimension`: a missing or falsy dimension means "auto" |
| Vectors.DirectionOf | src/math/core/Matrix.js:1095-1116 | 0/"auto", 1/"row", 2/"column" and 3/"both" (letters in any case) select the four directions; any other value throws the eachVector error, whose message carries a whole number given as the dimension |
| Vectors.DirectionOfIgnoresCase | src/math/core/Matrix.js:1096-1098 | the names are matched after lower-casing |
| Vectors.EachVector | src/math/core/Matrix.js:1094-1117 | eachVector throws for an unknown dimension and otherwise is the selected one of eachVectorAuto/Row/Column/Both |
| Vectors.FlipVector | src/math/core/Matrix.js:3459-3465 | flip's main loop returns the vector reversed |
| Vectors.ShiftVector | src/math/core/Matrix.js:3375-3385 | circshift's main loop, starting at `((-shift % n) + n) % n` and wrapping to 0, returns the vector rotated by shift |
| Vectors.ModStep | src/math/core/Matrix.js:3379-3382 | stepping the read index by one moves the residue up by one and wraps from n - 1 to 0 |
| Vectors.FlipRowsTwice | src/math/core/Matrix.js:3436-3438 | fliplr applied twice gives the matrix back |
| Vectors.ShiftRowsCompose | src/math/core/Matrix.js:3368-3387 | circshift of the rows by k and then by l is circshift by k + l |
| Vectors.ShiftedRows | src/math/core/Matrix.js:3368-3387 | every row rotated by k, the row count kept |
| Vectors.RowsShifted | src/math/core/Matrix.js:3368-3387 | circshift along rows keeps the shape and rotates each row |
| Vectors.ShiftedRowsCompose | src/math/core/Matrix.js:3368-3387 | rows rotated by k and then by l are rotated by k + l |
| Vectors.FlipColumnsTwice | src/math/core/Matrix.js:3444-3446 | flipud applied twice gives the matrix back |
| Vectors.NumberMessage | src/math/core/Matrix.js:1115 | the message `"eachVector argument " + dimension` for a number: a whole number below 10^21 in size is written out in decimal, and anything longer than the prefix comes from a whole number |
| Vectors.NumberMessageInjective | src/math/core/Matrix.js:1115 | two whole numbers below 10^21 in size give the same message only when they are equal |
| Reordering.PositiveFactors | src/math/core/Matrix.js:3409-3417 | a positive product of a non-negative and another integer has two positive factors, so an accepted reshape has positive lengths once the row count is not negative |
| Reordering.Reshaped | src/math/core/Matrix.js:3406-3430 | reshape succeeds exactly when r·c equals the cell count and r > 0, throws the size message when the counts differ and the array-length error for two negative lengths, and gives an r×c grid |
| Reordering.ReshapeKeepsOrder | src/math/core/Matrix.js:3414-3428 | the reshaped matrix holds the same cells in the same row-major order |
| Reordering.ReshapeIdentity | src/math/core/Matrix.js:3406-3430 | reshaping to the matrix's own shape gives it back |
| Reordering.ReshapeTwice | src/math/core/Matrix.js:3406-3430 | two reshapes in a row are the second one alone |
| Reordering.ReshapeRoundTrip | src/math/core/Matrix.js:3406-3430 | reshaping back to the old shape restores the matrix |
| Reordering.FlattenIndex | src/math/core/Matrix.js:3414-3428 | cell p of the row-major order is m[p / C][p % C] |
| Reordering.ReshapeCell | src/math/core/Matrix.js:3418-3428 | cell (i, j) of the result is cell i·c + j of the old cells in row-major order |
| Reordering.ReshapeCounters | src/math/core/Matrix.js:3415-3426 | the counters m_row, m_col with m_row·C + m_col == i·c + j stay in range and read the same cell |
| Reordering.Entries | src/math/core/Matrix.js:3502-3508 | sort_data pairs index_array[i] with target_array[i] |
| Reordering.Data | src/math/core/Matrix.js:3558-3561 | y takes the data of every entry in order |
| Reordering.SortedDataShape | src/math/core/Matrix.js:3555-3563 | sorting entries that all carry c cells gives an |e|×c grid again |
| Reordering.SortRows | src/math/core/Matrix.js:3555-3561 | the rows reordered by the merge sort keep the shape |
| Reordering.IndexSorted | src/math/core/Matrix.js:3476-3570 | indexsort throws exactly for an index that is not a vector or whose length differs from the rows (columns) sorted, with those messages, and otherwise keeps the shape |
| Reordering.SortRowsReorders | src/math/core/Matrix.js:3513-3561 | the sorted rows are a permutation of the (index, row) pairs' rows; when the index values are pairwise equal or further apart than the tolerance they are ordered by index with equal indexes in their original order |
| Reordering.DataConcat | src/math/core/Matrix.js:3558-3561 | reading the data distributes over concatenation |
| Reordering.DataPermutation | src/math/core/Matrix.js:3558-3561 | the data of a permutation of entries is a permutation of their data |
| Reordering.IndexSortByColumn | src/math/core/Matrix.js:3493-3500 | indexsort by a column index reorders the rows of m by the index values, a permutation of them |
| Reordering.IndexSortByRow | src/math/core/Matrix.js:3484-3492 | indexsort by a row index reorders the columns of m by the index values, through the transpose |
| Reordering.IndexSortSingle | src/math/core/Matrix.js:3476-3570 | a 1×1 index sorts a 1×1 matrix, which comes back unchanged |
| Sorting.IndexCompare | src/math/core/Matrix.js:3513-3515 | indexsort's compare is negative exactly when compareTo says less and 0 exactly when it says equal, with the default tolerance |
| Sorting.Merge | src/math/core/Matrix.js:3534-3551 | the merge of two runs has the length of both |
| Sorting.MergePermutation | src/math/core/Matrix.js:3534-3551 | the merge loses and invents no entry |
| Sorting.LeftLength | src/math/core/Matrix.js:3531 | `middle = floor((first + last) / 2)` leaves both runs non-empty for n >= 2 entries |
| Sorting.MergeSort | src/math/core/Matrix.js:3529-3554 | the sort keeps the number of entries |
| Sorting.MergeSortPermutation | src/math/core/Matrix.js:3529-3554 | the sort is a permutation of its input, whatever the comparison |
| Sorting.WithKey | src/math/core/Matrix.js:3513-3515 | the entries with a given key are entries of the input with that key |
| Sorting.TakesLeftApart | src/math/core/Matrix.js:3542 | for keys that are apart, `cmp_function(elements[i], temp[j]) >= 0` takes the left entry exactly when its key is not above the right one |
| Sorting.WithKeyConcat | src/math/core/Matrix.js:3534-3551 | selecting one key distributes over concatenation |
| Sorting.WithKeyAbove | src/math/core/Matrix.js:3534-3551 | a sorted run whose first key is above k holds no entry with key k |
| Sorting.SortedTail | src/math/core/Matrix.js:3534-3551 | the tail of a sorted run is sorted and its head's key is the least |
| Sorting.MergeSorted | src/math/core/Matrix.js:3534-3551 | sorted runs whose keys are apart merge into a sorted run |
| Sorting.SortedCons | src/math/core/Matrix.js:3534-3551 | an entry whose key is at most every key of a sorted run can go in front |
| Sorting.MergeStable | src/math/core/Matrix.js:3534-3551 | the merge is stable: with equal keys the left run's entries come first and each run keeps its order |
| Sorting.MergeStableLeft | src/math/core/Matrix.js:3542-3543 | the step that takes the left head keeps stability |
| Sorting.MergeStableRight | src/math/core/Matrix.js:3545-3546 | the step that takes the right head, whose key is below the left run's, keeps stability |
| Sorting.MergeSortSorted | src/math/core/Matrix.js:3529-3555 | with index keys apart, the sort orders the entries by key |
| Sorting.MergeSortStable | src/math/core/Matrix.js:3529-3555 | with index keys apart, the sort keeps entries with equal keys in their order |
| Selection.Everything | src/math/core/Matrix.js:78-84 | ":" yields one position per index of the dimension, each in range once the offset is taken off |
| Selection.Select | src/math/core/Matrix.js:1126-1140 | getMatrix succeeds exactly when both position vectors are non-empty and every position, less the offset, is a valid index; the result has one row per row position and one column per column position |
| Selection.SelectCells | src/math/core/Matrix.js:1132-1138 | cell (i, j) of the selection is the cell of the matrix that row position i and column position j name |
| Selection.SelectEverything | src/math/core/Matrix.js:1126-1140 | getMatrix(":", ":") gives back the matrix itself |
| Selection.SelectCompose | src/math/core/Matrix.js:1126-1140 | selecting from a selection is one selection with the position vectors composed |
| Selection.Put | src/math/core/Matrix.js:1160 | a write at a negative index leaves the row's cells alone; a write past the end lengthens the row to that index plus one, with holes between; every other cell keeps its value |
| Selection.LastAt | src/math/core/Matrix.js:1158-1162 | the latest position among the first n that names the target index, or -1 when none does |
| Selection.Reach | src/math/core/Matrix.js:1159-1161 | one past the largest column index the column positions write, and that largest index is written |
| Selection.LastWrite | src/math/core/Matrix.js:1158-1162 | the last pair of positions that wrote a cell, when there is one, is a pair of valid loop indices |
| Selection.Written | src/math/core/Matrix.js:1154-1162 | the copy keeps one row per row of the matrix at every point of the loop |
| Selection.Lift | src/math/core/Matrix.js:1154 | the copy of the matrix has the matrix's shape, every cell present |
| Selection.Strip | src/math/core/Matrix.js:1163 | reading the written copy as a grid keeps every row's length |
| Selection.Settle | src/math/core/Matrix.js:387-401 | the constructor accepts the written copy exactly when it has no hole and is rectangular, and then keeps every cell |
| Selection.AssignRect | src/math/core/Matrix.js:1150-1164 | whatever setMatrix returns is a rectangular matrix |
| Selection.WrittenStart | src/math/core/Matrix.js:1154-1155 | before the loop the copy is the matrix |
| Selection.WrittenNextRow | src/math/core/Matrix.js:1158-1159 | finishing the inner loop for one row position is starting the next |
| Selection.WrittenStepOther | src/math/core/Matrix.js:1160 | one write leaves every row but the addressed one unchanged |
| Selection.WrittenStepHere | src/math/core/Matrix.js:1160 | one write changes the addressed row exactly as an assignment to a JavaScript array does |
| Selection.WrittenStepIgnored | src/math/core/Matrix.js:1160 | a write at a negative column index changes no cell of the copy |
| Selection.WrittenStepStored | src/math/core/Matrix.js:1160 | a write at a non-negative column stores the replacement's tile there |
| Selection.LastWriteStep | src/math/core/Matrix.js:1158-1162 | a write becomes the last write to its own cell and to no other |
| Selection.RowReachStep | src/math/core/Matrix.js:1160 | after a write the row reaches at least one past the written column |
| Selection.LastWriteReached | src/math/core/Matrix.js:1158-1162 | every written cell lies below the row's length |
| Selection.WrittenStep | src/math/core/Matrix.js:1160 | one step of the loop on the whole copy: the addressed row takes the write and the others stay |
| Selection.GetCells | src/math/core/Matrix.js:1130-1139 | getMatrix's nested loop builds the selection, and fails where an index is out of range or nothing is selected |
| Selection.SetCells | src/math/core/Matrix.js:1154-1163 | setMatrix's nested loop and the constructor give the assignment the specification describes, the failures included |
| Selection.WriteRow | src/math/core/Matrix.js:1159-1161 | the inner loop fails exactly when it has a column to write and the row position is not a row of the matrix; otherwise it completes the writes of that row position |
| Selection.AssignInRange | src/math/core/Matrix.js:1150-1164 | with every position in range setMatrix succeeds, keeps the shape and every unselected cell, and each selected cell holds the last tile written to it |
| Selection.ReachInRange | src/math/core/Matrix.js:1159-1161 | in-range column positions never lengthen a row |
| Selection.LastAtDistinct | src/math/core/Matrix.js:1158-1162 | with distinct positions the last position naming an index is the only one |
| Selection.SetThenGet | src/math/core/Matrix.js:1126-1164 | getMatrix after setMatrix at the same distinct in-range positions reads back the replacement, repeated to fill the selection |
| Selection.SelectTiles | src/math/core/Matrix.js:1126-1140 | selecting cells that hold the replacement's tiles reads those tiles back |
| Selection.SetThenGetCell | src/math/core/Matrix.js:1160 | each cell named by distinct in-range positions holds the replacement's tile for that pair |
| Selection.AssignNegativeColumns | src/math/core/Matrix.js:1160 | when every column position is below the offset, setMatrix returns the matrix unchanged |
| Selection.AssignAppendsColumn | src/math/core/Matrix.js:1150-1164 | writing the column just past the end on every row adds one column holding the replacement's first column, repeated, and keeps the rest |
| Selection.AppendedRows | src/math/core/Matrix.js:1158-1162 | after that write every row of the copy is one cell longer and has no hole |
| Selection.AppendedRow | src/math/core/Matrix.js:1160 | one row of that copy: the old cells, then the new one |
| Selection.SettleFull | src/math/core/Matrix.js:387-401 | a copy with rows of one length and no hole is accepted and keeps its cells |
| Selection.AssignLeavesHole | src/math/core/Matrix.js:1150-1164 | writing two columns past the end leaves a hole, which the constructor reads as undefined and refuses |
| MatrixTool.Head | src/math/core/Matrix.js:149-152 | one match adds one or two pieces, the last of them the matched text |
| MatrixTool.Rest | src/math/core/Matrix.js:143-147 | when no match is left, the remaining text becomes one more piece exactly when it is non-empty |
| MatrixTool.Match2 | src/math/core/Matrix.js:130-156 | match2's loop produces the pieces of the segmentation with at most 1000 matches |
| MatrixTool.Match2Loop | src/math/core/Matrix.js:141-154 | the loop with a given match limit produces the segmentation with that limit |
| MatrixTool.Match2Turn | src/math/core/Matrix.js:142-153 | one turn stops exactly when no match is found; the pieces so far plus those still to come stay the whole output |
| MatrixTool.PushRest | src/math/core/Matrix.js:144-146 | the last push appends the remaining text when there is any |
| MatrixTool.PushMatch | src/math/core/Matrix.js:149-152 | a match pushes the text before it, when there is any, and then itself |
| MatrixTool.SegmentsEnd | src/math/core/Matrix.js:143-147 | without a further match the remaining text completes the output |
| MatrixTool.SegmentsStep | src/math/core/Matrix.js:149-153 | a match keeps what has been pushed a prefix of the whole output, the search going on after the match |
| MatrixTool.JoinedAppend | src/math/core/Matrix.js:139-155 | joining the texts and counting the matches both distribute over concatenation of piece lists |
| MatrixTool.SegmentsJoin | src/math/core/Matrix.js:130-156 | match2 loses no text: the pieces, joined, followed by the unsearched rest spell the input |
| MatrixTool.JoinStep | src/math/core/Matrix.js:149-153 | the text before a match, the match and the pieces of what follows spell the searched text |
| MatrixTool.JoinedHead | src/math/core/Matrix.js:149-152 | the pieces one match adds spell the text up to the end of the match |
| MatrixTool.SegmentsAlternate | src/math/core/Matrix.js:130-156 | unmatched pieces are never empty and never adjacent |
| MatrixTool.AlternateStep | src/math/core/Matrix.js:149-152 | a match and the text before it keep the pieces alternating |
| MatrixTool.SegmentsComplete | src/math/core/Matrix.js:141 | text is left unsearched only when all 1000 matches have been used |
| MatrixTool.CountStep | src/math/core/Matrix.js:149-152 | each turn with a match adds exactly one matched piece |
| MatrixTool.SignOf | src/math/core/Matrix.js:248 | compareTo's result as a number is -1, 0 or 1 |
| MatrixTool.Along | src/math/core/Matrix.js:238-241 | the k-th value of the range is `from` plus k steps, in the compared key |
| MatrixTool.InterpAsWritten | src/math/core/Matrix.js:221-255 | a range from a value to an equal one is that value; the range fails exactly when the step is zero or is negative while from < to |
| MatrixTool.Interp | src/math/core/Matrix.js:221-255 | the corrected range fails also when the step does not move towards `to`, and otherwise agrees with the source |
| MatrixTool.RangeSteps | src/math/core/Matrix.js:237-254 | the loop builds `from` followed by the values the exit test lets through |
| MatrixTool.RangeTurn | src/math/core/Matrix.js:241-252 | one pass adds the step, and either stops or appends the new value |
| MatrixTool.PastEnd | src/math/core/Matrix.js:242-251 | the exit test: past `to` when the last value is included, at or past it otherwise |
| MatrixTool.StepsTurn | src/math/core/Matrix.js:241-252 | a value past the end adds nothing; any other value is appended and the loop goes on |
| MatrixTool.InterpolationCalculationAsWritten | src/math/core/Matrix.js:221-255 | the method with the source's guards computes InterpAsWritten |
| MatrixTool.InterpolationCalculation | src/math/core/Matrix.js:221-255 | the method with the direction check computes Interp |
| MatrixTool.InterpValues | src/math/core/Matrix.js:237-254 | a range holds 1 to 0x10000 values, `from` and then `from` plus k steps while the exit test does not fire |
| MatrixTool.InterpOnRange | src/math/core/Matrix.js:221-255 | with the direction check every value of a range lies between `from` and `to` |
| MatrixTool.OnRangeAt | src/math/core/Matrix.js:240-253 | each appended value of an accepted range lies between `from` and `to` |
| MatrixTool.StepsRunOn | src/math/core/Matrix.js:240-253 | once a range has passed `to` in the wrong direction, the exit test never fires again |
| MatrixTool.InterpAsWrittenRunsAway | src/math/core/Matrix.js:231-253 | as written, from > to with a positive step is accepted and yields 0x10000 values that all lie off the range; the corrected range refuses it |
| MatrixTool.PastFrom | src/math/core/Matrix.js:240-241 | counting up from `from` when from > to leaves the range at the first step |
| MatrixTool.FiveToOne | src/math/core/Matrix.js:280-286 | `5:1` yields 0x10000 values starting 5, 6 as written, and fails under the correction |
| MatrixTool.Then | src/math/core/Matrix.js:287-292 | the values of two parts in order, or the first part's error |
| MatrixTool.ToArrayFromMatch2String | src/math/core/Matrix.js:262-297 | the loop over match2's pieces gives the values their expansion defines |
| MatrixTool.ExpandWithoutRanges | src/math/core/Matrix.js:265-294 | without `:` between tokens every matched token stands for its own value, in order |
| MatrixTool.ExpandRanges | src/math/core/Matrix.js:272-289 | `a:b` is the range from a to b in steps of one, `a:s:b` the range in steps of s, both including b |
| MatrixTool.ArrayFromString | src/math/core/Matrix.js:305-319 | a row that is only `:` is read as the colon marker |
| MatrixTool.ReadRows | src/math/core/Matrix.js:330-333 | when every row is read, there is one value per row and it is that row's value |
| MatrixTool.ReadRowsCons | src/math/core/Matrix.js:330-333 | the first row's value before the others' is the value of every row |
| MatrixTool.ForArraySpace | src/math/core/Matrix.js:326-335 | the literal has one row per `;`-separated part |
| MatrixTool.JsonRow | src/math/core/Matrix.js:201-208 | a JSON row has one cell per `,`-separated piece between its brackets |
| MatrixTool.ForArrayJson | src/math/core/Matrix.js:191-211 | the rows are the bracketed groups, each read as a JSON row, or the whole text as one row when there is none |
| MatrixTool.JsonTwoGroups | src/math/core/Matrix.js:194-209 | `[a],[b]` yields the two rows read from `[a]` and `[b]` |
| MatrixTool.JsonRowInside | src/math/core/Matrix.js:202-207 | the cells of `[a]` are the parsed `,`-separated pieces of a |
| MatrixTool.JsonTwoRows | src/math/core/Matrix.js:191-211 | `[x,x],[y]` yields the rows [x, x] and [y] |
| MatrixTool.InBracket | src/math/core/Matrix.js:342-351 | text still holding a bracket is read as JSON rows, any other as `;`-separated rows |
| MatrixTool.Unbracket | src/math/core/Matrix.js:374 | the text with brackets removed and commas turned into spaces holds neither |
| MatrixTool.MatrixArrayFromString | src/math/core/Matrix.js:358-380 | text with no brackets that does not look like a list is read as one number |
| MatrixTool.TransposedLiteral | src/math/core/Matrix.js:164-183 | a bracketed literal followed by an odd number of quotes reads as the conjugate transpose of the literal without them |
| MatrixTool.PlainLiteral | src/math/core/Matrix.js:164-183 | a bracketed literal followed by no quote or an even number of them is read inside its brackets |
| MatrixTool.BracketedLiteral | src/math/core/Matrix.js:164-183 | trimming and bracket removal recover the text inside the brackets and the parity of the quotes |
| MatrixTool.BracketedTrimmed | src/math/core/Matrix.js:360 | a literal that opens with `[` and ends in `]` or a quote is left alone by trimming |
| MatrixTool.IsCorrectMatrixArray | src/math/core/Matrix.js:387-401 | the array is accepted exactly when it is non-empty and its rows are of one non-zero length |
| MatrixTool.TruncInt | src/math/core/Matrix.js:91 | the integer index of a value is Math.trunc of it |
| MatrixTool.TruncAll | src/math/core/Matrix.js:89-93 | one index per value, each the truncated real part |
| MatrixTool.Positions | src/math/core/Matrix.js:75-122 | a number is its own single position; a matrix gives positions exactly when it is a row or a column |
| MatrixTool.Offsets | src/math/core/Matrix.js:80-84 | `:` gives max positions, the k-th being k plus the offset |
| MatrixTool.OffsetLoop | src/math/core/Matrix.js:80-84 | the loop lists the positions `:` denotes |
| MatrixTool.ToPositionArrayFromObject | src/math/core/Matrix.js:75-122 | the method gives the positions the argument denotes, failing on a matrix that is not a vector |
| MatrixTool.TruncLoop | src/math/core/Matrix.js:109-118 | the loop gives the truncated real part of each value |
| MatrixInput.ElementValue | src/math/core/Matrix.js:447-462 | a Matrix element is read exactly when it is 1×1, as its scalar, and throws "Matrix in matrix" otherwise; any other element goes through `new Complex` |
| MatrixInput.RowValues | src/math/core/Matrix.js:444-464 | a row is read exactly when every element is, one value per element in order |
| MatrixInput.AllRows | src/math/core/Matrix.js:439-465 | an array of arrays is read exactly when every row is, one row per inner array |
| MatrixInput.DropColons | src/math/core/Matrix.js:511-515 | removing the bare `:` rows keeps only rows of values and never adds rows |
| MatrixInput.AcceptRows | src/math/core/Matrix.js:508-520 | a parsed literal is accepted exactly when, its `:` rows dropped, it is a non-empty rectangle, and then holds those cells; otherwise the constructor throws its IllegalArgumentException |
| MatrixInput.FromInput | src/math/core/Matrix.js:417-520 | whatever is accepted is rectangular; a Matrix is copied, a Complex or a number is a 1×1 matrix, a boolean is 1 or 0; arrays mixing inner arrays and single values are not representable (see Left out) |
| MatrixInput.EmptyOrRaggedRejected | src/math/core/Matrix.js:387-401 | an empty array, an array with an empty first row and a ragged array of arrays all throw |
| MatrixInput.RowsRead | src/math/core/Matrix.js:437-465 | an array of equally long non-empty rows of readable elements is read cell by cell |
| MatrixInput.MatrixInMatrix | src/math/core/Matrix.js:453-456 | a Matrix element larger than 1×1 makes the constructor throw |
| MatrixInput.DropColonsExtremes | src/math/core/Matrix.js:511-515 | rows that are all values are kept as they are; rows that are all `:` leave nothing |
| MatrixInput.DropColonsAppend | src/math/core/Matrix.js:511-515 | dropping the `:` rows of two parts is dropping them from the whole |
| MatrixInput.RemoveColonRows | src/math/core/Matrix.js:511-515 | the splice loop removes exactly the bare `:` rows, keeping the rest in order |
| MatrixInput.ColonRowRemoved | src/math/core/Matrix.js:512-514 | splicing out a `:` row leaves the kept prefix and what the rest contributes unchanged |
| MatrixInput.ValueRowKept | src/math/core/Matrix.js:511-515 | stepping over a row of values moves it into the kept prefix |
| MatrixInput.ReadRow | src/math/core/Matrix.js:446-463 | the inner loop reads the row element by element as RowValues says |
| MatrixInput.ReadRows | src/math/core/Matrix.js:439-465 | the outer loop reads the rows as AllRows says |
| MatrixInput.RowValuesPrefixErr | src/math/core/Matrix.js:446-463 | once an element throws, the whole row throws that exception |
| MatrixInput.AllRowsPrefixErr | src/math/core/Matrix.js:439-465 | once a row throws, the constructor throws that exception |
| Text.TrimStart | src/math/core/Matrix.js:360 | the text with its leading white space removed: a suffix of the text, what was cut is all white space, and what is left starts with none |
| Text.TrimStartStep | src/math/core/Matrix.js:360 | trimming the text after a leading white-space character trims the text itself |
| Text.TrimEnd | src/math/core/Matrix.js:360 | the text with its trailing white space removed: a prefix, what was cut is all white space, and what is left ends with none |
| Text.Trim | src/math/core/Matrix.js:307 | the trimmed text neither starts nor ends with white space |
| Text.TrimAround | src/math/core/Matrix.js:360 | trimming removes exactly the white space around the text and nothing else |
| Text.TrimStartAllSpace | src/math/core/Matrix.js:360 | text that is all white space trims to nothing |
| Text.TrimStartAround | src/math/core/Matrix.js:360 | leading white space before text that starts with none is exactly what is removed |
| Text.TrimEndAround | src/math/core/Matrix.js:360 | trailing white space after text that ends with none is exactly what is removed |
| Text.TrimIdempotent | src/math/core/Matrix.js:360 | trimming twice is trimming once |
| Text.Substring | src/math/core/Matrix.js:180 | substring takes the slice between its two ends, in either order, clamped to the string |
| Text.Split | src/math/core/Matrix.js:328 | split on one character gives at least one piece and no piece holds the separator |
| Text.SplitJoin | src/math/core/Matrix.js:202 | the pieces joined by the separator give the text back |
| Text.SplitNone | src/math/core/Matrix.js:328 | text without the separator is one piece |
| Text.QuoteCount | src/math/core/Matrix.js:170 | the count of `'` never exceeds the length |
| Text.QuoteCountAppend | src/math/core/Matrix.js:170 | quotes of a concatenation add up |
| Text.DashLength | src/math/core/Matrix.js:169 | the suffix matched by `(\s*')*$` is all white space and quotes, and the character before it is neither |
| Text.TrimBracket | src/math/core/Matrix.js:164-183 | a trimmed literal is `[`, the returned text, `]` and a run of quotes and white space, marked transposed exactly when that run holds an odd number of quotes |
| Text.TrimBracketRoundTrip | src/math/core/Matrix.js:164-183 | bracketed text followed by a quote suffix is read back exactly: the inner text, and the parity of the quotes |
| Text.DashSuffixExact | src/math/core/Matrix.js:169 | the quote suffix found is exactly the one appended |
| Text.TrimBracketUnbracketed | src/math/core/Matrix.js:175-177 | text that does not start with `[` and end with `]` once the quotes are cut is refused |
| Text.CloseIndex | src/math/core/Matrix.js:194 | the first `]` of the text, or none when the text has no `]` |
| Text.BracketGroups | src/math/core/Matrix.js:194 | every group found by /\[[^\]]+\]/g starts with `[`, ends with `]` and holds at least one character |
| Text.BracketGroupsCons | src/math/core/Matrix.js:194 | a bracketed group is found as one match and the search resumes right after it |
| Text.TwoGroups | src/math/core/Matrix.js:194 | `[a],[b]` holds the two groups `[a]` and `[b]` |
| Text.LastGroup | src/math/core/Matrix.js:194 | `,[b]` holds the one group `[b]` |
| Text.SkipComma | src/math/core/Matrix.js:194 | a comma before a group is not part of any group |
| Text.LowerChar | src/math/core/Matrix.js:310 | lower-casing maps A–Z to a–z and keeps every other character |
| Text.LowerAscii | src/math/core/Matrix.js:310 | lower-casing a text maps each character on its own and keeps the length |
| Text.LowerAsciiIdempotent | src/math/core/Matrix.js:310 | lower-casing twice is lower-casing once, and text without capitals is kept |
| Text.NatText | src/math/core/Matrix.js:3412 | the numeral of a number is a non-empty string of digits without a leading zero |
| Text.NatTextValue | src/math/core/Matrix.js:3412 | reading the numeral back gives the number |
| Text.NatTextInjective | src/math/core/Matrix.js:3412 | different numbers have different numerals |
| Text.IntText | src/math/core/Matrix.js:3412 | a negative number is written with a minus sign before the numeral of its magnitude |
| Measures.Trace | src/math/core/tools/LinearAlgebra.js:775-783 | the loop adds the diagonal cells up to the smaller dimension, from zero |
| Measures.TraceTranspose | src/math/core/tools/LinearAlgebra.js:775-783 | a matrix and its transpose have the same trace |
| Measures.CountOnes | src/math/core/tools/LinearAlgebra.js:778-781 | adding k ones from zero gives k |
| Measures.TraceEye | src/math/core/tools/LinearAlgebra.js:775-783 | the trace of eye(r, c) is min(r, c) |
| Measures.TraceExample | test/LinearAlgebra.js:71 | trace([3 2 3; 1 -2 3]) is 1 |
| Measures.Inner | src/math/core/tools/LinearAlgebra.js:563-608 | the loops compute inner as its definition states: dot of two scalars, the sum of dots for two vectors, and otherwise column-wise or row-wise sums for equal shapes, with the size and dimension errors |
| Measures.SelfDot | src/math/core/tools/LinearAlgebra.js:575 | the dot of a value with itself is its squared modulus |
| Measures.SelfSum | src/math/core/tools/LinearAlgebra.js:573-576 | a sum of real non-negative terms is real and non-negative |
| Measures.InnerSelf | src/math/core/tools/LinearAlgebra.js:572-578 | the inner product of a vector with itself succeeds and is real and non-negative |
| Measures.ConjSum | src/math/core/tools/LinearAlgebra.js:573-576 | the sum of the conjugates is the conjugate of the sum |
| Measures.InnerConjugateSymmetric | src/math/core/tools/LinearAlgebra.js:572-578 | swapping two vectors of one length conjugates their inner product |
| Measures.InnerRowsAreTransposedColumns | src/math/core/tools/LinearAlgebra.js:582-604 | for equal shapes, inner along rows is the transpose of inner down the columns of the transposes |
| Measures.InnerScalarExample | test/LinearAlgebra.js:48 | inner(3 + j, 2 + j) is 7 + j |
| Measures.InnerOfRows3 | src/math/core/tools/LinearAlgebra.js:572-578 | the inner product of two 1×3 rows adds the three dots in order |
| Measures.InnerVectorExample | test/LinearAlgebra.js:49 | inner([1 2 3], [4 5 6]) is 32 |
| Measures.Sum3 | src/math/core/tools/LinearAlgebra.js:573-576 | a three-term sum adds its terms in order |
| Measures.SquareRootUnique | src/math/core/tools/LinearAlgebra.js:626 | two non-negative reals with the same square are equal |
| Measures.ModulusOfReal | src/math/core/tools/LinearAlgebra.js:626 | on the real axis the modulus is the absolute value |
| Measures.RSumExt | src/math/core/tools/LinearAlgebra.js:624-627 | sums of terms that agree are equal |
| Measures.RSumNonNegative | src/math/core/tools/LinearAlgebra.js:624-627 | a sum of moduli is non-negative |
| Measures.MaxFrom0Bounds | src/math/core/tools/LinearAlgebra.js:639-649 | the running maximum from 0 is at least 0 and every value, and is 0 or one of the values |
| Measures.MinOfBounds | src/math/core/tools/LinearAlgebra.js:675-690 | the running minimum from +∞ is at most every value and is one of them |
| Measures.MaxFrom0Ext | src/math/core/tools/LinearAlgebra.js:639-649 | running maxima over terms that agree are equal |
| Measures.ColumnModulusSum | src/math/core/tools/LinearAlgebra.js:642-645 | the inner loop adds the moduli down one column |
| Measures.RowModulusSum | src/math/core/tools/LinearAlgebra.js:694-697 | the inner loop adds the moduli along one row |
| Measures.Norm1 | src/math/core/tools/LinearAlgebra.js:619-651 | the 1-norm loop is the sum of moduli for a row or a column and the largest column sum otherwise |
| Measures.VectorExtreme | src/math/core/tools/LinearAlgebra.js:675-690 | for a vector the ±∞-norm is the largest modulus from 0 or the smallest from +∞ |
| Measures.NormInf | src/math/core/tools/LinearAlgebra.js:673-701 | the ±∞-norm loop matches its definition, the largest row sum for a matrix whatever the sign |
| Measures.NormDuality | src/math/core/tools/LinearAlgebra.js:616-701 | the 1-norm of a matrix is the ∞-norm of its transpose and the other way round |
| Measures.ModulusBelowSum | src/math/core/tools/LinearAlgebra.js:624-648 | each term of a sum of non-negative terms is at most the sum |
| Measures.CellBelowNorms | src/math/core/tools/LinearAlgebra.js:616-701 | the modulus of every cell is at most the 1-norm and the ∞-norm |
| Measures.NormVectorExamples | test/LinearAlgebra.js:272-294 | norm([1 -2 7 3], p) is 13, 7 and 1 for p = 1, +∞ and −∞ |
| Measures.RSum3 | src/math/core/tools/LinearAlgebra.js:624-627 | a three-term sum adds its terms in order |
| Measures.Example3x3Moduli | test/LinearAlgebra.js:274 | the test matrix is 3×3 with real cells whose moduli are their absolute values |
| Measures.Norm1MatrixExample | test/LinearAlgebra.js:274 | norm([-1 -2 1; 3 1.5 2; -3 4 0.5], 1) is 7.5 |
| Measures.NormInfMatrixExample | test/LinearAlgebra.js:295 | norm([-1 -2 1; 3 1.5 2; -3 4 0.5], −∞) is 7.5 |
| Measures.EyeAdjointCell | src/math/core/Matrix.js:1629-1635 | each cell of the identity's conjugate transpose is the identity's cell |
| Measures.EyeSelfAdjoint | src/math/core/Matrix.js:1629-1635 | the identity is its own conjugate transpose |
| Measures.EyeUnitary | src/math/core/Matrix.js:1629-1635 | eye(n) passes isUnitary |
| Measures.CondEye | src/math/core/tools/LinearAlgebra.js:720-738 | cond(eye(n), 2) is 1 without singular values |
| Measures.CondZerosAndVectors | src/math/core/tools/LinearAlgebra.js:723-731 | a zero matrix has cond +∞ and a vector whose first cell is 1 has cond 1 |
| Statistics.Along | src/math/core/Matrix.js:1094-1116 | a statistic applied along "auto", "row" or "column", when it succeeds, gives a rectangular matrix |
| Statistics.AlongAuto | src/math/core/Matrix.js:974-1007 | with one value per vector, the automatic direction gives that value for a single row and otherwise a row of the column values |
| Statistics.ColumnValues | src/math/core/Matrix.js:1069-1092 | along columns the values form one row, column j's value in cell j |
| Statistics.MaxIndex | src/math/core/tools/Statistics.js:42-50 | the kept element is replaced only by a strictly larger one: no element exceeds it by more than the tolerance, and every earlier one is strictly smaller |
| Statistics.MinIndex | src/math/core/tools/Statistics.js:67-75 | the mirror image for min: no element is below the kept one by more than the tolerance, every earlier one is strictly larger |
| Statistics.MaxMain | src/math/core/tools/Statistics.js:42-50 | the loop of max returns the element MaxIndex selects |
| Statistics.MinMain | src/math/core/tools/Statistics.js:67-75 | the loop of min returns the element MinIndex selects |
| Statistics.MaxIsFirstLargest | src/math/core/tools/Statistics.js:42-50 | when keys are equal or apart, max returns the first element of largest key |
| Statistics.SumMain | src/math/core/tools/Statistics.js:92-103 | Kahan's loop gives the left-to-right sum of the vector (over exact arithmetic the correction stays zero) |
| Statistics.SumConcat | src/math/core/tools/Statistics.js:92-103 | the sum of a concatenation is the sum of the two sums |
| Statistics.SumPrefix | src/math/core/tools/Statistics.js:96-101 | the sum of the first n elements depends on those elements only |
| Statistics.MeanOf | src/math/core/tools/Statistics.js:120-131 | the mean times the length is the sum |
| Statistics.MeanMain | src/math/core/tools/Statistics.js:120-131 | the loop of mean returns the sum divided by the length |
| Statistics.MulCount | src/math/core/tools/Statistics.js:130 | multiplying by the length as a complex number scales both parts |
| Statistics.SumConstant | src/math/core/tools/Statistics.js:96-101 | the sum of n copies of c is n·c |
| Statistics.MeanConstant | src/math/core/tools/Statistics.js:113-133 | the mean of a constant vector is that constant |
| Statistics.ProdMain | src/math/core/tools/Statistics.js:148-154 | the loop of prod returns the left-to-right product from ONE |
| Statistics.ZeroFactor | src/math/core/Complex.js:455-474 | a complex product is zero exactly when a factor is |
| Statistics.ProdZero | src/math/core/tools/Statistics.js:148-154 | the product is zero exactly when some element is zero |
| Statistics.OrderOf | src/math/core/tools/Statistics.js:559-573 | the sort ascends exactly when no order, an empty one or "ascend" is given; any other string descends |
| Statistics.Insert | src/math/core/tools/Statistics.js:578-581 | inserting one element lengthens the sequence by one |
| Statistics.SortVector | src/math/core/tools/Statistics.js:578-581 | the sort keeps the length |
| Statistics.InsertPermutation | src/math/core/tools/Statistics.js:578-581 | an insertion adds exactly the inserted element to the multiset |
| Statistics.SortPermutation | src/math/core/tools/Statistics.js:556-583 | the sort is a permutation of the vector, whatever the comparison |
| Statistics.PrecedesApart | src/math/core/tools/Statistics.js:564-573 | between keys that are equal or apart, the comparison is the order of the keys, ascending or descending |
| Statistics.InsertOrdered | src/math/core/tools/Statistics.js:578-581 | inserting into an ordered sequence keeps it ordered |
| Statistics.ConsOrdered | src/math/core/tools/Statistics.js:578-581 | an element that leads an ordered sequence can go in front of it |
| Statistics.InsertBound | src/math/core/tools/Statistics.js:578-581 | the head of an ordered sequence still leads the rest after an insertion it also leads |
| Statistics.SortOrdered | src/math/core/tools/Statistics.js:556-583 | when keys are equal or apart, the result is ordered as asked |
| Statistics.MedianOf | src/math/core/tools/Statistics.js:202-214 | for an odd length the median is one of the elements (the middle one of the ascending sort) |
| Statistics.MedianBetween | src/math/core/tools/Statistics.js:202-214 | the median's key lies between the smallest and the largest key |
| Statistics.SortedBounds | src/math/core/tools/Statistics.js:203 | the first and last keys of the ascending sort bound every key |
| Statistics.HalfKey | src/math/core/tools/Statistics.js:211 | the mean of the two middle elements has the mean of their keys |
| Statistics.Deviation | src/math/core/tools/Statistics.js:343-346 | the sum of squared distances from the mean is never negative |
| Statistics.VarianceOf | src/math/core/tools/Statistics.js:336-349 | the variance is real, and a single element has variance 0 |
| Statistics.VarianceMain | src/math/core/tools/Statistics.js:336-349 | the loop of variance divides the squared deviation by n − 1 + correction, and a zero denominator is an error |
| Statistics.VarianceScaled | src/math/core/tools/Statistics.js:343-348 | with the vector's own mean and no correction, n − 1 times the variance is the squared deviation |
| Statistics.DeviationConstant | src/math/core/tools/Statistics.js:343-346 | a constant vector has no deviation from that constant |
| Statistics.ZeroQuotient | src/math/core/tools/Statistics.js:348 | zero divided by a nonzero denominator is zero |
| Statistics.VarianceAtConstant | src/math/core/tools/Statistics.js:336-349 | a constant vector has variance 0 about that constant |
| Statistics.VarianceConstant | src/math/core/tools/Statistics.js:336-349 | a constant vector has variance 0 about its own mean |
| Statistics.Lines | src/math/core/Matrix.js:1046-1092 | the vectors walked along a dimension are non-empty and of one length |
| Statistics.Arrange | src/math/core/Matrix.js:1046-1092 | one value per vector makes a rectangular matrix, a column for rows and a row for columns |
| Statistics.AutoMeans | src/math/core/tools/Statistics.js:327 | `mean(X)` taken automatically yields one value for a single row, else one per column |
| Statistics.Variance | src/math/core/tools/Statistics.js:325-351 | variance with each vector's own mean fails exactly when n − 1 + correction is zero for vectors of more than one element |
| Statistics.VarianceAgreesByColumns | src/math/core/tools/Statistics.js:325-351 | along columns, automatically, and along a single row, the code as written agrees with the per-vector variance |
| Statistics.VarianceRowsAsWritten | src/math/core/tools/Statistics.js:327-341 | along "row" the code reads the column means: row [0 0] of [0 0; 2 2] gets variance 2, where its own mean gives 0 |
| Statistics.RowWiseVariances | src/math/core/tools/Statistics.js:336-349 | along "row" on a square matrix, row k's variance as written is about column k's mean, and as intended about the row's own mean |
| Statistics.ColumnMeanOne | src/math/core/tools/Statistics.js:120-131 | a column of 0 above 2 has mean 1 |
| Statistics.AutoMeansColumns | src/math/core/tools/Statistics.js:327-341 | with more than one row the k-th mean read is that of column k |
| Statistics.ConstantPair | src/math/core/tools/Statistics.js:336-349 | a pair of equal values has variance 0 |
| Statistics.VarianceAboutOne | src/math/core/tools/Statistics.js:343-348 | two zeros have variance 2 about the mean 1 |
| Statistics.VarianceConstantLines | src/math/core/tools/Statistics.js:325-351 | with each vector's own mean, a matrix whose vectors are each constant has variance 0 in every cell |
| Statistics.Max | src/math/core/tools/Statistics.js:35-52 | without a dimension, max of a single row is max of that row, and max of any other matrix is one row holding the max of each column |
| Statistics.Min | src/math/core/tools/Statistics.js:60-77 | without a dimension, min of a single row is min of that row, and of any other matrix one row holding the min of each column |
| Statistics.Sum | src/math/core/tools/Statistics.js:85-105 | without a dimension, sum of a single row is its sum, and of any other matrix one row holding each column's sum |
| Statistics.Mean | src/math/core/tools/Statistics.js:113-133 | without a dimension, mean of a single row is its mean, and of any other matrix one row holding each column's mean |
| Statistics.Prod | src/math/core/tools/Statistics.js:141-156 | without a dimension, prod of a single row is its product, and of any other matrix one row holding each column's product |
| Statistics.Median | src/math/core/tools/Statistics.js:187-216 | without a dimension, median of a single row is its median, and of any other matrix one row holding each column's median |
| Statistics.Sort | src/math/core/tools/Statistics.js:556-583 | without a dimension, a single row is sorted as a whole, and any other matrix keeps its shape with every column sorted in the order asked |
| Statistics.AlongAutoShape | src/math/core/Matrix.js:974-1007 | with no dimension a single row with a non-empty output goes to the statistic whole, and any other matrix column by column |
| Statistics.SortsColumns | src/math/core/Matrix.js:1069-1092 | when the statistic sorts each vector, column j of the column-by-column result is column j sorted |
| StatisticsFixtures.SortFixture | test/Statistics.js:107 | [6 6 1 2] sorted ascending is [1 2 6 6], the equal sixes kept in order |
| StatisticsFixtures.MedianOfFixture | test/Statistics.js:107 | the median of [6 6 1 2] is 4, the mean of the middle elements 2 and 6 of the sort |
| StatisticsFixtures.MedianFixture | test/Statistics.js:107 | median([6 6 1 2]) is [4] |
| StatisticsFixtures.SumOfFour | src/math/core/tools/Statistics.js:120-131 | the sum of four elements adds them left to right from the first |
| StatisticsFixtures.MeanFixture | test/Statistics.js:129 | the mean of [3 29 12 32] is 19 |
| StatisticsFixtures.DeviationOfFour | src/math/core/tools/Statistics.js:343-346 | the deviation of four elements is the sum of their four squared distances from the mean |
| StatisticsFixtures.SquaredDistance | src/math/core/tools/Statistics.js:343-346 | the squared modulus of the difference of two reals is the square of their distance |
| StatisticsFixtures.DeviationFixture | test/Statistics.js:129 | the squared distances of [3 29 12 32] from 19 add up to 574 |
| StatisticsFixtures.VarianceOfOneRow | src/math/core/tools/Statistics.js:325-351 | the variance of a single row, read along it, is the 1×1 matrix of that row's variance |
| StatisticsFixtures.VarianceOfFixture | test/Statistics.js:129-131 | the variance of [3 29 12 32] with correction c ≥ 0 is 574 / (3 + c) |
| StatisticsFixtures.VarianceFixture | test/Statistics.js:129-131 | variance([3 29 12 32]) is 574/3 ≈ 191.33 with correction 0 and 143.5 with correction 1 |
| Signals.Samples | src/math/core/tools/Signal.js:1113-1140 | the parts read from a vector form two arrays of one length: the number of columns of a row, else the number of rows |
| Signals.ReadSamples | src/math/core/tools/Signal.js:1117-1140 | the copying loops read row 0 of a row vector and column 0 otherwise, in order |
| Signals.Oriented | src/math/core/tools/Signal.js:1142-1147 | the result is a rectangular matrix |
| Signals.OrientedCells | src/math/core/tools/Signal.js:1142-1147 | a row result is 1×n and a column result n×1, holding output i at position i |
| Signals.Conv | src/math/core/tools/Signal.js:1107-1148 | conv fails exactly when an argument is a matrix; otherwise it returns the convolution of the two vectors, as a row when x2 is a row and as a column otherwise |
| Signals.Xcorr | src/math/core/tools/Signal.js:1157-1201 | xcorr fails exactly when an argument is a matrix; otherwise it returns the correlation at every lag (x1 against itself when x2 is missing), as a row when x1 is a row and as a column otherwise |
| Signals.Circshifted | src/math/core/Matrix.js:3368-3387 | a circular shift along a dimension, when it succeeds, gives a rectangular matrix |
| Signals.Fftshift | src/math/core/tools/Signal.js:1253-1272 | fftshift returns a new matrix holding FftshiftOf of its argument, and fails exactly when that does |
| Signals.FftshiftRow | src/math/core/tools/Signal.js:1255-1258 | a row vector is rotated right by ⌊n/2⌋ |
| Signals.FftshiftColumn | src/math/core/tools/Signal.js:1255-1258 | a column vector is rotated down by ⌊n/2⌋: y[i] = x[(i − ⌊n/2⌋) mod n] |
| Signals.ShiftRows | src/math/core/Matrix.js:3375-3385 | rotating every row by k keeps the shape and takes cell (i, j) from (i, (j − k) mod c) |
| Signals.ShiftColumns | src/math/core/Matrix.js:3375-3385 | rotating every column by k keeps the shape and takes cell (i, j) from ((i − k) mod r, j) |
| Signals.FftshiftBoth | src/math/core/tools/Signal.js:1259-1271 | without settings a matrix is rotated by half its width along its rows and then by half its height along its columns |
| Signals.ShiftBoth | src/math/core/tools/Signal.js:1270-1271 | both rotations together take cell (i, j) from ((i − k) mod r, (j − l) mod c) |
| SignalTool.ZeroSeq | src/math/core/tools/Signal.js:593-596 | n zeros, of length n |
| SignalTool.IsContainsZero | src/math/core/tools/Signal.js:448-455 | true exactly when some entry is not zero, in spite of the name |
| SignalTool.SameSignal | src/math/core/tools/Signal.js:524-533 | the is_self loop answers true exactly when the two signals are equal, length and both parts |
| SignalTool.Convolution | src/math/core/tools/Signal.js:589-622 | the convolution of n1 and n2 samples has n1 + n2 − 1 samples in both parts |
| SignalTool.SumTotal | src/math/core/tools/Signal.js:603-616 | the accumulated output k is the finite sum of the products x1[k − y]·x2[y] |
| SignalTool.SumOfReal | src/math/core/tools/Signal.js:597-608 | two real signals have a real convolution, which is why the real-only loop may skip the imaginary parts |
| SignalTool.UpTo | src/math/core/tools/Signal.js:603-616 | a sum whose terms vanish beyond n and beyond k equals its first k + 1 terms |
| SignalTool.SumUpTo | src/math/core/tools/Signal.js:603-616 | output k only receives the products with y ≤ k |
| SignalTool.ReversedRe | src/math/core/tools/Signal.js:611-616 | read backwards, the real products of conv(x2, x1) at output k are those of conv(x1, x2) |
| SignalTool.ReversedIm | src/math/core/tools/Signal.js:611-616 | read backwards, the imaginary products of conv(x2, x1) at output k are those of conv(x1, x2) |
| SignalTool.SumCommutes | src/math/core/tools/Signal.js:611-616 | output k of conv(x1, x2) and of conv(x2, x1) are equal |
| SignalTool.CommuteTerm | src/math/core/tools/Signal.js:613-614 | term y of one order is term k − y of the other |
| SignalTool.ConvolutionCommutes | src/math/core/tools/Signal.js:589-622 | convolution does not depend on the order of its arguments |
| SignalTool.ComplexRow | src/math/core/tools/Signal.js:612-615 | one pass of the complex outer loop adds sample y of x2 to every output's partial sums |
| SignalTool.RealRow | src/math/core/tools/Signal.js:604-606 | one pass of the real outer loop adds sample y of x2 to every output's real partial sum |
| SignalTool.DirectComplex | src/math/core/tools/Signal.js:589-622 | the complex double loop computes the convolution |
| SignalTool.DirectReal | src/math/core/tools/Signal.js:589-622 | for real signals the real-only double loop computes the convolution, imaginary parts 0 |
| SignalTool.Conv | src/math/core/tools/Signal.js:523-623 | conv returns the convolution of the two signals, and fails with a RangeError when both are empty |
| SignalTool.Correlation | src/math/core/tools/Signal.js:633-771 | the correlation of two signals has 2·max(n1, n2) − 1 lags |
| SignalTool.RevConj | src/math/core/tools/Signal.js:743-746 | x2 reversed and conjugated keeps its length |
| SignalTool.RevConjTwice | src/math/core/tools/Signal.js:743-746 | reversing and conjugating twice gives the signal back |
| SignalTool.ReverseConjugate | src/math/core/tools/Signal.js:740-746 | the loop fills g with x2 reversed and conjugated |
| SignalTool.LagTerm | src/math/core/tools/Signal.js:743-747 | term n2 − 1 − t of output k of conv(x1, g) is term t of lag k − (n2 − 1) |
| SignalTool.LagEntryRe | src/math/core/tools/Signal.js:743-747 | output k of conv(x1, g) is lag k − (n2 − 1) of the correlation, real part |
| SignalTool.LagEntryIm | src/math/core/tools/Signal.js:743-747 | output k of conv(x1, g) is lag k − (n2 − 1) of the correlation, imaginary part |
| SignalTool.LagEntry | src/math/core/tools/Signal.js:743-747 | output k of conv(x1, g) is lag k − (n2 − 1) of the correlation |
| SignalTool.LagOutside | src/math/core/tools/Signal.js:751-769 | lags at which the signals do not overlap are zero, which is what the padding supplies |
| SignalTool.PaddedCorrelation | src/math/core/tools/Signal.js:739-770 | conv(x1, g) padded with zeros in front when x1 is longer and at the end when it is shorter is the correlation at every lag |
| SignalTool.FoldLags | src/math/core/tools/Signal.js:714-721 | the double loop fills fg[m] with Σ_{t < n − m} x[t]·x[t + m] |
| SignalTool.Unfold | src/math/core/tools/Signal.js:723-731 | the fold writes fg[m] at n − 1 − m and at n − 1 + m, 2n − 1 entries |
| SignalTool.FoldTotal | src/math/core/tools/Signal.js:718-720 | the partial sum of the inner loop as a finite sum |
| SignalTool.RealLag | src/math/core/tools/Signal.js:719 | for a real signal a lag term is a product of real parts, a negative lag being a positive one shifted |
| SignalTool.FoldIsLag | src/math/core/tools/Signal.js:714-721 | for a real signal, lag m of its self-correlation is fg[m], with imaginary part 0 |
| SignalTool.FoldIsNegativeLag | src/math/core/tools/Signal.js:722-728 | for a real signal, lag −m of its self-correlation is fg[m] too |
| SignalTool.RealLagIm | src/math/core/tools/Signal.js:729-731 | every lag of a real signal's self-correlation has imaginary part 0 |
| SignalTool.AutoLag | src/math/core/tools/Signal.js:722-731 | entries n − 1 − m and n − 1 + m of a real self-correlation are both fg[m], imaginary parts 0 |
| SignalTool.RealAutocorrelation | src/math/core/tools/Signal.js:709-736 | a real self-correlation has 2n − 1 entries, is symmetric about the centre and real |
| SignalTool.CentreIsEnergy | src/math/core/tools/Signal.js:714-727 | the centre entry is the energy Σ x² |
| SignalTool.SelfCorrelation | src/math/core/tools/Signal.js:709-736 | the fold path computes the correlation of a real signal with itself |
| SignalTool.Xcorr | src/math/core/tools/Signal.js:633-771 | xcorr returns the correlation at every lag on every path (on the self FFT path with the corrected inverse transform, see Findings), and fails with a RangeError when both signals are empty |
| SignalFixtures.ConvFixture | test/Signal.js:144 | conv([1 2 3 4], [5 4 3 2 1]) is [5 14 26 40 30 20 11 4] |
| SignalFixtures.XcorrFixture | test/Signal.js:154 | xcorr([1 2 3 4], [5 4 3 2 1]) is [1 4 10 20 30 34 31 20 0] |
| XcorrFindings.Butterfly | src/math/core/tools/Signal.js:135-275 | the two-point transform (a0 + a1, a0 − a1): its two outputs add up to twice the first input |
| XcorrFindings.Ifft2 | src/math/core/tools/Signal.js:135-275 | the two-point inverse transform, the butterfly scaled by 1/2, is undone by the butterfly |
| XcorrFindings.PowerFft2 | src/math/core/tools/Signal.js:505-513 | the power spectrum of two points is two non-negative values |
| XcorrFindings.SelfFft | src/math/core/tools/Signal.js:651-675 | the self path on one sample, padded to two, keeps one sample after the pop and the wrapped shift |
| XcorrFindings.SelfFftAsWritten | src/math/core/tools/Signal.js:651-675 | as written, with the padded input's imaginary parts handed to ifft, the result for a sample x is the real part |x|² and the imaginary part im(x)/2 |
| XcorrFindings.SelfFftCorrected | src/math/core/tools/Signal.js:651-675 | with zeros handed to ifft, the result is |x|² with no imaginary part |
| XcorrFindings.CorrelationOfOne | src/math/core/tools/Signal.js:633-771 | the correlation of one sample with itself is |x|² with no imaginary part |
| XcorrFindings.SelfFftCorrectedIsCorrelation | src/math/core/tools/Signal.js:651-675 | the corrected self path is the correlation for every one-sample signal |
| XcorrFindings.SelfFftAsWrittenAgrees | src/math/core/tools/Signal.js:651-675 | as written, the self path agrees with the correlation exactly when the sample is real |
| XcorrFindings.SelfFftImaginaryUnit | src/math/core/tools/Signal.js:651-675 | xcorr([i]) as written is [1 + 0.5i], where the correlation is [1] |
| FftBits.BitsOf | src/math/core/tools/Signal.js:33-42 | the low n bits of a number, least significant first, n of them |
| FftBits.ValueOfBits | src/math/core/tools/Signal.js:33-42 | reading back the bits of a value below 2^n gives the value |
| FftBits.BitsOfValue | src/math/core/tools/Signal.js:33-42 | writing a pattern's value in as many bits gives the pattern back |
| FftBits.ValueInjective | src/math/core/tools/Signal.js:33-42 | two patterns of one length with one value are the same pattern |
| FftBits.SwapBlocksAt | src/math/core/tools/Signal.js:36-40 | one line of the bit swaps takes bit i from bit i + w or i − w, the partner in the neighbouring block |
| FftBits.PartnersReverse | src/math/core/tools/Signal.js:36-40 | following the partners of the five swaps sends bit i to bit 31 − i |
| FftBits.ReverseBitsAt | src/math/core/tools/Signal.js:35-41 | bit i of the result of the five swaps is bit 31 − i of the input |
| FftBits.ReverseBitsTwice | src/math/core/tools/Signal.js:35-41 | reversing a pattern twice restores it |
| FftBits.BitReverse32 | src/math/core/tools/Signal.js:33-42 | bit_reverse_32 returns a signed 32-bit integer |
| FftBits.BitReverse32Pattern | src/math/core/tools/Signal.js:33-42 | the 32-bit pattern of bit_reverse_32(x) is the pattern of x reversed |
| FftBits.BitReverse32At | src/math/core/tools/Signal.js:33-42 | bit k of bit_reverse_32(x) is bit 31 − k of x |
| FftBits.PatternOfInt32 | src/math/core/tools/Signal.js:34 | a value below 2^32 read as a signed 32-bit integer keeps its pattern |
| FftBits.BitReverse32Twice | src/math/core/tools/Signal.js:33-42 | bit_reverse_32 applied twice gives back x as a signed 32-bit integer |
| FftBits.TableSize | src/math/core/tools/Signal.js:50 | `1 << bit` is 2^(bit mod 32) for bit mod 32 up to 30, and negative at 31 |
| FftBits.CreateBitReverseTable | src/math/core/tools/Signal.js:49-56 | the table has `1 << bit` entries, none when that is negative, entry i being `bit_reverse_32(i) >>> (32 - bit)` |
| FftBits.EntryPattern | src/math/core/tools/Signal.js:53 | the bits of an entry are the reversed pattern of i shifted down by 32 − bit |
| FftBits.EntryBits | src/math/core/tools/Signal.js:53 | bit j of entry i is bit bit − 1 − j of i below bit, and clear from bit on |
| FftBits.EntryBelow | src/math/core/tools/Signal.js:53 | an entry of a table of 1 to 30 bits lies below 2^bit |
| FftBits.TableInvolution | src/math/core/tools/Signal.js:49-56 | for 1 to 30 bits the table maps [0, 2^bit) into itself and is its own inverse |
| FftBits.TablePermutation | src/math/core/tools/Signal.js:49-56 | a table of 1 to 30 bits is a permutation of [0, 2^bit): in range, its own inverse, without repeats |
| FftCache.Find | src/math/core/tools/Signal.js:310-317 | the first position holding the size, or the length when it is absent |
| FftCache.FindIs | src/math/core/tools/Signal.js:310-317 | a position before which the size does not occur and at which it does is the one Find gives |
| FftCache.ToFrontAt | src/math/core/tools/Signal.js:313-314 | after moving entry k to the front, position 0 holds entry k, positions 1..k the entries before it, the rest stay |
| FftCache.AfterGetFront | src/math/core/tools/Signal.js:309-327 | after a successful get the requested size is in front |
| FftCache.AfterGetFails | src/math/core/tools/Signal.js:319-322 | get fails exactly when a miss meets an empty table of capacity 0, where pop yields undefined |
| FftCache.AfterGetHit | src/math/core/tools/Signal.js:310-317 | a hit only reorders the table: the same sizes, as many times each |
| FftCache.AfterGetMiss | src/math/core/tools/Signal.js:318-326 | a miss puts the new size in front and drops the last one only when the table is full |
| FftCache.AfterGetGood | src/math/core/tools/Signal.js:309-327 | get keeps the table within its capacity and free of repeated sizes |
| FftCache.Entry.constructor | src/math/core/tools/Signal.js:62-114 | a new entry has the requested size and is not freed |
| FftCache.Entry.Free | src/math/core/tools/Signal.js:119-127 | free marks the entry as freed |
| FftCache.FFTCache.constructor | src/math/core/tools/Signal.js:283-301 | a new cache is empty with the given capacity |
| FftCache.FFTCache.Get | src/math/core/tools/Signal.js:309-327 | the new table is what AfterGet gives; a hit returns the cached entry moved to the front, a miss a fresh one in front; only an evicted entry is freed; the cache stays valid |
| FftCache.FFTCache.Lookup | src/math/core/tools/Signal.js:310-317 | the loop stops at the first entry of that size, or at the end |
| FftCache.FFTCache.Insert | src/math/core/tools/Signal.js:318-326 | a fresh entry goes in front; when the table is full the last entry is popped and freed first |
| FftCache.HitFacts | src/math/core/tools/Signal.js:313-314 | on a hit, moving the entry to the front keeps the entries and gives the sizes AfterGet gives |
| FftCache.SizesToFront | src/math/core/tools/Signal.js:313-314 | the sizes of the reordered table are the reordered sizes |
| FftCache.SameEntries | src/math/core/tools/Signal.js:313-314 | moving an entry to the front loses and adds no entry |
| FftCache.EvictedAbsent | src/math/core/tools/Signal.js:321-322 | the popped entry is not among those that stay, so freeing it frees nothing kept |
| Decomposition.SwapPermutation | src/math/core/tools/LinearAlgebra.js:877-881 | exchanging two positions of a permutation and the matching entries of its inverse keeps them mutually inverse permutations |
| Decomposition.SwapPermutationMatrix | src/math/core/tools/LinearAlgebra.js:880 | exchanging two rows of P exchanges the same two entries of the permutation it represents |
| Decomposition.RowColumnSelect | src/math/core/Matrix.js:1892-1905 | a row that is one at s and zero elsewhere picks row s of the other factor |
| Decomposition.PermutationProduct | src/math/core/tools/LinearAlgebra.js:857-904 | multiplying by P reorders the rows: row i of P·A is row perm[i] of A |
| Decomposition.PermutationAdjoint | src/math/core/tools/LinearAlgebra.js:916 | a permutation matrix is real, so its conjugate transpose is its transpose |
| Decomposition.InverseRow | src/math/core/tools/LinearAlgebra.js:916 | row i of P^T is one at inv[i] and zero elsewhere |
| Decomposition.InverseProductCell | src/math/core/tools/LinearAlgebra.js:916 | a unit row of the left factor picks one row of the right factor |
| Decomposition.InversePermutationProduct | src/math/core/tools/LinearAlgebra.js:916 | multiplying by P^T undoes the reordering: row i of P^T·X is row inv[i] of X |
| Decomposition.RowColumnExt | src/math/core/Matrix.js:1892-1905 | a cell of a product depends only on the first n cells of its row and column |
| Decomposition.RowColumnUnit | src/math/core/tools/LinearAlgebra.js:896-898 | setting a zero coefficient at s to one adds row s of the other factor |
| Decomposition.FactoredStart | src/math/core/tools/LinearAlgebra.js:858-863 | before any column, L zero, U equal to A and the identity order satisfy the elimination invariant |
| Decomposition.LupStart | src/math/core/tools/LinearAlgebra.js:858-863 | lup starts with L zero, U equal to A and P the identity |
| Decomposition.SkipColumn | src/math/core/tools/LinearAlgebra.js:873-875 | a column with no nonzero cell from row k on is skipped without breaking the invariant |
| Decomposition.ZeroColumnTerm | src/math/core/tools/LinearAlgebra.js:873-875 | a zero column of L adds nothing to the products of L and U |
| Decomposition.SwapStep | src/math/core/tools/LinearAlgebra.js:877-881 | exchanging rows k and pivot of L, U and the permutation keeps P·A = L·U + U's pending part |
| Decomposition.StartElimination | src/math/core/tools/LinearAlgebra.js:884 | with a nonzero pivot in row k the elimination of column k can start at row k + 1 |
| Decomposition.Cancel | src/math/core/tools/LinearAlgebra.js:885-890 | the multiplier added to L and taken from U cancels |
| Decomposition.RowCancel | src/math/core/tools/LinearAlgebra.js:885-890 | for the eliminated row the product term added to L's side cancels what is taken out of U |
| Decomposition.EliminationCell | src/math/core/tools/LinearAlgebra.js:885-890 | one cell of the elimination step keeps the factorisation of that cell |
| Decomposition.EliminationPrefix | src/math/core/tools/LinearAlgebra.js:885-890 | eliminating one row leaves the first k terms of every product unchanged |
| Decomposition.EliminationStep | src/math/core/tools/LinearAlgebra.js:884-891 | one row of the elimination keeps the invariant and moves to the next row |
| Decomposition.FinishElimination | src/math/core/tools/LinearAlgebra.js:884-891 | after the last row column k is done |
| Decomposition.UnitDiagonal | src/math/core/tools/LinearAlgebra.js:893-898 | L resized to rows × min(rows, cols) keeps its cells and holds ONE on the diagonal |
| Decomposition.FinalProduct | src/math/core/tools/LinearAlgebra.js:893-898 | after the last column the resized factors multiply back to the reordered rows of A |
| Decomposition.FinalUpperCell | src/math/core/tools/LinearAlgebra.js:893-898 | a row of L with its unit diagonal, inside the resized factors, multiplies back to A's row |
| Decomposition.FinalLowerCell | src/math/core/tools/LinearAlgebra.js:893-898 | a row below the last pivot multiplies back to A's row although U's rows there are cut off |
| Decomposition.Lup | src/math/core/tools/LinearAlgebra.js:857-904 | lup returns L rows × min(rows, cols) unit lower triangular, U min(rows, cols) × cols upper triangular and P a permutation matrix, with P·A = L·U |
| Decomposition.FinalFactors | src/math/core/tools/LinearAlgebra.js:893-903 | the resized factors have the shapes and zero triangles lup promises and P·A = L·U |
| Decomposition.LupColumn | src/math/core/tools/LinearAlgebra.js:866-892 | one pass of the outer loop keeps the invariant for one more column |
| Decomposition.ExchangeRows | src/math/core/tools/LinearAlgebra.js:877-881 | the exchange of rows k and pivot in L, U and P keeps the invariant and brings the pivot row to k |
| Decomposition.EliminateBelow | src/math/core/tools/LinearAlgebra.js:884-891 | the elimination below row k completes column k |
| Decomposition.Lu | src/math/core/tools/LinearAlgebra.js:914-921 | lu returns L and U with L·U = A, U upper triangular, and L unit lower triangular once its rows are put back in pivot order |
| Decomposition.LuProduct | src/math/core/tools/LinearAlgebra.js:915-916 | from P·A = L·U, P^T·L times U gives back A, and P^T·L is L with its rows put back in the original order |
| Determinant.Minor | src/math/core/tools/LinearAlgebra.js:812-823 | D leaves out row i and the first column: square, one size smaller, cell (r, c) from row r or r + 1 and column c + 1 |
| Determinant.DetAsWrittenOneByOne | src/math/core/tools/LinearAlgebra.js:800-832 | as written, a 1×1 matrix reaches the loop and calcDet of the empty minor is ZERO, so det([a]) is 0 for every a |
| Determinant.CalcDet | src/math/core/tools/LinearAlgebra.js:800-832 | the recursive loop computes the cofactor expansion down the first column, alternating signs by row |
| Determinant.ShiftProduct | src/math/core/tools/LinearAlgebra.js:800-832 | the corner times the diagonal product of the minor is the diagonal product of the matrix |
| Determinant.ExpansionUpper | src/math/core/tools/LinearAlgebra.js:806-830 | when the first column is zero below the corner, only the first term of the expansion remains |
| Determinant.DetUpperTriangular | src/math/core/tools/LinearAlgebra.js:800-832 | the determinant of an upper-triangular matrix is the product of its diagonal |
| Determinant.DetIdentity | src/math/core/tools/LinearAlgebra.js:790-846 | det(eye(n)) is 1 for every n ≥ 1, the 1×1 case included |
| Determinant.DiagonalOnes | src/math/core/tools/LinearAlgebra.js:840 | a product of ones is one |
| Determinant.CofactorDetAgrees | src/math/core/tools/LinearAlgebra.js:800-832 | from size 2 on the expansion with the 1×1 base case equals calcDet as written |
| Determinant.ExpansionAgrees | src/math/core/tools/LinearAlgebra.js:806-830 | from size 3 on each partial expansion equals the one written |
| Determinant.DetTwoByTwo | test/LinearAlgebra.js:263 | det([6 2; 1 4]) is 22 |
| DeterminantFixtures.CofactorThree | src/math/core/tools/LinearAlgebra.js:806-830 | a 3×3 expansion is the three signed first-column terms, each on a 2×2 minor |
| DeterminantFixtures.CofactorFour | src/math/core/tools/LinearAlgebra.js:806-830 | a 4×4 expansion is the four signed first-column terms, each on a 3×3 minor |
| DeterminantFixtures.RealThree | src/math/core/tools/LinearAlgebra.js:806-830 | on real entries the 3×3 expansion is the usual real determinant |
| DeterminantFixtures.DetThreeByThree | test/LinearAlgebra.js:264 | det([1 2 3; 0 -1 5; -2 3 4]) is −45 |
| DeterminantFixtures.DetFourByFour | test/LinearAlgebra.js:265 | det([3 2 1 0; 1 2 3 4; 2 1 0 1; 2 0 2 1]) is −32 |
| DeterminantFixtures.DiagonalFive | src/math/core/tools/LinearAlgebra.js:840 | the diagonal product of a 5×5 matrix with a real diagonal is the real product of those five entries |
| DeterminantFixtures.UpperDiagonal | test/LinearAlgebra.js:266 | for the stated U (a hand computation of lup on the 5×5 matrix, not derived from Decomposition.Lup), the diagonal 2 · 7/2 · 27/7 · 176/27 · −71/44 multiplies out to −284 |
| DeterminantFixtures.PivotOrder | src/math/core/tools/LinearAlgebra.js:836-843 | the stated permutation matrix of the row order 0, 4, 3, 2, 1 has exchange count 2, which is even |
| DeterminantFixtures.DetFiveByFive | test/LinearAlgebra.js:266 | for the stated P (rows 0, 4, 3, 2, 1) and U, hand-computed from lup's pivot rule on [2 3 1 4 5; 2 3 0 3 4; 1 4 0 8 3; 1 1 4 5 0; 1 5 3 4 5] and not derived from Decomposition.Lup, the large-size value is −284, not negated |
| Determinant.DetRowExchange | src/math/core/tools/LinearAlgebra.js:801-804 | exchanging the rows of a 2×2 matrix negates its determinant |
| Determinant.ExchangeParity | src/math/core/tools/LinearAlgebra.js:841 | `% 2 === 1` holds for odd whole counts and fails for even ones |
| Determinant.TraceCounts | src/math/core/tools/LinearAlgebra.js:838 | the trace of a permutation matrix counts the rows it leaves in place |
| Determinant.ExchangeCountMoved | src/math/core/tools/LinearAlgebra.js:838 | the exchange count is half the number of rows P moves |
| Determinant.SingleExchangeNegates | src/math/core/tools/LinearAlgebra.js:838-843 | a single exchange of two rows gives the count 1, which negates the product |
| Determinant.MovedTwo | src/math/core/tools/LinearAlgebra.js:838 | a transposition leaves all but its two rows in place |
| Determinant.Det | src/math/core/tools/LinearAlgebra.js:790-846 | det fails exactly on a non-square matrix; below size 5 it is the cofactor expansion; from size 5 it is the diagonal product of an upper-triangular U with P·A = L·U, negated when the count (len − trace P)/2 is odd |
| DeterminantFindings.Exchanged | src/math/core/tools/LinearAlgebra.js:833-845 | one row exchange of lup: the two positions swap and every other stays |
| DeterminantFindings.ThreeExchanges | src/math/core/tools/LinearAlgebra.js:833-845 | the exchanges 0↔1, 1↔2, 2↔3 on five rows give the order [1 2 3 0 4] |
| DeterminantFindings.CycleAsWritten | src/math/core/tools/LinearAlgebra.js:836-843 | as written, for P of [1 2 3 0 4] (three exchanges) the trace is 1, the count is 2, and the product of U's diagonal is not negated |
| DeterminantFindings.ExchangeKeepsSignAsWritten | src/math/core/tools/LinearAlgebra.js:836-843 | as written, the third exchange after [1 2 0 3 4] (count 1.5) leaves the sign as it was, both unnegated |
| DeterminantFindings.ThreeCycleCount | src/math/core/tools/LinearAlgebra.js:838 | P of [1 2 0 3 4] leaves two rows in place: the count is 1.5 |
| DeterminantFindings.HalfNotOdd | src/math/core/tools/LinearAlgebra.js:841 | `1.5 % 2 === 1` is false |
| DeterminantFindings.CountBelow | src/math/core/tools/LinearAlgebra.js:838 | how many entries are below a value, at most the length |
| DeterminantFindings.LupDetCorrected | src/math/core/tools/LinearAlgebra.js:836-843 | corrected: the product of U's diagonal, negated exactly when the permutation has an odd number of inversions |
| DeterminantFindings.CountBelowExchange | src/math/core/tools/LinearAlgebra.js:838 | the count below a value does not depend on the order of two neighbours |
| DeterminantFindings.InversionsExchange | src/math/core/tools/LinearAlgebra.js:838 | exchanging two distinct neighbours changes the inversions by one |
| DeterminantFindings.ExchangeNegatesCorrected | src/math/core/tools/LinearAlgebra.js:836-843 | corrected: every exchange of two neighbouring rows negates the value |
| DeterminantFindings.CycleCorrected | src/math/core/tools/LinearAlgebra.js:836-843 | corrected: the rows in order keep the sign and [1 2 3 0 4] (three inversions) negates it |
| Elimination.MaxRowNumber | src/math/core/tools/LinearAlgebra.js:474-492 | getMaxRowNumber returns the first row from the offset whose cell in the column has the largest modulus (kept squared, which orders rows the same way), and index 0 with max 0 when every such cell is zero |
| Elimination.MaxRowOf | src/math/core/tools/LinearAlgebra.js:481-487 | a zero maximum leaves index 0; otherwise the index lies in the scanned rows |
| Elimination.NotAboveZero | src/math/core/tools/LinearAlgebra.js:483 | a cell whose modulus is not above zero is zero |
| Elimination.EliminateRow | src/math/core/tools/LinearAlgebra.js:539-541 | only the target row changes: from column `from` on it loses the pivot row times the factor |
| Elimination.ScaledRowOf | src/math/core/tools/LinearAlgebra.js:959-962 | scaling one row keeps the shape |
| Elimination.ScaleRow | src/math/core/tools/LinearAlgebra.js:959-962 | only the pivot row changes: from column `from` on each cell is multiplied by c |
| Elimination.Range | src/math/core/tools/LinearAlgebra.js:505-508 | row_index_array starts as 0, 1, …, n − 1 |
| Elimination.MaxRemaining | src/math/core/tools/LinearAlgebra.js:511-524 | the search over the remaining rows finds the first largest cell, as its key in the list and its row number, or 0 when all are zero |
| Elimination.EliminatedRowMatches | src/math/core/tools/LinearAlgebra.js:538-541 | eliminating from a row not yet touched, with the factor read from the current grid, gives EliminatedRowOf of the original rows and changes no other row |
| Elimination.EliminateRemaining | src/math/core/tools/LinearAlgebra.js:536-542 | the loop computes EliminatedRest: every remaining row is replaced by itself minus the pivot row scaled to cancel column col, so column col is cleared there; the pivot row stays |
| Elimination.SpliceAscending | src/math/core/tools/LinearAlgebra.js:530 | taking one row number out of an ascending list leaves an ascending list without it |
| Elimination.LinearDependenceVector | src/math/core/tools/LinearAlgebra.js:500-545 | the rows come back in ascending order and are exactly the rows never taken as a pivot by the column-by-column extraction DependentRowsOf (tolerance 1e-10 when none is given) |
| Elimination.RowsLeftUnbounded | src/math/core/tools/LinearAlgebra.js:509-531 | with a negative tolerance the largest modulus, starting at 0, always exceeds it: every column takes one row out while any is left, so rows − min(rows, cols) stay |
| Elimination.Rank | src/math/core/tools/LinearAlgebra.js:757-767 | rank is the row count minus the number of dependent rows; it is at most min(rows, cols); with a tolerance of zero or more it is 0 exactly when every cell is within the tolerance, and a negative tolerance gives min(rows, cols), so rank([0], -1) is 1 |
| Elimination.Squared | src/math/core/tools/LinearAlgebra.js:518-527 | the pivot search compares squared moduli with the squared tolerance, which is non-negative |
| Elimination.MaxRemainingOf | src/math/core/tools/LinearAlgebra.js:511-524 | the winner over the listed rows is zero with key 0, or the squared modulus of a nonzero cell of a listed row |
| Elimination.MaxRemainingIsMax | src/math/core/tools/LinearAlgebra.js:511-524 | the winner is at least every listed cell and strictly above every listed cell before it: the first largest |
| Elimination.EliminatedRowOf | src/math/core/tools/LinearAlgebra.js:539-541 | an eliminated row keeps the width of the grid |
| Elimination.EliminatedRest | src/math/core/tools/LinearAlgebra.js:536-542 | eliminating from the listed rows keeps the shape |
| Elimination.EliminatedRestRows | src/math/core/tools/LinearAlgebra.js:536-542 | each listed row is eliminated once, and every other row is unchanged |
| Elimination.EliminatedRestClears | src/math/core/tools/LinearAlgebra.js:536-542 | the pivot row and the unlisted rows stay; every listed row ends with zero in column col |
| Elimination.EliminatedRestSnoc | src/math/core/tools/LinearAlgebra.js:536-542 | one more listed row changes that row alone |
| Elimination.ColumnOf | src/math/core/tools/LinearAlgebra.js:511-543 | one column of the extraction keeps the shape and takes at most one row out of the list |
| Elimination.DependentRowsOf | src/math/core/tools/LinearAlgebra.js:509-544 | the rows left after the remaining columns: row numbers of the grid, at most one fewer per column |
| Elimination.DependentRowsNext | src/math/core/tools/LinearAlgebra.js:509-544 | the extraction from column ct on is column ct followed by the extraction from ct + 1 on |
| Elimination.ColumnTakes | src/math/core/tools/LinearAlgebra.js:525-543 | a winner above the tolerance leaves the list and, unless the column is the last, is eliminated from the rows still listed |
| Elimination.ColumnSkips | src/math/core/tools/LinearAlgebra.js:525-527 | a winner within the tolerance changes nothing, and the column's listed cells are all within it |
| Elimination.AllColumnsDone | src/math/core/tools/LinearAlgebra.js:510 | past the last column the list is returned as it is |
| Elimination.DependentRowsKeepAll | src/math/core/tools/LinearAlgebra.js:509-544 | no row leaves the list exactly when every listed cell of the remaining columns is within the tolerance |
| Elimination.PivotLeaves | src/math/core/tools/LinearAlgebra.js:525-530 | a column whose largest listed cell is above the tolerance takes a row out of the list |
| Elimination.DependentRowsBounds | src/math/core/tools/LinearAlgebra.js:500-545 | the dependent rows number at least rows − cols and at most rows, and all rows exactly when every cell is within the tolerance |
| Elimination.TakePivot | src/math/core/tools/LinearAlgebra.js:526-543 | the winner leaves the ascending list, and unless the column is the last it is eliminated from the rows still listed |
| Elimination.ColumnStep | src/math/core/tools/LinearAlgebra.js:511-543 | one pass of the column loop computes ColumnOf and reports whether a pivot was taken |
| LinearAlgebraFixtures.PivotTwoByTwo | test/LinearAlgebra.js:57 | in [1 2; 2 4] the pivot of column 0 is row 1, squared modulus 4 |
| LinearAlgebraFixtures.RowOneTwoByTwo | test/LinearAlgebra.js:57 | row 0 of [1 2; 2 4] minus half of row 1 is zero |
| LinearAlgebraFixtures.ClearedTwoByTwo | test/LinearAlgebra.js:57 | eliminating with pivot row 1 turns [1 2; 2 4] into [0 0; 2 4] |
| LinearAlgebraFixtures.FirstColumnTwoByTwo | test/LinearAlgebra.js:57 | column 0 of [1 2; 2 4] takes row 1 and leaves row 0 listed |
| LinearAlgebraFixtures.SecondColumnTwoByTwo | test/LinearAlgebra.js:57 | column 1 of [0 0; 2 4] with row 0 listed takes nothing |
| LinearAlgebraFixtures.DependentRowsTwoByTwo | test/LinearAlgebra.js:57 | the dependent rows of [1 2; 2 4] are [0] |
| LinearAlgebraFixtures.RankTwoByTwo | test/LinearAlgebra.js:57 | rank([1 2; 2 4]) is 1 |
| LinearAlgebraFixtures.PivotThreeFirst | test/LinearAlgebra.js:59 | in [1 2 3; 0 0 0; 2 4 5] the pivot of column 0 is row 2 |
| LinearAlgebraFixtures.RowOneThreeFirst | test/LinearAlgebra.js:59 | row 0 minus half of row 2 is [0 0 0.5] |
| LinearAlgebraFixtures.ZeroRowStays | src/math/core/tools/LinearAlgebra.js:539-541 | a row of zeros is unchanged by an elimination |
| LinearAlgebraFixtures.ClearedThreeFirst | test/LinearAlgebra.js:59 | eliminating with pivot row 2 from rows 0 and 1 leaves [0 0 0.5; 0 0 0; 2 4 5] |
| LinearAlgebraFixtures.FirstColumnThreeByThree | test/LinearAlgebra.js:59 | column 0 takes row 2 and leaves rows 0 and 1 listed |
| LinearAlgebraFixtures.LaterColumnsThreeByThree | test/LinearAlgebra.js:59 | columns 1 and 2 leave row 1 alone listed |
| LinearAlgebraFixtures.DependentRowsThreeByThree | test/LinearAlgebra.js:59 | the dependent rows of [1 2 3; 0 0 0; 2 4 5] are [1] |
| LinearAlgebraFixtures.RankThreeByThree | test/LinearAlgebra.js:59 | rank([1 2 3; 0 0 0; 2 4 5]) is 2 |
| Inverse.Augmented | src/math/core/tools/LinearAlgebra.js:1184-1185 | [X \| I]: n × 2n, X on the left, the identity on the right |
| Inverse.RightHalf | src/math/core/tools/LinearAlgebra.js:1218-1225 | the columns n .. 2n − 1 of every row, n × n |
| Inverse.EliminatedOf | src/math/core/tools/LinearAlgebra.js:1206-1215 | every row but k, from column k on, loses row k times its own entry in column k; row k stays |
| Inverse.RightTimesScale | src/math/core/tools/LinearAlgebra.js:1200-1203 | scaling a row scales its right half times X |
| Inverse.RightTimesEliminate | src/math/core/tools/LinearAlgebra.js:1210-1214 | subtracting f times row k subtracts f times its right half times X |
| Inverse.ScaleConsistent | src/math/core/tools/LinearAlgebra.js:1200-1203 | normalising a row keeps "left half = right half · X" for that row |
| Inverse.EliminateConsistent | src/math/core/tools/LinearAlgebra.js:1210-1214 | eliminating keeps "left half = right half · X" for the row |
| Inverse.SwapKeeps | src/math/core/tools/LinearAlgebra.js:1194-1196 | exchanging row k with a later row keeps the invariant and the reduced columns |
| Inverse.NormalizeKeeps | src/math/core/tools/LinearAlgebra.js:1198-1204 | normalising row k by the inverse of its pivot keeps the invariant and puts ONE on the diagonal |
| Inverse.EliminateKeeps | src/math/core/tools/LinearAlgebra.js:1205-1215 | eliminating column k from every other row keeps the invariant and reduces column k |
| Inverse.StepKeeps | src/math/core/tools/LinearAlgebra.js:1190-1216 | one column of Gauss–Jordan keeps the invariant and reduces one more column |
| Inverse.GaussJordanKeeps | src/math/core/tools/LinearAlgebra.js:1190-1216 | when the loop finishes, the invariant holds and the left half is the identity |
| Inverse.UnitRightTimes | src/math/core/tools/LinearAlgebra.js:1185 | a row of I on the right picks a row of X |
| Inverse.InitialTracks | src/math/core/tools/LinearAlgebra.js:1184-1185 | [X \| I] satisfies the invariant with no column reduced |
| Inverse.RightHalfTimes | src/math/core/tools/LinearAlgebra.js:1218-1225 | a cell of right half · X is the row's right half times column j of X |
| Inverse.InverseProduct | src/math/core/tools/LinearAlgebra.js:1218-1227 | once the left half is the identity, the right half times X is the identity |
| Inverse.GaussJordanInverts | src/math/core/tools/LinearAlgebra.js:1181-1227 | whatever the corrected loop returns, its right half is a left inverse of X |
| Inverse.RowColumnSingle | src/math/core/Matrix.js:1892-1905 | a row with a single nonzero entry at s picks row s of the other factor, scaled |
| Inverse.DiagonalInverseExact | src/math/core/tools/LinearAlgebra.js:1171-1179 | for a diagonal matrix with nonzero diagonal the corrected diagonal path returns a left inverse |
| Inverse.ScalarInverseProduct | src/math/core/tools/LinearAlgebra.js:1165-1167 | the reciprocal of a nonzero scalar is its inverse |
| Inverse.EliminateOthers | src/math/core/tools/LinearAlgebra.js:1206-1215 | the elimination loop computes EliminatedOf |
| Inverse.GaussJordan | src/math/core/tools/LinearAlgebra.js:1181-1216 | the loop computes the Gauss–Jordan reduction of [X \| I], or reports a zero pivot |
| Inverse.GaussJordanStep | src/math/core/tools/LinearAlgebra.js:1190-1216 | one column: exchange, normalise and eliminate, or report a zero pivot |
| Inverse.SwapShape | src/math/core/Matrix.js:3209-3220 | exchanging two rows keeps a rectangular shape |
| Inverse.GaussJordanUnfold | src/math/core/tools/LinearAlgebra.js:1190-1216 | one step of the reduction, without the exchange when the column is zero |
| Inverse.DiagonalPath | src/math/core/tools/LinearAlgebra.js:1171-1179 | the diagonal loop computes the transpose with each diagonal entry inverted |
| Inverse.Inv | src/math/core/tools/LinearAlgebra.js:1163-1228 | a scalar gets its reciprocal; a non-square matrix is an error; a diagonal one its reciprocal diagonal; otherwise either a zero pivot is reported or a left inverse of X comes back, and it comes back exactly when X sends only the zero vector to zero |
| InverseFindings.AugmentedSingular | src/math/core/tools/LinearAlgebra.js:1184-1185 | [1 1; 0 0] augmented is [1 1 1 0; 0 0 0 1] |
| InverseFindings.TrivialStep | src/math/core/tools/LinearAlgebra.js:1198-1215 | scaling by ONE and eliminating a column already clear leave the grid unchanged |
| InverseFindings.SingularAsWritten | src/math/core/tools/LinearAlgebra.js:1190-1216 | as written, inv([1 1; 0 0]) exchanges rows 1 and 0 when column 1 has no pivot and returns a finite matrix; the corrected loop reports the zero pivot |
| InverseFindings.SingularAsWrittenProduct | src/math/core/tools/LinearAlgebra.js:1218-1227 | the matrix returned as written for [1 1; 0 0] is not a left inverse of it |
| InverseFindings.InvImaginaryUnit | src/math/core/Complex.js:576-584 | 1/i is −i, the conjugate of i is −i, and 1/(−i) is i |
| InverseFindings.DiagonalFirstRow | src/math/core/tools/LinearAlgebra.js:1173-1177 | as written, the first row of the result for diag(a, 1) is (1/conj(a), 0) |
| InverseFindings.DiagonalCorner | src/math/core/tools/LinearAlgebra.js:1173-1177 | as written, the corner of result · diag(a, 1) is a / conj(a) |
| InverseFindings.ProductCorner | src/math/core/Matrix.js:1892-1905 | the corner of a 2×2 product whose first row and column hold one nonzero entry |
| InverseFindings.ConjugatedDiagonal | src/math/core/tools/LinearAlgebra.js:1171-1179 | as written, inv([i 0; 0 1]) times [i 0; 0 1] has −1 in its corner, not 1 |
| InverseFindings.ConjugatedDiagonalCorrected | src/math/core/tools/LinearAlgebra.js:1171-1179 | with the plain transpose, the diagonal path returns diag(−i, 1), whose product with [i 0; 0 1] is the identity |
| Inverse.MaxRowOfMeaning | src/math/core/tools/LinearAlgebra.js:474-492 | getMaxRowNumber's maximum is zero only for a zero column from the offset, and a nonzero maximum points at a nonzero cell |
| Inverse.EliminatedKernel | src/math/core/tools/LinearAlgebra.js:1205-1215 | clearing column k with the unit row k keeps the vectors the left half sends to zero |
| Inverse.StepKernel | src/math/core/tools/LinearAlgebra.js:1190-1216 | one column of the loop keeps the vectors the left half sends to zero |
| Inverse.ZeroPivotKernel | src/math/core/tools/LinearAlgebra.js:1190-1204 | a reduction with nothing left in column k from row k down sends a nonzero vector to zero |
| Inverse.GaussJordanSucceeds | src/math/core/tools/LinearAlgebra.js:1190-1216 | from a reduction with the kernel of a nonsingular X the loop meets no zero pivot |
| Inverse.LeftInverseKernel | src/math/core/tools/LinearAlgebra.js:1218-1227 | a matrix with a left inverse sends only zero to zero |
| Inverse.LeftCancel | src/math/core/Matrix.js:1892-1905 | a left inverse cancels: c·a == I and a·u == a·w give u == w |
| Inverse.GaussJordanNonsingular | src/math/core/tools/LinearAlgebra.js:1181-1216 | the corrected loop runs to the end exactly when X sends only the zero vector to zero |
| Solve.MulRightSwap | src/math/core/tools/LinearAlgebra.js:959-962 | (a·c)·b == (a·b)·c |
| Solve.MulRightDistributes | src/math/core/tools/LinearAlgebra.js:965-970 | multiplication distributes over a sum and a difference on the left factor |
| Solve.DotExt | src/math/core/tools/LinearAlgebra.js:977-979 | a linear combination depends only on the coefficients and values in its range |
| Solve.DotZero | src/math/core/tools/LinearAlgebra.js:977-979 | zero coefficients give a zero combination |
| Solve.DotSplit | src/math/core/tools/LinearAlgebra.js:977-979 | a combination splits at any midpoint |
| Solve.DotScale | src/math/core/tools/LinearAlgebra.js:959-962 | scaling every coefficient scales the combination |
| Solve.DotEliminate | src/math/core/tools/LinearAlgebra.js:965-970 | subtracting f times row k subtracts f times its combination |
| Solve.SwapSolves | src/math/core/tools/LinearAlgebra.js:953-955 | a solution of the system with two rows exchanged solves the original system |
| Solve.ScaleSolves | src/math/core/tools/LinearAlgebra.js:958-963 | scaling a row by a nonzero value keeps the solutions |
| Solve.EliminateSolves | src/math/core/tools/LinearAlgebra.js:965-970 | subtracting a multiple of another row keeps the solutions |
| Solve.SwapKeepsCleared | src/math/core/tools/LinearAlgebra.js:953-955 | exchanging row k with a later row keeps the cleared columns and the solutions |
| Solve.SwapStalls | src/math/core/tools/LinearAlgebra.js:953-955 | once a column has no pivot the search answers row 0, and the exchange with row 0 leaves the first column zero in rows 1 on |
| Solve.NormalizeKeeps | src/math/core/tools/LinearAlgebra.js:958-963 | normalising row k by the inverse of its pivot puts ONE on the diagonal and keeps the solutions |
| Solve.EliminationKeeps | src/math/core/tools/LinearAlgebra.js:965-970 | eliminating one more row below k keeps the solutions and clears its cell in column k |
| Solve.EliminateBelow | src/math/core/tools/LinearAlgebra.js:965-970 | the elimination below row k clears column k and keeps the solutions |
| Solve.ForwardStep | src/math/core/tools/LinearAlgebra.js:949-971 | one pass of the forward loop keeps the forward invariant for one more column, or reports a zero pivot |
| Solve.SubstitutionStep | src/math/core/tools/LinearAlgebra.js:975-981 | computing y[row] from the rows below solves that row and keeps the rows below solved |
| Solve.LaterRowSolved | src/math/core/tools/LinearAlgebra.js:975-981 | a row stays solved when only entries before it change |
| Solve.PivotRowSolved | src/math/core/tools/LinearAlgebra.js:976-980 | the division by the pivot solves the row |
| Solve.SolvedPivot | src/math/core/tools/LinearAlgebra.js:980 | q·p == rhs − rest gives p·q + rest == rhs |
| Solve.BackSubstitute | src/math/core/tools/LinearAlgebra.js:973-981 | back substitution returns n values that solve every row, or reports a zero pivot |
| Solve.UpperSolves | src/math/core/tools/LinearAlgebra.js:973-981 | an upper-triangular system solved row by row is solved |
| Solve.ClearedLast | src/math/core/tools/LinearAlgebra.js:949 | the forward loop stopping at len − 1 leaves nothing below the last row to clear |
| Solve.RowColumnDot | src/math/core/Matrix.js:1892-1905 | a cell of A times a column matrix is the row's combination of the column |
| Solve.SolutionProduct | src/math/core/tools/LinearAlgebra.js:982-987 | a solution of [A \| B] turned into a column matrix x gives A·x == B |
| Solve.Linsolve | src/math/core/tools/LinearAlgebra.js:930-988 | linsolve fails with a size error exactly when A is not square or B is not a column of A's height; any other failure is a zero pivot; a returned x is n × 1 with A·x == B; and it succeeds exactly when A is square, B fits and A sends only the zero vector to zero |
| Solve.DotZeroRight | src/math/core/tools/LinearAlgebra.js:977-979 | a combination of zero values is zero |
| Solve.AugmentedKernel | src/math/core/tools/LinearAlgebra.js:942-943 | appending B to the right of A does not change which vectors the left n columns send to zero |
| Solve.SwapKernel | src/math/core/tools/LinearAlgebra.js:953-955 | exchanging two rows keeps the vectors sent to zero |
| Solve.ScaleKernel | src/math/core/tools/LinearAlgebra.js:958-963 | scaling a row by a nonzero value keeps the vectors sent to zero |
| Solve.EliminateKernel | src/math/core/tools/LinearAlgebra.js:965-970 | subtracting a multiple of another row keeps the vectors sent to zero |
| Solve.KernelFrom | src/math/core/tools/LinearAlgebra.js:973-981 | the vector built by back substitution of the homogeneous system has the size of the system |
| Solve.KernelFromRows | src/math/core/tools/LinearAlgebra.js:973-981 | that vector has one in place k, zeros after it, and solves every row from i up to k |
| Solve.ZeroColumnKernel | src/math/core/tools/LinearAlgebra.js:949-971 | a reduction whose column k has nothing left from row k down sends a nonzero vector to zero |
| Solve.UpperKernel | src/math/core/tools/LinearAlgebra.js:973-981 | an upper-triangular reduction with no zero on its diagonal sends only zero to zero |
| Solve.UpperKernelFrom | src/math/core/tools/LinearAlgebra.js:973-981 | a vector it sends to zero is zero from place i on, by back substitution |
| Solve.KernelShared | src/math/core/tools/LinearAlgebra.js:949-971 | two systems with the same kernel are nonsingular together |
| LinearAlgebraFixtures.RealTimes | src/math/core/Complex.js:455-474 | a real scalar times a complex number scales both parts |
| LinearAlgebraFixtures.RowDotFour | test/LinearAlgebra.js:108 | a real row of four applied to a vector is two real combinations |
| LinearAlgebraFixtures.RowValueFour | test/LinearAlgebra.js:108 | a real row of four sending v to c gives one real equation for each part |
| LinearAlgebraFixtures.SystemZeroOnly | test/LinearAlgebra.js:108 | the real system [2 1 3 4; 3 2 5 2; 3 4 1 −1; −1 −3 1 3] sends only zero to zero |
| LinearAlgebraFixtures.SystemSolvedBy | test/LinearAlgebra.js:108 | (1, −1, 3, −2) is the only real vector it sends to (2, 12, 4, −1) |
| LinearAlgebraFixtures.AnnihilatesSends | src/math/core/tools/LinearAlgebra.js:973-981 | a vector the rows send to zero, read as the rows sending it to a zero column |
| LinearAlgebraFixtures.SystemEquations | test/LinearAlgebra.js:108 | the matrix applied to a complex vector is the real system on its real parts and on its imaginary parts |
| LinearAlgebraFixtures.ZeroVector | test/LinearAlgebra.js:108 | both real systems sending v to zero make v zero |
| LinearAlgebraFixtures.SystemKernel | test/LinearAlgebra.js:108 | the 4 × 4 matrix sends only the zero vector to zero |
| LinearAlgebraFixtures.ProductSends | src/math/core/Matrix.js:1892-1905 | A·x == b read row by row: each row of A sends the column of x to the cell of b |
| LinearAlgebraFixtures.SolvedColumn | test/LinearAlgebra.js:108 | a column whose parts solve the real systems for [2; 12; 4; −1] is [1; −1; 3; −2] |
| LinearAlgebraFixtures.SystemSolution | test/LinearAlgebra.js:108 | the only x with A·x == [2; 12; 4; −1] is [1; −1; 3; −2] |
| LinearAlgebraFixtures.LinsolveSystem | test/LinearAlgebra.js:108 | linsolve on the 4 × 4 system succeeds and returns [1; −1; 3; −2] |
| LinearAlgebraFixtures.RowDotThree | test/LinearAlgebra.js:238 | a real row of three applied to a vector is two real combinations |
| LinearAlgebraFixtures.RowZeroThree | test/LinearAlgebra.js:238 | a real row of three sending v to zero gives one real equation for each part |
| LinearAlgebraFixtures.InvSystemZeroOnly | test/LinearAlgebra.js:238 | the real system [1 1 −1; −2 0 1; 0 2 1] sends only zero to zero |
| LinearAlgebraFixtures.InvEquations | test/LinearAlgebra.js:238 | the matrix sending a complex vector to zero gives the real system on both parts |
| LinearAlgebraFixtures.InvKernel | test/LinearAlgebra.js:238 | [1 1 −1; −2 0 1; 0 2 1] sends only the zero vector to zero |
| LinearAlgebraFixtures.NotDiagonal | src/math/core/tools/LinearAlgebra.js:1163-1172 | the matrix is square, not a scalar and not diagonal, so inv takes the Gauss–Jordan path |
| LinearAlgebraFixtures.InvSystem | test/LinearAlgebra.js:228-238 | inv([1 1 −1; −2 0 1; 0 2 1]) succeeds and inv(X)·X is the identity |
| RealSums.TotalExt | src/math/core/tools/Signal.js:603-616 | sums of terms that agree on 0..n−1 agree |
| RealSums.TotalZero | src/math/core/tools/Signal.js:593-596 | a sum of zero terms is zero |
| RealSums.TotalTail | src/math/core/tools/Signal.js:603-616 | zero terms at the end of a sum can be dropped |
| RealSums.TotalShift | src/math/core/tools/Signal.js:751-762 | zero terms at the start can be dropped, the rest summed from index m on |
| RealSums.TotalShiftExt | src/math/core/tools/Signal.js:751-762 | with zero terms dropped at the start, a sum agreeing term by term with another equals it |
| RealSums.TotalHead | src/math/core/tools/Signal.js:603-616 | the first term splits off a sum |
| RealSums.TotalReverse | src/math/core/tools/Signal.js:743-747 | the same terms read backwards have the same sum |
| RealSums.TotalMirror | src/math/core/tools/Signal.js:743-747 | two sums agree when the terms of one are those of the other read backwards |

## Left out

- Floating point: numbers are exact `real`s. Rounding, signed zero, subnormals and the EPSILON-sized noise that the tolerance arguments absorb are not modelled. `ComplexNum.Div` returns `None` for a zero divisor, and its callers turn that into an error value. NaN and ±Infinity appear only in the extended layer (`ExtComplex`), for the branches that test them explicitly.
- Square roots: the modulus of a value off the real and imaginary axes needs a square root, which `real` lacks. Comparisons of moduli use the squared modulus (`NormSq`). The norms take the modulus as a parameter that is non-negative and squares to `NormSq` (`Measures.IsModulus`). `abs`, `arg` and `norm` of a general complex value are not part of this model.
- Complex transcendental, trigonometric, hyperbolic, gamma and probability functions (`exp`, `log`, `pow` with a complex exponent, `sqrt`, `sin`, `sinc`, `erf`, …): these are floating-point code. The complex power that `Matrix.pow` falls back to for a non-square argument is the `scalar_pow` parameter of `Matrices.Matrix.Pow`.
- Numeral parsing and formatting (`Complex` from a string, `parseFloat`, `toString`, `toJSON`, `toPrecision`/`toFixed`): the token reader is the function parameter `parse` of `MatrixTool.ToArrayFromMatch2String` and its callers. The `string_cash` memo is only a cache and is not modelled.
- `rand`/`randn` of Complex and Matrix: these draw from the module-level random generator.
- Decompositions that need square roots, iteration or randomness (`tridiagonalize`, `eig`, `qr`, `svd`, `pinv`, the 2-norm, general p-norms, `cond`/`rcond` via `svd`), and `Matrix.div`, which dispatches to `det` and `pinv`.
- The FFT/DCT kernels, the cosine/sine tables and the window functions. `Signal.conv` and `Signal.xcorr` take their FFT path when the lengths are equal powers of two. The model gives that path the exact direct value. Over exact arithmetic the two agree for `conv` and for the correlation of two different signals. They do not agree for the self-correlation of a signal with a nonzero imaginary part (see Findings). `is_fast` (a floating-point `log2` test) is read as "is a power of two".
- `FftCache.Entry`: only the size an FFT or DCT object was built for and its freed flag are modelled. The tables it holds are not.
- The "Kahan" correction loops in `sum`, `mean` and the signal sums: over exact arithmetic the correction is always 0, so each loop is the plain sum.
- `Statistics.mode`, `std`, `mad`, `geomean`, `skewness`, `standardization`, `cov`, `corrcoef` and the other statistics outside max/min/sum/mean/prod/median/sort/variance: most need square roots or floating-point series. `mode` keys its map on the `real` method itself.
- The engine's `Array.prototype.sort`, used by `median` and `sort`: the engine is not part of this model. The model sorts with an insertion sort by `compareTo`; the result is the same ordered permutation whenever keys are apart.
- `Sorting.MergeSort`: the merge sort behind `indexsort` is modelled on values. Its in-place writes into the shared temporary array are not modelled; the model keeps the order it produces, which is stable for keys that are apart.
- `Matrices.Matrix.ConcatBottomInPlace`, `Matrices.Matrix.ConcatBottom`: the appended rows are copies here. The source pushes the argument's own row arrays (src/math/core/Matrix.js:3302-3304), so after `C = A.concatBottom(B)` the lower rows of C are B's arrays, and `A._concatBottom(A)` shares rows with itself. A later in-place write to one such row, such as `_concatRight` pushing into `matrix_array[row]` (src/math/core/Matrix.js:3282-3284), shows in the other in the source and not here.
- `DeterminantFixtures.DetFiveByFive`, `DeterminantFixtures.UpperDiagonal`, `DeterminantFixtures.PivotOrder`: P and U are stated from a hand computation of `lup`'s pivot rule on [2 3 1 4 5; 2 3 0 3 4; 1 4 0 8 3; 1 1 4 5 0; 1 5 3 4 5], in exact fractions. They are not derived from `Decomposition.Lup`, whose contract (shapes, triangles, P·A = L·U) does not fix the pivot choice, so the model does not prove that `Determinant.Det` of that matrix is −284; it proves only that the large-size rule gives −284 for the stated P and U.
- `Elimination.MaxRowNumber`: the maximum it returns is the squared modulus of the pivot cell, not the modulus. It orders the rows the same way and is 0 at the same time.
- `Elimination.LinearDependenceVector`, `Elimination.Rank`: the tolerance test compares the squared modulus with the squared tolerance.
- `Elimination.LinearDependenceVector`: requires a tolerance of zero or more. With a negative tolerance no column is skipped, so a column of zeros divides by a zero pivot and leaves NaN cells, and which rows stay listed then depends on IEEE NaN comparisons, which the model does not have. How many rows stay, one fewer per column while any is left, is modelled by `Elimination.RowsLeftUnbounded`, which `Elimination.Rank` uses: rank([0], -1) is 1.
- `Statistics.Along`: it states only that a successful result is rectangular. Its per-vector meaning is stated by `Statistics.MaxMain`, `Statistics.SumMain` and the other `main` lemmas it is applied with.
- The operand conversion of the `Matrix` methods: `mul`, `add` and the other binary methods pass their argument through `_toMatrix`, which accepts a number, a string or an array. The model's methods take a `Matrix`, built by `Matrices.Matrix.constructor`.
- `Signals.Conv`, `Signals.Xcorr`: they take Matrix arguments. The conversion of numbers and arrays by `_toMatrix` is not modelled.
- `Signal.xcorr` with one argument: the source tests `x2` for falsiness to decide on self-correlation. The model takes the second argument as an `Option`.
- Mod (`Matrices.Matrix.Mod`): computes the corrected cell-wise `mod`, `ComplexOrder.Mod`. The source's `mod` adds the divisor back to a zero remainder when the operands are in different `equalsState` classes, so mod([0], [3]) is [3] there and [0] here (see Findings).
- Pow (`Matrices.Matrix.Pow`): computes the true n-th power for every natural exponent. The source reads the exponent through `>>>=`, so from 2^32 on it computes the power of the exponent's low 32 bits (see Findings).
- CalcDet (`Determinant.CalcDet`): computes the cofactor expansion with a 1×1 base case, the corrected `calcDet`. The source's `calcDet` gives 0 for every 1×1 matrix, e.g. det([5]) is 0 there and 5 here (see Findings).
- Det (`Determinant.Det`): below size 5 it returns the corrected `calcDet`, so det([5]) is 5 here where the source gives 0. From size 5 on it returns the source's value `LupDet`, negated when (len − trace P)/2 is odd. That value is not proved equal to the determinant: the count gets the sign wrong when P is not made of disjoint exchanges. The corrected sign rule is `DeterminantFindings.LupDetCorrected`, which `Det` does not use (see Findings).
- DiagonalPath (`Inverse.DiagonalPath`): returns the plain transpose with the diagonal inverted. The source returns `T()`, the conjugate transpose, so inv([i 0; 0 1]) is diag(i, 1) there and diag(−i, 1) here (see Findings).
- GaussJordan (`Inverse.GaussJordan`): runs the corrected loop, which skips the exchange when the column is zero from row k down. The source exchanges with row 0 there, so inv([1 1; 0 0]) is the finite [0 1; 1 0] in the source and an error here (see Findings).
- GaussJordanStep (`Inverse.GaussJordanStep`): one column of the corrected loop; it skips the exchange with row 0 that the source makes on a zero column (see Findings).
- Inv (`Inverse.Inv`): built on the corrected `DiagonalPath` and `GaussJordan`. It differs from the source on inv([i 0; 0 1]) and inv([1 1; 0 0]) (see the two lines above and Findings).
- Expand (`MatrixTool.Expand`): expands a range `a:b` or `a:s:b` with the corrected `MatrixTool.Interp`, which rejects a positive step with a > b. The source's `InterpolationCalculation` lets it through, so the text `[5:1]` gives 65536 values there and an error here (see Findings).
- ToArrayFromMatch2String (`MatrixTool.ToArrayFromMatch2String`): expands ranges through the corrected `Interp`, so `5:1` is an error here; the source yields 65536 values (see Findings).
- ExpandRanges (`MatrixTool.ExpandRanges`): states a range `a:b` as the corrected `Interp` range; for a > b the source's range runs on to 65536 values (see Findings).
- ArrayFromString (`MatrixTool.ArrayFromString`): reads ranges through the corrected `Interp`, so `5:1` is an error here (see Findings).
- MatrixArrayFromString (`MatrixTool.MatrixArrayFromString`): reads ranges through the corrected `Interp`, so `[5:1]` is an error here (see Findings).
- FromInput (`MatrixInput.FromInput`): reads text through `MatrixArrayFromString`, so `[5:1]` is an error here where the source builds a row of 65536 values (see Findings).
- `MatrixInput.FromInput`: an array whose items mix inner arrays and single values cannot be written as an `Input`, which holds either rows only (`OfRows`) or values only (`OfList`). The source decides item by item (src/math/core/Matrix.js:439-483): `new Matrix([[1,2],3])` writes the 3 into row 0 at index 1 and gives [[1 3]], and `new Matrix([3,[1,2]])` gives a first row of length 2 whose second cell is a hole, which `isCorrectMatrixArray` (src/math/core/Matrix.js:387-401) accepts because it compares lengths only. Neither result is modelled.
- constructor (`Matrices.Matrix.constructor`): its text path reads through `MatrixInput.FromInput`, with the same difference on `[5:1]` (see Findings).
- Xcorr (`SignalTool.Xcorr`, `Signals.Xcorr`): returns the correlation on the self-correlation FFT path too, which is the corrected behaviour. The source hands the padded input's imaginary parts to `ifft`, so xcorr([i]) is [1 + 0.5i] there and [1] here (see Findings).
- Variance (`Statistics.Variance`): requires a direction other than "both". `variance` passes any dimension to `eachVector`, which accepts "both"/3: the rows first, then the column of their results, with the means counter running on across both passes. That direction is not modelled.
- VarianceAsWritten (`Statistics.VarianceAsWritten`): requires a direction other than "both", for the same reason as `Variance`.
- DirectionOf (`Vectors.DirectionOf`): for a numeric dimension that is not whole, or not below 10^21 in size, the message omits the number, because floating-point formatting is not modelled (`Vectors.NumberMessage`).
- ExchangeRow, ExchangeColumn (`Matrices.Matrix.ExchangeRow`, `Matrices.Matrix.ExchangeColumn`, and their `InPlace` forms): take natural indices. The source's `_exchangeRow` and `_exchangeColumn` do not reject a negative index, and then read and write a property outside the array, which the model does not represent.
- The global installation done by `Polyfill.run()` (assigning to `Math`, `Number` and `Array.prototype`): it is modelled only through the functions it installs.
- `konpeito-ES3.js`, `konpeitoWSH.js`, the data-analysis classes, `Probability.js`, `Random.js` and the build scripts: these are not part of this model.

## Findings

| source | as written | input that shows it | evidently intended | confidence | as-written member | corrected member |
|---|---|---|---|---|---|---|
| src/math/core/Complex.js:554-570 | `mod` adds the divisor back whenever the dividend A and the divisor B are in different `equalsState` classes (a zero dividend is a class of its own), even when the remainder is zero | mod(-6, 3) and mod(0, 3) both give 3 | 0, the result for every other exact multiple | high; not executed | ComplexOrder.ModAsWritten, ComplexOrder.ModAsWrittenZeroRemainder | ComplexOrder.Mod, ComplexOrder.ModZeroRemainder |
| src/math/core/Matrix.js:2232-2256 | `pow` reads the exponent through `>>>=`, which truncates it to 32 bits | zeros(2) to the power 2^32 gives eye(2) | the 2^32-fold product, zeros(2) | medium; not executed | Products.PowAsWritten, Products.PowAsWrittenCounterexample | Products.PowBySquaring |
| src/math/core/Matrix.js:221-255 | `InterpolationCalculation` rejects a negative step with from < to, but not a positive step with from > to | `5:1` yields the 65536 values 5, 6, 7, … | an error, as in the mirrored case | high; not executed | MatrixTool.InterpAsWritten, MatrixTool.FiveToOne | MatrixTool.Interp, MatrixTool.InterpOnRange |
| src/math/core/tools/Statistics.js:325-351 | `variance` takes its means from `mean(X)` in the default direction, even when another dimension is requested | variance of [0 0; 2 2] by rows gives 2 for the row [0 0] | 0, the variance of each row about its own mean | high; not executed | Statistics.VarianceAsWritten, Statistics.VarianceRowsAsWritten | Statistics.Variance, Statistics.VarianceConstantLines |
| src/math/core/tools/LinearAlgebra.js:800-832 | `calcDet`'s only base case is 2×2, so a 1×1 matrix expands into an empty minor and sums to 0 | det([5]) gives 0 | 5 | high; not executed | Determinant.DetAsWritten, Determinant.DetAsWrittenOneByOne | Determinant.CalcDet, Determinant.DetIdentity |
| src/math/core/tools/LinearAlgebra.js:1190-1216 | the pivot search in `inv` falls back to row 0 when the column is zero from the current row down, so an already reduced row is swapped back | inv([1 1; 0 0]) gives the finite matrix [0 1; 1 0], which is not an inverse | a non-finite result for a singular matrix, as a zero pivot gives | medium; not executed | InverseFindings.SingularAsWritten, InverseFindings.SingularAsWrittenProduct | Inverse.GaussJordanInverts, Inverse.Inv |
| src/math/core/tools/LinearAlgebra.js:1171-1179 | the diagonal path of `inv` returns `T()`, the conjugate transpose, of the matrix with inverted diagonal | inv([i 0; 0 1]) times the input has −1 in the corner | [−i 0; 0 1], whose product with the input is eye(2) | high; not executed | InverseFindings.ConjugatedDiagonal | InverseFindings.ConjugatedDiagonalCorrected, Inverse.DiagonalInverseExact |
| src/math/core/tools/Signal.js:651-675 | the self-correlation FFT path of `xcorr` passes the padded input's imaginary parts to `ifft` as the imaginary parts of the power spectrum | xcorr([i]) gives [1 + 0.5i] | [1], the correlation of i with itself; a power spectrum has no imaginary part, so `ifft` should get zeros | high; not executed | XcorrFindings.SelfFftAsWritten, XcorrFindings.SelfFftImaginaryUnit | XcorrFindings.SelfFftCorrected, XcorrFindings.SelfFftCorrectedIsCorrelation |
| src/math/core/tools/LinearAlgebra.js:833-845 | `det` of size 5 and up takes the exchange count as (len − trace P)/2 and negates for an odd count, which is right only when P is made of disjoint exchanges | the 5×5 matrix with rows e3, e0, e1, e2, e4: lup exchanges rows 0↔1, 1↔2, 2↔3, P has trace 1, the count is 2, and det returns 1 | −1, the determinant of that permutation matrix: the sign of P by the parity of its inversions | medium; not executed | DeterminantFindings.CycleAsWritten, DeterminantFindings.ExchangeKeepsSignAsWritten | DeterminantFindings.LupDetCorrected, DeterminantFindings.ExchangeNegatesCorrected |
