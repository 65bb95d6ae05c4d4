# snark.js in Dafny

This project models the arithmetic core of snark.js, a small JavaScript library for pairing-based
elliptic-curve cryptography, and proves properties of the model. The core it covers:

- **Integer helpers.** `pow`, `egcd` and `mod_inv` of `numbers/numbers.js`, written as loops with their
  invariants (square-and-multiply, the Bézout invariant).
- **Prime field `_FQ`.** Residues reduced into `[0, p)`, and the extended-Euclid `inv`. `inv(0, p)` is 0,
  so dividing by zero gives zero.
- **Extension field `_FQP`.** Elements are fixed-length coefficient sequences. `mul` is the schoolbook
  product followed by top-down reduction against `modulus_coeffs`. `inv` is the polynomial Euclid loop built
  on `deg` and `poly_rounded_div`; for a prime modulus that loop is shown to stop by itself. The in-place loops become methods proved against specification
  functions. `poly_rounded_div` is modelled as written: it subtracts `o[c]`, not `o[i]·b[c]`.
- **Per-curve field logic.**
  - The Karatsuba `mul` overrides of the MNT fields, which take u² = +ν, and their relation to the generic
    `mul`, for which `modulus_coeffs = [ν, 0]` means u² = −ν.
  - The FQ12 reduction polynomials and `w`.
  - The derived twist-curve coefficients.
  - The `is_well_defined` overrides.
  - The twist maps.
- **Affine curve group of `curves/ec.js`.** Identity handling, `double` (with no guards), chord addition
  with its assertion, `neg`, the recursive double-and-add `multiply`, and `eq`.
- **Pairing structure.** Covers the alt_bn128 and the tuple-based MNT4 variants: the three-branch
  `linefunc`, the cast into FQ12, the Miller loop over the 64 bits of `ate_loop_count` with its Frobenius
  tail, and the final exponentiation.
- **RSA accumulator.** A class whose state and proof roots change by modular exponentiation. Its inverted
  `remove` is kept as written.
- **ZoKrates verifier.**
  - The token layout of `VerificationKey` and `Proof`.
  - The `vk_x` combination.
  - The four-pairing accept test, with the pairing taken as a function parameter.

Failures of the source are values of the `Wrappers.Result` type. These include a failing `assert`, a method
or property that does not exist, or a `throw`. Moduli and curve constants are parameters wherever a
property depends on primality. JavaScript BigInt `/` and `%` truncate toward zero; `Arith.TruncDiv` and
`Arith.TruncRem` model them.

## Model

| member | source | states |
|---|---|---|
| Numbers.Pow | numbers/numbers.js:1-19 | for b ≥ 0 the result is a^b mod n (exactly the residue when a ≥ 0), and for b ≤ 0 the loop does not run and the result is 1, even for n = 1 |
| Numbers.PowStep | numbers/numbers.js:6-18 | one square-and-multiply round keeps result·x^b mod n unchanged while b is halved |
| Numbers.Egcd | numbers/numbers.js:21-43 | the returned a, b, d satisfy a·m + b·n = d; for m ≥ 0, d is gcd(m, n) and divides both; for m < 0 the loop does not run and the result is [0, 1, n] |
| Numbers.BezoutStep | numbers/numbers.js:29-41 | one round keeps both Bézout invariants a1·m + b1·n = c and a·m + b·n = d |
| Numbers.ModInv | numbers/numbers.js:45-50 | throws 'Inverse doesn't exist' exactly when the gcd is not 1; otherwise returns a with a·x ≡ 1 (mod n), not necessarily in [0, n) |
| PrimeField.Reduce | fields/field_elements.js:28-33 | the constructor always stores a residue in [0, p), the mathematical n mod p, negative inputs included |
| PrimeField.Add | fields/field_elements.js:35-38 | `add` is integer addition reduced mod p |
| PrimeField.Mul | fields/field_elements.js:40-43 | `mul` is integer multiplication reduced mod p |
| PrimeField.Sub | fields/field_elements.js:45-48 | `sub` is integer subtraction reduced mod p |
| PrimeField.Neg | fields/field_elements.js:75-77 | `neg` is −a reduced mod p |
| PrimeField.One | fields/field_elements.js:79-81 | `one()` is 1 mod p |
| PrimeField.Zero | fields/field_elements.js:83-85 | `zero()` is 0 |
| PrimeField.Inv | fields/field_elements.js:4-16 | the `inv` loop returns t with t·a ≡ gcd(n, a) (mod n) for a ≥ 0, and 0 for a = 0 |
| PrimeField.InvLoopBezout | fields/field_elements.js:10-14 | the loop invariant t·a ≡ r and newT·a ≡ newR (mod n) carries to the end, where r is the gcd |
| PrimeField.BezoutStep | fields/field_elements.js:11-13 | one round keeps the invariant, with BigInt's truncating `%` on the new t |
| PrimeField.InverseBezout | fields/field_elements.js:4-16 | `inv(a, n)` is a Bézout coefficient of a modulo n |
| PrimeField.InverseCorrect | fields/field_elements.js:4-16 | for a prime modulus and a divisor that is not a multiple of it, `inv` is a true inverse |
| PrimeField.Div | fields/field_elements.js:50-53 | `div` returns a residue; dividing by zero gives zero; for a prime modulus the quotient times the divisor is the dividend |
| PrimeField.DivExact | fields/field_elements.js:50-53 | multiplying by `inv` of a divisor that is not a multiple of the prime modulus undoes the multiplication |
| PrimeField.Pow | fields/field_elements.js:55-64 | `pow(e)` is a^abs(e) mod p: pow(0) = 1, pow(1) = a, and a negative exponent acts as its absolute value |
| PrimeField.PowHalving | fields/field_elements.js:60-63 | squaring and halving the exponent with truncating `/` and `%` keeps the power |
| PrimeField.EqOfReduced | fields/field_elements.js:66-69 | two constructed residues are `eq` exactly when their integers are congruent mod p |
| PrimeField.Eq | fields/field_elements.js:66-69 | `eq` compares the two stored integers; with both reduced, `PrimeField.EqOfReduced` makes this congruence mod p |
| PrimeField.MulDistributes | fields/field_elements.js:35-43 | multiplication distributes over addition |
| PrimeField.DivDistributes | fields/field_elements.js:35-53 | division by a fixed divisor distributes over addition, whatever the divisor |
| PrimeField.NegInverse | fields/field_elements.js:45-48 | a + (−a) = 0, −(−a) = a mod p, and a − a = 0 |
| PrimeField.OneIsNeutral | fields/field_elements.js:79-85 | one is a multiplicative and zero an additive identity |
| Polynomials.Degree | fields/field_elements.js:90-96 | the degree is below the length, every coefficient above it is zero, and a positive degree holds a nonzero coefficient |
| Polynomials.DegreeUnique | fields/field_elements.js:90-96 | those three properties determine the degree |
| Polynomials.Deg | fields/field_elements.js:90-96 | the `deg` loop returns the highest nonzero index, or 0 (never negative) for an all-zero sequence |
| Polynomials.Zip | fields/field_elements.js:98-105 | `zip` has the shorter length and pairs equal indices |
| Polynomials.Zeros | fields/field_elements.js:107-113 | `zeros(n)` has max(n, 0) entries, all zero |
| Polynomials.ReduceAll | fields/field_elements.js:118 | `a.map(x => new FQ(x))` reduces every coefficient |
| Polynomials.RoundedDiv | fields/field_elements.js:115-127 | the nested loops that update `temp` and `o` in place compute the function `RoundedDivision` |
| Polynomials.RoundStep | fields/field_elements.js:120-124 | one round of the outer loop updates o[i], then runs the inner loop |
| Polynomials.SubtractShiftedStep | fields/field_elements.js:122-124 | each pass of the inner loop changes index i + c of `temp` only, subtracting o[c] |
| Polynomials.LoopKeepsAbove | fields/field_elements.js:120-125 | rounds i down to 0 leave every quotient coefficient above i alone and keep all of them residues |
| Polynomials.LoopFromZero | fields/field_elements.js:119-125 | started on all-zero `o`, the loop leaves zeros above the first round and the leading quotient at it |
| Polynomials.LoopTop | fields/field_elements.js:121 | round i sets o[i] once |
| Polynomials.DivisionLoopLeading | fields/field_elements.js:115-125 | the loop leaves zeros above deg a − deg b and the quotient of the leading coefficients at deg a − deg b |
| Polynomials.CutQuotient | fields/field_elements.js:126 | `o.slice(0, deg(o) + 1)` keeps the leading quotient coefficient and gives [0] when no round runs |
| Polynomials.CutAtDegree | fields/field_elements.js:126 | cutting after the degree keeps every coefficient |
| Polynomials.RoundedDivisionLeading | fields/field_elements.js:115-127 | `poly_rounded_div` has at most deg a − deg b + 1 reduced coefficients, with the true leading quotient on top; when deg a < deg b it is [0] |
| ExtensionField.FromCoeffs | fields/field_elements.js:132-135 | the constructor fails its assertion exactly when the length is not the degree, and otherwise reduces every coefficient |
| ExtensionField.Add | fields/field_elements.js:141-144 | `add` is coefficient-wise and keeps the length |
| ExtensionField.Sub | fields/field_elements.js:146-149 | `sub` is coefficient-wise and keeps the length |
| ExtensionField.Neg | fields/field_elements.js:233-235 | `neg` is coefficient-wise and keeps the length |
| ExtensionField.ScalarMul | fields/field_elements.js:152-153 | `mul` by an `FQ` or an integer scales every coefficient |
| ExtensionField.ScalarDiv | fields/field_elements.js:177-179 | `div` by an `FQ` divides every coefficient; division by zero gives zero; for a prime modulus each quotient times the divisor is the coefficient |
| ExtensionField.One | fields/field_elements.js:237-241 | `one()` is 1 followed by d − 1 zeros |
| ExtensionField.Zero | fields/field_elements.js:243-245 | `zero()` has d zero coefficients |
| ExtensionField.EqFromSpec | fields/field_elements.js:221-227 | the `eq` scan from index i succeeds exactly when the suffixes from i are equal |
| ExtensionField.Eq | fields/field_elements.js:221-227 | `eq` holds exactly when the coefficient sequences are equal |
| ExtensionField.ReducePrefixStep | fields/field_elements.js:167-169 | one pass of the reduction loop subtracts top·modulus_coeffs[i] at index exp + i only |
| ExtensionField.ReduceTopResidues | fields/field_elements.js:164-170 | the reduction loop keeps every coefficient a residue |
| ExtensionField.ProductIsElement | fields/field_elements.js:151-172 | the product has exactly `degree` reduced coefficients |
| ExtensionField.Schoolbook | fields/field_elements.js:156-162 | the schoolbook array has 2·degree − 1 coefficients, coefficient k the reduced sum of x[i]·y[j] over i + j = k; `ProductLaws.SchoolbookAdd` shows it is linear in x |
| ExtensionField.ReduceTop | fields/field_elements.js:164-170 | the `pop` loop stops at `degree` coefficients, or leaves a shorter array alone; `ProductLaws.ReduceTopAdd` shows it is linear mod p |
| ExtensionField.Product | fields/field_elements.js:151-172 | the generic `mul` of two elements has `degree` coefficients; `ProductLaws.ProductDistributes` and the laws beside it say what it computes |
| ExtensionField.Mul | fields/field_elements.js:156-172 | the schoolbook loops that fill `b` in place and the `pop` loop compute the function `Product`: schoolbook coefficients, then the top-down reduction |
| ExtensionField.Pad | fields/field_elements.js:207 | `r.concat(zeros(n - r.length))` keeps r's coefficients and pads to n with zeros |
| ExtensionField.SubtractProducts | fields/field_elements.js:208-215 | the nested loop over `nm` and `next` subtracts lm·r and low·r, cut off above X^d |
| ExtensionField.RoundMethod | fields/field_elements.js:205-216 | the loop body computes one round of the specification, including the rotation of lm, low, hm, high |
| ExtensionField.LoopBody | fields/field_elements.js:205-217 | one pass moves the state one round along the specified run and returns the degree the next test reads |
| ExtensionField.RunEuclid | fields/field_elements.js:205-217 | the `while (deg(low))` loop follows the specified run for at most `MaxRounds(d)` rounds |
| ExtensionField.StartMethod | fields/field_elements.js:199-203 | lm = 1, hm = 0, low = the element padded with one zero, high = modulus_coeffs followed by 1 |
| ExtensionField.EuclidStart | fields/field_elements.js:199-203 | the four starting sequences are degree + 1 long; `InverseLaws.StartTame` bounds their measure by `MaxRounds` |
| ExtensionField.Round | fields/field_elements.js:206-216 | a round keeps the four sequences degree + 1 long; for a prime modulus `InverseLaws.RoundDescends` shows it lowers 2·(deg high + deg low) + [deg high < deg low] |
| ExtensionField.EuclidLoop | fields/field_elements.js:205-217 | the run keeps the four sequences degree + 1 long; for a prime modulus `InverseLaws.InverseLoopTerminates` shows it ends with deg(low) = 0 |
| ExtensionField.EuclidLoopStep | fields/field_elements.js:205-216 | while deg(low) ≠ 0 the run takes a round |
| ExtensionField.EuclidLoopDone | fields/field_elements.js:205 | the run stops when deg(low) = 0 |
| ExtensionField.Inverse | fields/field_elements.js:198-219 | `inv` returns an element of the field |
| ExtensionField.InverseOfLoop | fields/field_elements.js:218 | the result is lm cut to d coefficients, divided by the constant left in low |
| ExtensionField.Inv | fields/field_elements.js:198-219 | the method with its loops computes the function `Inverse` |
| ExtensionField.InverseOfZero | fields/field_elements.js:198-219 | a zero element "inverts" to zero: the loop never runs and the final division is by zero |
| InverseLaws.LeadingCancels | fields/field_elements.js:206-215 | for a prime modulus the leading quotient coefficient cancels the top coefficient of `high` |
| InverseLaws.RoundDescends | fields/field_elements.js:205-216 | for a prime modulus a round from a state whose low is not constant lowers 2·(deg high + deg low) + [deg high < deg low] and keeps the state's shape |
| InverseLaws.TameStep | fields/field_elements.js:205-216 | such a round lands in a state of smaller measure from which the run, with one round less, ends where it would have |
| InverseLaws.LoopEnds | fields/field_elements.js:205-217 | from such a state, with at least its measure in rounds, the run ends with deg(low) = 0 |
| InverseLaws.StartTame | fields/field_elements.js:199-203 | the starting state has that shape and a measure of at most `MaxRounds(degree)` |
| InverseLaws.InverseLoopTerminates | fields/field_elements.js:205-217 | for a prime modulus the `while (deg(low))` loop ends by its own test within `MaxRounds(degree)` rounds, so the cut-off never decides the result |
| InverseLaws.InverseOfConstant | fields/field_elements.js:198-218 | an embedded constant c inverts to the embedded `_FQ` inverse of c: low starts constant, so the loop never runs |
| InverseLaws.ConstantTimesInverse | fields/field_elements.js:151-172 | for a prime modulus, c times the embedded inverse of c is one when c is not a multiple of p |
| InverseLaws.InverseCorrectOnConstants | fields/field_elements.js:198-218 | for a prime modulus `inv` of a nonzero embedded constant is a true inverse under the generic `mul` |
| ProductLaws.ProductWithoutWrap | fields/field_elements.js:151-172 | a product whose schoolbook coefficients vanish from X^d upward is the schoolbook product itself |
| ProductLaws.ProductByZero | fields/field_elements.js:151-172 | x · 0 = 0 |
| ProductLaws.ProductZeroLeft | fields/field_elements.js:151-172 | 0 · x = 0 |
| ProductLaws.ProductByOne | fields/field_elements.js:151-172 | 1 · x = x on elements |
| ProductLaws.ProductByMonomial | fields/field_elements.js:151-172 | x · X^k shifts the coefficients up by k when nothing passes X^(d−1) |
| ProductLaws.MonomialProduct | fields/field_elements.js:151-172 | X^i · X^j = X^(i+j) while i + j < d |
| ProductLaws.MonomialWrap | fields/field_elements.js:164-170 | X^i · X^j with i + j = d is −modulus_coeffs: the reduction replaces X^d by −Σ mc[k]·X^k |
| ProductLaws.ProductByConstant | fields/field_elements.js:151-172 | the element `mul` by an embedded constant equals the scalar `mul` branch |
| ProductLaws.ReduceTopOfZeroTail | fields/field_elements.js:164-170 | the reduction loop ignores zero coefficients at the top |
| ProductLaws.MulCoefAddLeft | fields/field_elements.js:158-160 | the sum the inner loop forms for b[k] is additive in the first factor, mod p |
| ProductLaws.SchoolbookAdd | fields/field_elements.js:156-162 | the schoolbook array of (a + b)·c is that of a·c plus that of b·c, coefficient-wise mod p |
| ProductLaws.ReduceTopAdd | fields/field_elements.js:164-170 | the reduction loop of a coefficient-wise sum is the sum of the reductions |
| ProductLaws.ProductDistributes | fields/field_elements.js:151-172 | the generic `mul` distributes over `add` for all elements: (a + b)·c = a·c + b·c |
| Karatsuba.QuadraticFormula | curves/mnt/mnt4/mnt4_curve.js:64-71 | the FQ2 override returns [a1a2 + ν·b1b2, a1b2 + b1a2], the product with u² = +ν |
| Karatsuba.CubicFormula | curves/mnt753/mnt6753/mnt6753_curve.js:68-80 | the FQ3 override returns [a1a2 + ν(b1c2 + c1b2), a1b2 + b1a2 + ν·c1c2, a1c2 + b1b2 + c1a2], the product with u³ = +ν |
| Karatsuba.Quadratic | curves/mnt/mnt4/mnt4_curve.js:64-71 | the FQ2 override returns two coefficients, which `Karatsuba.QuadraticFormula` spells out |
| Karatsuba.Cubic | curves/mnt753/mnt6753/mnt6753_curve.js:68-80 | the FQ3 override returns three coefficients, which `Karatsuba.CubicFormula` spells out |
| Karatsuba.QuadraticDistributes | curves/mnt/mnt4/mnt4_curve.js:64-71 | the FQ2 override distributes over `add`, for every non-residue |
| Karatsuba.CubicDistributes | curves/mnt753/mnt6753/mnt6753_curve.js:68-80 | the FQ3 override distributes over `add`, for every non-residue |
| Karatsuba.Schoolbook2 | fields/field_elements.js:156-162 | the generic schoolbook product of two degree-2 elements coefficient by coefficient |
| Karatsuba.Schoolbook3 | fields/field_elements.js:156-162 | the generic schoolbook product of two degree-3 elements coefficient by coefficient |
| Karatsuba.GenericQuadratic | fields/field_elements.js:151-172 | the generic `mul` with modulus_coeffs [c0, c1] reduces by u² = −c0 − c1·u |
| Karatsuba.GenericCubic | fields/field_elements.js:151-172 | the generic `mul` with modulus_coeffs [c0, 0, 0] reduces by u³ = −c0 |
| Karatsuba.QuadraticIsGenericNegated | curves/mnt/mnt4/mnt4_curve.js:57-71 | the FQ2 override equals the generic `mul` exactly for modulus_coeffs ≡ [−ν, 0] |
| Karatsuba.CubicIsGenericNegated | curves/mnt753/mnt6753/mnt6753_curve.js:57-80 | the FQ3 override equals the generic `mul` for modulus_coeffs ≡ [−ν, 0, 0] |
| Karatsuba.QuadraticSignMismatch | curves/mnt/mnt4/mnt4_curve.js:57-70 | with modulus_coeffs [ν, 0], the override gives u·u = ν while the generic `mul` (which `inv` follows) gives −ν; they agree only when 2ν ≡ 0 |
| Karatsuba.OverrideSquaresU | curves/mnt/mnt4/mnt4_curve.js:64-71 | under the override u·u = ν |
| Karatsuba.GenericSquaresU | fields/field_elements.js:151-172 | under the generic `mul` with modulus_coeffs [ν, 0], u·u = −ν |
| Karatsuba.QuadraticByZero | curves/mnt/mnt4/mnt4_curve.js:64-71 | x · 0 = 0 under the FQ2 override |
| Karatsuba.QuadraticZeroLeft | curves/mnt/mnt4/mnt4_curve.js:64-71 | 0 · x = 0 under the FQ2 override |
| Karatsuba.QuadraticOneLeft | curves/mnt/mnt4/mnt4_curve.js:64-71 | 1 · x = x under the FQ2 override |
| Karatsuba.CubicByZero | curves/mnt753/mnt6753/mnt6753_curve.js:68-80 | x · 0 = 0 under the FQ3 override |
| Karatsuba.CubicZeroLeft | curves/mnt753/mnt6753/mnt6753_curve.js:68-80 | 0 · x = 0 under the FQ3 override |
| Karatsuba.CubicOneLeft | curves/mnt753/mnt6753/mnt6753_curve.js:68-80 | 1 · x = x under the FQ3 override |
| Fields.One | fields/field_elements.js:237-241 | `one()` of any field class is 1 followed by zeros |
| Fields.Zero | fields/field_elements.js:243-245 | `zero()` of any field class is all zeros |
| Fields.FromInt | fields/field_elements.js:28-33 | `new FQ(n)` is the residue of n |
| Fields.Add | fields/field_elements.js:141-144 | `add` in every field class is coefficient-wise mod p |
| Fields.Sub | fields/field_elements.js:146-149 | `sub` in every field class is coefficient-wise mod p |
| Fields.Neg | fields/field_elements.js:233-235 | `neg` in every field class is coefficient-wise mod p |
| Fields.MulInt | fields/field_elements.js:152-153 | `mul` by a number scales every coefficient, in every field class |
| Fields.Mul | fields/field_elements.js:151-175 | `mul` of two elements returns an element of the right size, and in the prime field it is the reduced product |
| Fields.Div | fields/field_elements.js:177-184 | in the prime field `div` by zero gives zero and, for a prime modulus, any other divisor gives the exact quotient |
| Fields.Pow | fields/field_elements.js:186-195 | pow(0) = one, and in the prime field `pow(e)` is a^abs(e) mod p |
| Fields.Eq | fields/field_elements.js:221-227 | `eq` holds exactly when the elements are equal |
| Fields.MulIsElem | fields/field_elements.js:151-175 | every `mul` returns a reduced element |
| Fields.DivByZero | fields/field_elements.js:177-184 | dividing by zero yields zero, in the prime field and in every extension |
| Fields.MulDistributes | fields/field_elements.js:151-175 | `mul` distributes over `add` in every field class, whichever `mul` it uses: the `one.mul(f).add(x.mul(f)).eq(one.add(x).mul(f))` checks of tests/test_bn128.js for all elements |
| Fields.DivDistributes | fields/field_elements.js:177-184 | `div` by any fixed divisor distributes over `add` in every class: the `one.div(f).add(x.div(f)).eq(one.add(x).div(f))` checks for all elements |
| Fields.MulByZero | fields/field_elements.js:151-175 | x · 0 = 0 whichever `mul` the class uses |
| Fields.MulZeroLeft | fields/field_elements.js:151-175 | 0 · x = 0 whichever `mul` the class uses |
| Fields.MulOneLeft | fields/field_elements.js:151-175 | 1 · x = x whichever `mul` the class uses |
| Fields.DivSelf | fields/field_elements.js:50-53 | in a prime field of prime order, f / f = one for nonzero f |
| Fields.PowOne | fields/field_elements.js:189-190 | `pow(1)` copies the element |
| Fields.PowSmall | fields/field_elements.js:186-195 | `pow(2)` is x·x and `pow(3)` is (x·x)·x in the class's own `mul` |
| Fields.PowHalving | fields/field_elements.js:191-194 | the `_FQP.pow` recursion for exponents above 1 |
| Fields.PowSign | fields/field_elements.js:186-195 | because BigInt `/` and `%` truncate, pow(−e) = pow(e) |
| CurveGroup.WellDefinedPrime | curves/ec.js:31-37 | over a prime field `is_well_defined` of (x, y) holds exactly when y² − x³ − a·x ≡ b (mod p) |
| CurveGroup.IsWellDefined | curves/ec.js:31-37 | the identity is always well defined; for (x, y), `CurveGroup.WellDefinedPrime` and `CurveGroup.WellDefinedByMul` give the equation it tests |
| CurveGroup.WellDefinedByMul | curves/ec.js:31-37 | in any field `is_well_defined` is y·y − (x·x)·x − x·a = b in the class's own `mul` |
| CurveGroup.Double | curves/ec.js:40-46 | `double` fails exactly on the identity (whose missing `P` throws), and otherwise returns an affine point of reduced coordinates, even for y = 0 |
| CurveGroup.TangentSlope | curves/ec.js:42 | the slope 3x²/(2y) of `double` is an element of the field's size |
| CurveGroup.LineY | curves/ec.js:44 | the y-coordinate −l·x' + l·x − y of `double` and of `add` (ec.js:63) is a reduced element of the field |
| CurveGroup.DoubleAtZeroY | curves/ec.js:40-46 | with y = 0 the slope divides by zero and becomes zero, so `double` returns (−2x, 0) instead of the identity |
| CurveGroup.Chord | curves/ec.js:59-65 | the chord step fails only on its assertion |
| CurveGroup.Add | curves/ec.js:49-66 | the identity on either side returns the other operand; equal points are doubled; distinct points with equal x give the identity; only the chord assertion can fail; reduced inputs give a reduced sum |
| CurveGroup.ChordAssertionHolds | curves/ec.js:58-65 | over a field of prime order the assertion of `add` always holds |
| CurveGroup.ChordSwap | curves/ec.js:58-65 | over a field of prime order the chord step is symmetric in its points |
| CurveGroup.AddCommutes | curves/ec.js:49-66 | over a field of prime order `add` is commutative on reduced points |
| CurveGroup.AddNeverFails | curves/ec.js:49-66 | over a field of prime order `add` of reduced points never fails |
| CurveGroup.Neg | curves/ec.js:69-73 | `neg` maps the identity to itself and (x, y) to (x, −y) |
| CurveGroup.NegInvolution | curves/ec.js:69-73 | negating twice gives back a reduced point |
| CurveGroup.AddNegation | curves/ec.js:49-73 | P + (−P) is the identity, except when y = −y, where the points are equal and `add` doubles |
| CurveGroup.Multiply | curves/ec.js:76-88 | `multiply` of the identity or by 0 is the identity, by 1 is the point itself, and keeps coordinates reduced |
| CurveGroup.MultiplyStep | curves/ec.js:84-87 | for even n `multiply` is `double().multiply(n/2)`, for odd n that plus the point |
| CurveGroup.MultiplySmall | curves/ec.js:76-88 | 2·P is the double and 3·P is the double plus P |
| CurveGroup.MultiplyMinusOne | curves/ec.js:76-88 | (−1)·P is P: the half is 0 and the remainder −1 counts as odd |
| CurveGroup.MultiplySign | curves/ec.js:76-88 | because BigInt `/` and `%` truncate, `multiply` by −n equals `multiply` by n |
| CurveGroup.MultiplyNeverFails | curves/ec.js:76-88 | over a field of prime order `multiply` of a reduced point never fails |
| CurveGroup.Eq | curves/ec.js:90-92 | `eq` compares the coordinates only, and throws when either point is the identity |
| Curves.UnitSquare | curves/bn128/bn128_curve.js:59-63 | in FQ2 modulo X² + 1, u·u = −1 |
| Curves.Fq2 | curves/bn128/bn128_curve.js:59-63 | the FQ2 class with modulus_coeffs [1, 0] is a valid two-coefficient field over any modulus p > 1 |
| Curves.Fq12 | curves/bn128/bn128_curve.js:93-98 | an FQ12 class is a field with one coefficient per entry of its modulus_coeffs, valid for p > 1 |
| Curves.MntQuadratic | curves/mnt/mnt4/mnt4_curve.js:56-74 | the MNT FQ2 class with modulus_coeffs [ν, 0] and the Karatsuba override is a valid two-coefficient field |
| Curves.Mnt6753Fq3 | curves/mnt753/mnt6753/mnt6753_curve.js:59-82 | the MNT6-753 FQ3 class with modulus_coeffs [11, 0, 0] and the cubic override is a valid three-coefficient field |
| Curves.Mnt6Fq2 | curves/mnt/mnt6/mnt6_curve.js:53-60 | the MNT6 class named FQ2 has three modulus coefficients, so three-coefficient elements, and is a valid field |
| Curves.Bn128G1 | curves/bn128/bn128_curve.js:14-22 | the bn128 base curve is a valid curve over FQ with b = 3 mod p |
| Curves.QuadraticTwistCurve | curves/mnt/mnt4/mnt4_curve.js:78-86 | the MNT4 curve over FQ2 lives in the Karatsuba FQ2 and is a valid curve for p > 1 |
| Curves.CubicTwistCurve | curves/mnt753/mnt6753/mnt6753_curve.js:87-95 | the MNT6 curves over their three-coefficient field are valid curves over that field |
| Curves.MntG12 | curves/mnt/mnt4/mnt4_curve.js:123-127 | the MNT4 curve over FQ12 lives in the BN-style FQ12 and is a valid curve for p > 1 |
| Curves.WPowers | curves/mnt/mnt4/mnt4_curve.js:129-131 | w² and w³ are X² and X³ |
| Curves.W | curves/mnt/mnt4/mnt4_curve.js:129-131 | `w` is the FQ12 element X: 1 at coefficient 1 and 0 at the other eleven |
| Curves.WProducts | curves/mnt/mnt4/mnt4_curve.js:129-131 | the squarings of w up to w⁸ stay monomials, and w⁸·w⁴ wraps to −modulus_coeffs |
| Curves.WTwelfth | curves/mnt/mnt4/mnt4_curve.js:115-131 | w¹² is −modulus_coeffs in any FQ12 with the generic `mul` |
| Curves.BnTwelfthReduction | curves/bn128/bn128_curve.js:93-98 | in the BN and MNT FQ12, w¹² = 18·w⁶ − 82 |
| Curves.BlsTwelfthReduction | curves/bls12_318/bls_curve.js:88-93 | in the BLS12-318 FQ12, w¹² = 2·w⁶ − 2 |
| Curves.QuadraticTwistCoefficients | curves/mnt/mnt4/mnt4_curve.js:80-86 | the MNT4 twist curve has a' = a·ν and b' = u·(b·ν), with u = [0, 1] |
| Curves.CubicTwistCoefficients | curves/mnt753/mnt6753/mnt6753_curve.js:89-95 | the MNT6 twist curves have a' = a·X² and b' = b·ν |
| Curves.MntScalarCoefficient | fields/field_elements.js:152-153 | over the MNT FQ12 curves `x.mul(a)` by the scalar `a` equals the product with the embedded constant |
| Curves.Bn128WellDefinedPrime | curves/bn128/bn128_curve.js:32-37 | over the prime field the bn128 override is the curve equation y² = x³ + b |
| Curves.Bn128IsWellDefined | curves/bn128/bn128_curve.js:32-37 | the identity passes; for (x, y), `Curves.Bn128WellDefinedPrime` and `Curves.Bn128AgreesWithGeneric` give the equation it tests |
| Curves.Bn128AgreesWithGeneric | curves/bn128/bn128_curve.js:32-37 | the override agrees with the generic `is_well_defined` when a = 0 |
| Curves.Bn128GeneratorOnCurve | curves/bn128/bn128_curve.js:20-26 | the generator (1, 2) satisfies y² = x³ + 3 for every modulus |
| Curves.AltBn128IsWellDefined | curves/alt_bn128/alt_bn128_curve.js:27-32 | the override calls the missing `is_zero`, so every call fails |
| Curves.FailsUnlessIdentity | curves/mnt/mnt4/mnt4_curve.js:102-108 | the MNT4 FQ2 override returns true for the identity and otherwise fails on the missing `squared` |
| Curves.Twist | curves/bn128/bn128_curve.js:112-123 | `twist` maps the identity to the identity, and other points to 12-coefficient coordinates |
| Curves.Sparse | curves/bn128/bn128_curve.js:120-121 | the FQ12 element with c0 at coefficient 0 and c6 at 6 has twelve residues |
| Curves.NineEmbed | curves/bn128/bn128_curve.js:116-121 | the BN coordinate map puts x1 at coefficient 6, zeros away from 0 and 6, and x0 − 9·x1 at 0, from which adding 9 times coefficient 6 gives x0 back |
| Curves.EmbedRecovers | curves/bn128/bn128_curve.js:116-117 | c0 − k·c1 followed by adding k·c1 gives c0 mod p, so the coordinate maps lose nothing |
| Curves.TwistShifts | curves/mnt/mnt4/mnt4_curve.js:133-145 | `twist` is the sparse embedding x0 − 9·x1 at 0 and x1 at 6, moved up two places for x and three for y: the w², w³ products do not wrap |
| Curves.TwistCoefficients | curves/mnt753/mnt6753/mnt6753_curve.js:141-150 | coefficient by coefficient, x0 − 9·x1 lands at X² and x1 at X⁸ (y at X³ and X⁹), everything else is zero, and a third coefficient plays no part |
| Curves.ShiftEmbedded | curves/mnt753/mnt4753/mnt4753_curve.js:137 | a sparse element times X^k (0 < k ≤ 5) is that element moved up k places |
| Curves.BlsTwist | curves/bls12_318/bls_curve.js:110-123 | the BLS12-318 twist maps the identity to the identity, and other points to 12-coefficient coordinates |
| Curves.UnitEmbed | curves/bls12_318/bls_curve.js:115-120 | the BLS12-318 coordinate map puts x1 at coefficient 6, zeros away from 0 and 6, and x0 − x1 at 0, from which adding coefficient 6 gives x0 back |
| Curves.BlsTwistDivides | curves/bls12_318/bls_curve.js:113-122 | the BLS12-318 twist embeds x0 − x1 and x1, then multiplies by the `_FQP.inv` of X² and X³ |
| Curves.IsZeroTwist | curves/mnt/mnt6/mnt6_curve.js:113-115 | the MNT6 and alt_bn128 twists call the missing `is_zero`, so every call fails |
| Pairing.LineFunc | curves/alt_bn128/alt_bn128_pairing.js:10-24 | `linefunc` fails exactly when a point is at infinity, with the variant's fault, and otherwise returns a field element |
| Pairing.Line | curves/alt_bn128/alt_bn128_pairing.js:10-24 | the three-branch line value is an element of the field; `Pairing.LineVanishesAtFirst` and `Pairing.LineVanishesAtSecond` say it is the line through the points |
| Pairing.LineVanishesAtFirst | curves/alt_bn128/alt_bn128_pairing.js:16-23 | in each of the three branches, the line evaluated at T = P1 is zero |
| Pairing.LineVanishesAtSecond | curves/alt_bn128/alt_bn128_pairing.js:16-18 | the line at T = P2 is zero for equal x, and for the chord over a field of prime order |
| Pairing.ChordAtSecond | curves/alt_bn128/alt_bn128_pairing.js:16-18 | the chord through two prime-field points of different x vanishes at the second |
| Pairing.ChordSlope | curves/alt_bn128/alt_bn128_pairing.js:17 | the chord slope is (y2 − y1)/(x2 − x1) in the prime field, a residue |
| Pairing.SlopeTimesRun | curves/alt_bn128/alt_bn128_pairing.js:17 | the chord slope times x2 − x1 is y2 − y1 |
| Pairing.Cast | curves/alt_bn128/alt_bn128_pairing.js:26-34 | the cast puts x.n and y.n at coefficient 0 of 12-coefficient elements, zeros elsewhere; the identity throws in the alt_bn128 version and maps to null in the MNT4 one |
| Pairing.ConstantProduct | curves/alt_bn128/alt_bn128_pairing.js:30-33 | cast constants multiply as their integers do |
| Pairing.ConstantDifference | curves/alt_bn128/alt_bn128_pairing.js:30-33 | cast constants subtract as their integers do |
| Pairing.ConstantEquality | curves/alt_bn128/alt_bn128_pairing.js:30-33 | cast constants are equal exactly when their integers are congruent |
| Pairing.ScaledConstant | curves/alt_bn128/alt_bn128_pairing.js:30-33 | scaling a cast constant scales its coefficient 0 |
| Pairing.CastOnCurve | curves/alt_bn128/alt_bn128_pairing.js:26-34 | a cast point is on the FQ12 curve with b = [b, 0, …] exactly when it is on the prime-field curve |
| Pairing.CastGenerator | curves/alt_bn128/alt_bn128_pairing.js:26-34 | the cast of the generator (1, 2) is on the FQ12 curve with b = 3 |
| Pairing.Run | curves/alt_bn128/alt_bn128_pairing.js:43-50 | the loop over bits i down to 0 keeps R on the curve's coordinates and f twelve coefficients, and fails only on a missing point or a failed assertion |
| Pairing.Ladder | curves/alt_bn128/alt_bn128_pairing.js:43-50 | left-to-right double-and-add n·Q from the top bit down |
| Pairing.LadderSmall | curves/ec.js:76-88 | for 2 and 3 the ladder agrees with `multiply` |
| Pairing.ShrAdd | curves/alt_bn128/alt_bn128_pairing.js:46 | shifting by i + j is shifting by i and then by j |
| Pairing.Shr | curves/alt_bn128/alt_bn128_pairing.js:46 | n shifted right by i bits never exceeds n |
| Pairing.ShrIsDivision | curves/alt_bn128/alt_bn128_pairing.js:46 | n shifted right by i bits is n / 2^i |
| Pairing.AteLoopBounds | curves/alt_bn128/alt_bn128_pairing.js:5-6 | 2^(log_ate_loop_count + 1) ≤ ate_loop_count < 2^(log_ate_loop_count + 2): the constant has 65 bits, one above the loop's first bit 63 |
| Pairing.ShrByte | curves/alt_bn128/alt_bn128_pairing.js:46 | eight shifts divide by 256 |
| Pairing.AteTop | curves/alt_bn128/alt_bn128_pairing.js:5-6 | bit 64 is the top bit of ate_loop_count, so R = Q accounts for it and the loop visits bits 63 down to 0 |
| Pairing.AteShift | curves/alt_bn128/alt_bn128_pairing.js:5-6 | shifts of ate_loop_count by at most 64 are positive |
| Pairing.AteByte | curves/alt_bn128/alt_bn128_pairing.js:5 | the next byte of a shift of ate_loop_count |
| Pairing.Climb | curves/alt_bn128/alt_bn128_pairing.js:44-49 | the way the loop moves R keeps its coordinates' size |
| Pairing.ClimbStep | curves/alt_bn128/alt_bn128_pairing.js:44-49 | one step of the climb takes R from (n >> (i+1))·Q to (n >> i)·Q |
| Pairing.ClimbFollowsLadder | curves/alt_bn128/alt_bn128_pairing.js:43-50 | after handling bit i, R is (ate_loop_count >> i)·Q, ending at n·Q |
| Pairing.RunStep | curves/alt_bn128/alt_bn128_pairing.js:44-49 | one pass of the loop moves R as one climb step; both fail or both go on |
| Pairing.RunClimbs | curves/alt_bn128/alt_bn128_pairing.js:43-50 | the loop succeeds exactly when the climb does, and leaves R where the climb ends |
| Pairing.LoopPoint | curves/alt_bn128/alt_bn128_pairing.js:41-50 | after the 64 passes R is ate_loop_count·Q |
| Pairing.FinalExponentiate | curves/alt_bn128/alt_bn128_pairing.js:67-69 | `final_exponentiate` returns an element of the field |
| Pairing.Frobenius | curves/alt_bn128/alt_bn128_pairing.js:51-55 | the Frobenius tail returns an FQ12 element or the first failed line or addition |
| Pairing.MillerLoop | curves/alt_bn128/alt_bn128_pairing.js:38-58 | the loop method computes the function `MillerValue`; it returns `FQ12.one()` when either point is at infinity and fails only on a missing point or an assertion |
| Pairing.MillerValue | curves/alt_bn128/alt_bn128_pairing.js:38-58 | `miller_loop` returns one when either point is at infinity; `Pairing.LoopPoint` shows the loop takes R to ate_loop_count·Q |
| Pairing.AltPairing | curves/alt_bn128/alt_bn128_pairing.js:61-65 | `pairing` discards both `is_well_defined` results and runs the Miller loop on the twisted Q and cast P; a P at infinity throws in the cast |
| Pairing.MntPairing | curves/mnt/mnt4/mnt4_pairing.js:61-65 | `pairing` asserts both points are on their curves, then runs the Miller loop on the twisted Q and cast P; `null` gives `FQ12.one()` |
| RsaAccumulator.G | rsa-accumulator/rsa-accumulator.js:30-32 | G is 2 mod N |
| RsaAccumulator.Raise | rsa-accumulator/rsa-accumulator.js:20 | `pow` on the accumulator's field is x^abs(e) mod N |
| RsaAccumulator.InclusionProof.constructor | rsa-accumulator/rsa-accumulator.js:43-45 | the proof stores its root |
| RsaAccumulator.InclusionProof.Verify | rsa-accumulator/rsa-accumulator.js:47-49 | `verify` holds exactly when root^x ≡ state (mod N), changes nothing, and throws on a state that `remove` replaced by a proof |
| RsaAccumulator.InclusionProof.Update | rsa-accumulator/rsa-accumulator.js:51-53 | `update(y)` raises the root to y |
| RsaAccumulator.Accumulator.constructor | rsa-accumulator/rsa-accumulator.js:14-16 | a new accumulator holds G = 2 |
| RsaAccumulator.Accumulator.Add | rsa-accumulator/rsa-accumulator.js:18-22 | `add(x)` raises the state to x and returns a fresh proof whose root is the state before, and that proof verifies at once; on a stored proof it fails and changes nothing |
| RsaAccumulator.Accumulator.Remove | rsa-accumulator/rsa-accumulator.js:24-28 | `remove` throws 'Invalid proof' exactly when the proof verifies, leaving the state alone; otherwise it stores the proof object itself as the state |
| RsaAccumulator.AddsCommute | rsa-accumulator/rsa-accumulator.js:18-22 | adding x then y leaves the same state as adding y then x |
| RsaAccumulator.WitnessUpdate | rsa-accumulator/rsa-accumulator.js:47-53 | a proof for x that verifies keeps verifying after y is added and the proof is updated by y |
| ZkVerifier.G1 | zokrates-verifier/verifier.js:32-36 | `new G1Point(x, y)` has residue coordinates |
| ZkVerifier.G2 | zokrates-verifier/verifier.js:38-42 | `new G2Point(x, y)` is an affine point whose coordinates are reduced two-coefficient `FQ2` elements |
| ZkVerifier.G2Of | zokrates-verifier/verifier.js:38-42 | succeeds exactly when both coordinates have two coefficients, fails `FQ2`'s assertion otherwise, and yields reduced `FQ2` coordinates |
| ZkVerifier.Pairs | zokrates-verifier/verifier.js:58-61 | the `gammaABC` loop fails only on the `undefined` last token (a missing property), and every point it pushes has residue coordinates; `ZkVerifier.PairsLayout` gives which tokens |
| ZkVerifier.PairsStep | zokrates-verifier/verifier.js:59-60 | one pass of the key constructor's loop pushes the point of tokens i and i + 1 |
| ZkVerifier.PairsLayout | zokrates-verifier/verifier.js:58-61 | from token i the points are read exactly when an even number of tokens is left, and point k comes from tokens i + 2k and i + 2k + 1; otherwise reading `undefined` throws |
| ZkVerifier.KeyLayoutMeaning | zokrates-verifier/verifier.js:51-61 | the key is built exactly when there are at least 14 tokens and an even count; a comes from tokens 0, 1 and b, gamma, delta from tokens 2-13 with each FQ2 pair swapped; gammaABC gets one point per pair from token 14 |
| ZkVerifier.KeyLayout | zokrates-verifier/verifier.js:51-61 | the token layout of `VerificationKey`, whose meaning `ZkVerifier.KeyLayoutMeaning` states |
| ZkVerifier.BuildKey | zokrates-verifier/verifier.js:51-62 | the constructor with its pushing loop computes the key layout |
| ZkVerifier.Reverse | zokrates-verifier/verifier.js:78 | `reverse` puts element |s| − 1 − i at i |
| ZkVerifier.ProofFromJson | zokrates-verifier/verifier.js:74-82 | the proof is built exactly when a, c have two entries and b two pairs of exactly two; A and C come from a and c, B from both pairs reversed; the inputs are kept |
| ZkVerifier.Combine | zokrates-verifier/verifier.js:14-16 | the loop that adds gammaABC[i + 1]·inputs[i] keeps vk_x a reduced point |
| ZkVerifier.VkX | zokrates-verifier/verifier.js:13-17 | vk_x, the combination from the identity plus gammaABC[0], is a reduced point |
| ZkVerifier.CombineNeverFails | zokrates-verifier/verifier.js:14-16 | over a field of prime order the combination never fails |
| ZkVerifier.CombineOfZeros | zokrates-verifier/verifier.js:14-16 | all-zero inputs leave vk_x where it started |
| ZkVerifier.VkXOfZeros | zokrates-verifier/verifier.js:13-17 | with all inputs zero, vk_x is gammaABC[0] |
| ZkVerifier.AcceptsAnswers | zokrates-verifier/verifier.js:10-28 | with a pairing that always answers, `verify` answers exactly when inputs.length + 1 = gammaABC.length, and otherwise fails that assertion |
| ZkVerifier.Accepts | zokrates-verifier/verifier.js:10-28 | the accept test of `verify`, whose failure cases and answer `ZkVerifier.AcceptsAnswers` and `ZkVerifier.Verify` state |
| ZkVerifier.Verify | zokrates-verifier/verifier.js:8-29 | the method, with its vk_x loop, computes the accept test: true exactly when e(B, A)·e(gamma, −vk_x)·e(delta, −C)·e(b, −a) equals `FQ12.one()` |
| ZkVerifier.VerifyAsWritten | zokrates-verifier/verifier.js:13 | `verify` as written always fails: the assertion or the missing `zero()` |
| ZkVerifier.AsWrittenNeverAnswers | zokrates-verifier/verifier.js:10-17 | wherever the corrected `verify` answers, the one as written throws |

## Left out

- I/O and runtime: `fetch`, `async` loaders, the top-level `verify(...)` call, regex tokenising of the key
  text (the key constructor takes a sequence of integers) and every `console.log`.
- JavaScript dynamic dispatch (`_n`, `instanceof`): scalar and element operations are separate functions.
- `Fields.Div`: `_FQP.div` tests `other instanceof BigInt`, which primitive BigInts never pass, so only
  `FQ` objects take the scalar branch; a bigint divisor is not modelled.
- Load-time assertions over the real 254–753-bit constants (generator checks, `(p^12 − 1) % order`):
  moduli are parameters and primality is a hypothesis. The model does not evaluate these constants.
  One of them fails whatever the constants are: alt_bn128_curve.js:45 asserts
  `AltBn128CurvePoint.G.is_well_defined()`, and that override calls the missing `is_zero`
  (alt_bn128_curve.js:28, `Curves.AltBn128IsWellDefined`). So importing alt_bn128_curve.js throws, and
  verifier.js, which imports it at its line 1, fails to load before its line 13 is reached.
- secp256k1 and secp256r1 files: constants only, no logic.
- `utils.js`, `alt_bn128_curve_1.js`, `alt_bn128_field.js` and `mnt4_field.js` are not part of this model. `assert` is a failure
  (`AssertionFailed`).
- `Pairing.AltPairing`: the alt_bn128 pairing imports its curve classes from `alt_bn128_curve_1.js`, which
  is not part of this model. `AltPairing` models the pairing over those classes, reading their `is_zero`
  as `is_identity` and their twist as the BN twist.
- `Pairing.MntPairing`: mnt4_pairing.js:2 takes `curve_order`, `add`, `double`, `is_on_curve`, `twist`,
  `b`, `b2` and more from `./bn128_curve.js` in its own directory (curves/mnt/mnt4/bn128_curve.js), and
  that module is not part of this model.
  The model assumes ec.js `double` and `add` for the two functions (the chord assertion is proved only
  over prime fields, while these points are FQ12 points), `Curves.Bn128IsWellDefined` for
  `is_on_curve`, and the BN twist `Curves.Twist` for `twist`.
- `ExtensionField.MaxRounds`: the `while (deg(low))` loop of `_FQP.inv` has no bound of its own, so the
  run is cut off after `MaxRounds(d)` rounds. For a prime modulus `InverseLaws.InverseLoopTerminates`
  shows the loop ends by its own test within that bound. For a composite modulus the bound is only a
  cut-off. That a larger bound returns the same state is not stated as a lemma.
- `ExtensionField.Inverse`: the result is proved a true inverse only for embedded constants
  (`InverseLaws.InverseCorrectOnConstants`). The invariant lm·x ≡ low and hm·x ≡ high modulo the
  reduction polynomial is not proved. It needs polynomial arithmetic modulo the reduction polynomial,
  with the products cut off above X^d.
- `ExtensionField.Inv`: computes `Inverse`, and carries the same gap.
- `Fields.Div`: in the extension classes `f.div(f) = one` (tests/test_bn128.js:17 and :28) is not proved for
  general f, as it rests on the inverse above. Distributivity of `div` over `add` is proved for all
  divisors (`Fields.DivDistributes`).
- `Polynomials.RoundedDiv`: only the leading quotient coefficient is characterised. The lower
  coefficients keep the source's subtraction of o[c], which is not long division.
- `CurveGroup.Add`: group associativity and tests such as 9P + 5P = 12P + 2P are not proved.
- `CurveGroup.Double`: `double` (and the tangent branch of `linefunc`) uses the slope 3x²/(2y), which
  leaves out the curve coefficient a. The model keeps this as written and does not prove that the double
  lies on a curve with a ≠ 0.
- `CurveGroup.ChordAssertionHolds`: proved for prime fields only, not for the extension fields.
- `Curves.BlsTwistDivides`: states the twist as multiplication by `_FQP.inv` of X² and X³. It does not
  prove that this inverse is correct.
- `Curves.Twist`: the twist is modelled as the coefficient map it is. Whether it is an isomorphism onto the
  curve for the MNT and BLS curves, several of which copy BN constants, is not modelled.
- alt_bn128 `FQ2.b = [3, 0] / [9, 1]`: left as the quotient `div` computes. The model does not prove
  b·[9, 1] = [3, 0].
- `Pairing.Bit`: `ate_loop_count & 2n ** BigInt(i)` is modelled as a bit test.
- `Pairing.FinalExponentiate`: the meaning of the final exponentiation and of the Frobenius steps
  (bilinearity, non-degeneracy, output order) is out of reach. `pow` is modelled faithfully.
- `Pairing.AltPairing`: the two `is_well_defined` results are computed and discarded, so the model does
  not evaluate them.
- `Pairing.LadderSmall`: the ladder is shown to agree with `multiply` for 2 and 3 only.
- `ZkVerifier.Verify`: the pairing is a function parameter. verifier.js passes the pairing points of
  `alt_bn128_curve.js`, whose `is_well_defined` calls the missing `is_zero` (alt_bn128_curve.js:28) and
  throws, so with those points the pairing never returns (importing that file already throws, as the
  load-time line above says). `Pairing.AltPairing` models the pairing over the `_1` classes instead, and
  is what the parameter stands for.
- `Pairing.AteLoopCount` and `Pairing.LogAteLoopCount`: constants, which carry no contract of their own.
  `Pairing.AteLoopBounds` and `Pairing.AteTop` state what the loop needs of them.
- `ZkVerifier.Verify`: the field prime p is a parameter. `AltBn128Modulus` is the value it is meant to take.
- `ZkVerifier.Verify`: sign-blindness of the whole combination (negated inputs giving the same vk_x) is
  not proved. It does hold for each `multiply`, by `CurveGroup.MultiplySign`.
- `ZkVerifier.ProofFromJson`: `reverse` mutates the JSON arrays in place. The model returns a new
  sequence, because the JSON is not read again.
- `ZkVerifier.ProofFromJson`: the inputs are taken as integers; BigInt parsing of strings is not modelled.
- `RsaAccumulator.Accumulator`: the `state` getter is the field `state`. The modulus is the constant `N`.

## Findings

| source | as written | input that shows it | evidently intended | confidence | as-written member | corrected member |
|---|---|---|---|---|---|---|
| zokrates-verifier/verifier.js:13 | `vk_x` starts from `AltBn128CurvePointFQ2.zero()`, which neither `CurvePoint` nor the curve classes define, so `verify` always throws | any key and inputs with inputs.length + 1 == gammaABC.length | start the combination from the identity point, `AltBn128CurvePoint.identity()` | not executed | ZkVerifier.VerifyAsWritten, ZkVerifier.AsWrittenNeverAnswers | ZkVerifier.Verify |
