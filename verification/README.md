# Verified models of the PBC library and its OpenSSL slice

A Dafny 4.11 project. It models the arithmetic core of the pairing library in `arith/` and `ecc/`, and
four state machines of `crypto/`, and proves that the fast forms agree with the simple ones they stand for.
`dafny verify dfyconfig.toml` checks all of it.

## How it is modelled

- **Limbs** (`Limbs`, `Gmp`, `Montgomery`, `MontField`, `LimbField`): buffers are arrays of limbs below b = 2^32, the
  width of the bundled GMP header, with `Value` their number. Loops, carries, aliasing and the zero flag are
  those of the code. Moduli, limb counts and operands are arbitrary.
- **Elements above the limbs**: an element of F_q is any integer of its residue class; two integers are the same
  element when they are congruent (`Modular.Eq`). Statements about elements are congruences for every odd prime q.
  Elements of quadratic extensions are pairs (`Quadratic`), of polynomial extensions coefficient sequences (`Poly`).
  Polynomial identities are stated by the values at every integer with explicit cofactors of q and of the modulus;
  `Poly.EvalDetermines` turns them into identities of coefficients.
- **GMP**: `mpz_*` and `mpn_*` calls become the operation they promise, with a body. Primality is exact.
  The Legendre symbol is the existence of a root; `Residues.EulerCriterion` proves what the algorithms need of it.
- **Index calculus** (`SmoothNumbers`, `Relations`, `RelationRows`, `BackSubstitution`, `IndexCalculus`, `FoundRelations`, `LogTable`): `Run` is what all
  relations leave from the empty matrix on; the loops are proved to compute it, and the logarithms, which exist because
  `Generators` proves the generator test, are shown to be what comes out.
- **Curve**: `CurveLaw` says what the addition formulas mean on y^2 = x^3 + ax + b. Associativity is not proved; nP, where it
  occurs, is a function `f` with f(1) = P, f(-n) = -f(n) and f(m + n) = f(m) + f(n) (`MillerChains.Multiples`).
- **Pairings** (`EMiller`, `AMiller`): both codes are compared with a textbook Miller value, which multiplies and
  divides by the lines through affine points. `Regular` says that no inversion meets zero, which both codes assume.
  `EMillerIndex` and `AMillerIndex` show that this value is the Miller function f_r: `MillerChains` builds f_n from f_1 = 1 by
  lines and verticals, with no parameter of the pairing in it, and the norm lemmas check its rules against the curve.
- **Extensions**: `LucasExtension` works in any commutative ring with a half of 1 (on the values that represent its
  elements), so the base field of type D may be an extension itself; `PowWindow` works in any commutative monoid.
  `ResidueRings` and `FieldPowers` give the instances.
- **State machines**: `MemCheckLocks` is a transition system with one step per shared access; `AppInfo`,
  `DynLocks` and `Md32` are classes whose methods are the critical sections or calls of the source.

Some results are about code that does less than its place suggests. They give the exact condition, and beside it an
input that fails: `MontField.Halve` (a missing flag on the odd path; `HalveFails`),
`MontField.SetMpz` (multiples of p; `SetMpzFails`), `QuadraticRoots.FqSqrt` (elements of
the base field; `BaseRootFails`), `Montgomery.MontExact` (a lost carry; `HeadroomNeeded`), `Mnt.CmEquation` (3D in 32 bits;
`CmEquationFails`), `AppInfo.MemDebug.DbgMalloc` (a stranded node; `Stranded`), `Generators.IsGen` (`ZeroPasses`) and its test (composite factors;
`TestNeedsPrimes`), `DynLocks.Table.Destroy` (`DestroyedTwice`), `Lucas.WrongParity` (`WrongParityFails`) and
`PellSmall.NoCurveMissed` (two wrapped values of 3D; `CurveMissed`).
Where comments and code disagree the model follows the code: the names and comments of `lucas_odd` and
`lucas_even` have the parities reversed, `find_mnt6_curve` speaks of 3D but computes it in 32 bits, and
`CRYPTO_push_info_` returns 0 also when it succeeds.

## Model

| member | source | states |
|---|---|---|
| Limbs.AddN | arith/fastfp.c:120-130 | the limb addition under every field addition gives the exact sum with its carry: Value(r) + carry b^n = Value(a) + Value(b), also when r is a or b; limbs past n keep their values |
| Limbs.SubN | arith/fastfp.c:175-182 | the limb subtraction gives the exact difference with its borrow, also in place |
| Gmp.Add | PBCVC/gmp.h:1697-1734 | __GMPN_ADD on operands of different sizes: the exact sum with its carry, destination equal to either source or separate, limbs past it untouched |
| Gmp.Sub | PBCVC/gmp.h:1697-1738 | __GMPN_SUB: the exact difference with its borrow |
| Gmp.Add1Limb | PBCVC/gmp.h:1764-1800 | __GMPN_ADD_1 from a source to a destination, the same or not: exact, through the early exit and the copy of the rest |
| Gmp.Sub1Limb | PBCVC/gmp.h:1764-1800 | __GMPN_SUB_1: exact with its borrow |
| Limbs.Add1 | PBCVC/gmp.h:1764-1800 | adding one limb propagates the carry through the early exit: the value grows by exactly v, up to the returned carry |
| Limbs.AddMul1 | arith/montfp.c:44-50 | what the multiply-add primitive does to a stretch of a longer buffer: value plus v times the operand, with the carry out as a limb |
| Limbs.Cmp | PBCVC/gmp.h:1853-1875 | comparison from the top limb decides the order of the values |
| Limbs.LShift1 | arith/montfp.c:268-290 | doubling by a shift with its carry out |
| Limbs.RShift1 | arith/fastfp.c:160-173 | halving by a shift with the bit shifted out |
| Montgomery.MontExact | arith/montfp.c:351-383 | the product mod p with c R = a b holds if and only if no pass of mont_mul loses the carry of its addition to the top limb |
| Montgomery.Headroom | arith/montfp.c:351-383 | when (b+1)(p-1) < b^(t+1) no pass can lose that carry, for any limb count, so mont_mul is the Montgomery product |
| Montgomery.HeadroomNeeded | arith/montfp.c:365-365 | p = 2^64 - 59 on two limbs: operands below p for which the carry is lost and the result is wrong |
| Montgomery.MontMul | arith/montfp.c:351-383 | the in-place limb loops compute MontProduct, including the passes that wrap; the output may be an operand |
| Montgomery.MontReduce | arith/montfp.c:38-56 | for every input below p R the result is below p with x R = y mod p, and the carry flag never exceeds 1 |
| MontField.FieldData.constructor | arith/montfp.c:608-638 | the constants R, R^3 and -1/p mod b are set up correctly from the prime |
| MontField.Element.constructor | arith/montfp.c:70-76 | a new element has the zero flag |
| MontField.SetMpz | arith/montfp.c:85-100 | the element holds z mod p; its zero flag is right if and only if z is 0 or no multiple of p |
| MontField.SetMpzFails | arith/montfp.c:85-100 | 7 set modulo 7 is zero with a flag that says it is not |
| MontField.ToMpz | arith/montfp.c:123-140 | the residue of the element, so setting and reading back is reduction mod p |
| MontField.Set | arith/montfp.c:208-232 | assignment keeps the value and the flag |
| MontField.Set1 | arith/montfp.c:150-156 | the element becomes 1 |
| MontField.IsOne | arith/montfp.c:158-166 | true exactly on the element 1 |
| MontField.Add | arith/montfp.c:234-264 | the sum mod p in every branch, operands aliased or not; the flag is zero exactly for the sum 0 |
| MontField.FlagAdd | arith/montfp.c:240-262 | for nonzero residues the flag is zero if and only if the sum is 0 mod p, and otherwise the limbs hold the reduced sum; the carry branch never yields zero |
| MontField.SettleFlag | arith/montfp.c:245-262 | the correction after an addition: comparison with p decides among keep, zero and subtract |
| MontField.Double | arith/montfp.c:268-290 | twice the element mod p |
| MontField.Neg | arith/montfp.c:314-323 | the negative mod p |
| MontField.Sub | arith/montfp.c:325-347 | the difference mod p; equal operands give the zero flag |
| MontField.FlagSub | arith/montfp.c:332-346 | for nonzero residues the flag is zero if and only if they are equal, otherwise the limbs hold the reduced difference |
| MontField.Mul | arith/montfp.c:385-397 | the product mod p through mont_mul and the flags |
| MontField.Halve | arith/montfp.c:294-312 | the result doubles back to the operand if and only if it is aliased, zero, even, or the target's flag was already set: the odd branch never sets the flag |
| MontField.HalveFails | arith/montfp.c:294-312 | modulo 7 on one limb: halving 2 into a new element leaves an element that reads as zero |
| MontField.Invert | arith/montfp.c:420-441 | inversion through R^3 is the inverse of every nonzero element |
| LimbField.FastAdd | arith/fastfp.c:120-130 | the sum reduced below p, including the carry-out branch, operands aliased or not |
| LimbField.FastDouble | arith/fastfp.c:132-139 | the double reduced below p |
| LimbField.FastSub | arith/fastfp.c:175-182 | the difference reduced below p |
| LimbField.FastNeg | arith/fastfp.c:238-246 | the negative reduced below p, zero included |
| LimbField.FastIsZero | arith/fastfp.c:100-107 | true exactly for zero |
| LimbField.FastHalve | arith/fastfp.c:160-173 | the result is reduced and doubles back to the operand for every odd p |
| Curve.JacobianDouble | ecc/e_param.c:224-267 | the projective doubling formulas compute the affine double of the point the coordinates stand for |
| Curve.ToAffine | ecc/e_param.c:211-222 | dividing by the powers of z gives the affine point back |
| Curve.Point.DoubleNoCheck | ecc/curve.c:101-137 | the tangent doubling, target and operand aliased or not |
| Curve.Point.Double | ecc/curve.c:139-152 | infinity exactly for infinity and for y = 0, otherwise the tangent doubling |
| Curve.Point.Add | ecc/curve.c:154-209 | in every branch, target aliased or not, the result is SumOf of the operands, which CurveLaw.SumLaw and SumUnique identify as the group law |
| CurveLaw.ChordLaw | ecc/curve.c:180-206 | the line of slope lambda goes through both operands and meets y^2 = x^3 + ax + b exactly in them and in the negative of the sum, which is on the curve |
| CurveLaw.TangentLaw | ecc/curve.c:101-137 | the tangent meets the curve twice in the point and once in the negative of the double, which is on the curve |
| CurveLaw.SumLaw | ecc/curve.c:154-209 | the sum of any two points of the curve is on it; infinity is neutral, opposite points add to infinity, and otherwise one line meets the curve in both operands and the negative of the sum |
| CurveLaw.SumUnique | ecc/curve.c:154-209 | at most one point has that relation to two points of the curve, so nothing else can be returned |
| CurveLaw.LineNorm | ecc/e_param.c:269-337 | a line function at a point of the curve times its value at the negative point is minus the product of the distances to its three intersections |
| MillerChains.ChainPlace | ecc/e_param.c:366-415 | a chain of additions, negations and doublings of P with index n ends at nP |
| MillerChains.LineVerticals | ecc/e_param.c:308-344 | chord, tangent or vertical: the line through two points times its mirror image is the verticals through both and through their sum, up to a sign |
| EMiller.MillerAffine | ecc/e_param.c:427-592 | the numerator and denominator loop returns the quotient of the textbook Miller values, with every vertical line divided out |
| EMiller.MillerProj | ecc/e_param.c:188-425 | the projective loop returns the same quotient: every scaling by a power of z cancels between v and vd |
| EMiller.MillersAgree | ecc/e_param.c:188-592 | the projective and the affine loop return the same element whenever no inversion meets zero |
| EMillerIndex.RunJoined | ecc/e_param.c:366-408 | before the last vertical the run stands at index 2^exp2 + sign1 2^exp1: its point and both values are those of f_1 = 1, doublings, the inverse at -2^exp1 P for sign1 < 0, and one sum |
| EMillerIndex.RunEnds | ecc/e_param.c:405-415 | adding sign0 P ends at infinity exactly for rP = O, r = 2^exp2 + sign1 2^exp1 + sign0 |
| EMillerIndex.RunIndex | ecc/e_param.c:405-415 | then the joined point has the abscissa of P, and the two values after the last vertical are those of a chain of index r up to one common factor |
| EMillerIndex.QuotientIndex | ecc/e_param.c:366-418 | so what both loops return is f_r(QR) / f_r(R) |
| EMillerIndex.ValueNorm | ecc/e_param.c:366-418 | the value of any chain of index n times its value at the mirrored points is ((x_QR - x_P)/(x_R - x_P))^n times the verticals at nP, by the curve equation alone |
| EMillerIndex.QuotientNorm | ecc/e_param.c:366-418 | hence the returned element times the one returned for -QR and -R is ((x_QR - x_P)/(x_R - x_P))^r |
| EMiller.ProjDouble | ecc/e_param.c:224-267 | the register updates are the doubling formulas, and z2 stays the square of z |
| EMiller.TangentProj | ecc/e_param.c:269-306 | v and vd are multiplied by the tangent scaled by powers of z |
| EMiller.Line | ecc/e_param.c:494-525 | v and vd are multiplied by the chord |
| AMiller.FactorRemoved | ecc/a_param.c:392-411 | conj(f)/f forgets every base-field factor of f and has norm 1 |
| AMiller.TateExponent | ecc/a_param.c:392-411 | a_tateexp of a scaled Miller value is the exponentiation of the textbook value |
| AMiller.PairingAffine | ecc/a_param.c:1377-1476 | the affine pairing is (q-1) cofactor of the textbook Miller value |
| AMiller.PairingProj | ecc/a_param.c:1170-1375 | the projective pairing is the same element: its Miller value differs by a base-field factor only |
| AMiller.PpInit | ecc/a_param.c:237-313 | the stored coefficients are those of the lines the affine run meets, in order |
| AMiller.PpApply | ecc/a_param.c:426-471 | replaying the stored lines at Q gives the same element as the direct pairings |
| AMiller.TangentProj | ecc/a_param.c:171-198 | the projective tangent coefficients are the affine ones scaled by powers of z |
| AMiller.ProjDouble | ecc/a_param.c:1204-1244 | the register updates are the doubling formulas |
| AMillerIndex.RegularRun | ecc/a_param.c:1377-1476 | for q = 3 mod 4 and y_Q nonzero no inversion meets zero exactly when the points of the run can be added |
| AMillerIndex.RunJoined | ecc/a_param.c:1430-1470 | up to a base-field factor the Miller value of all three pairings is f_n at the distorted point for n = 2^exp2 + sign1 2^exp1, verticals included |
| AMillerIndex.RunWhole | ecc/a_param.c:1430-1470 | for rP = O it is f_r up to such a factor, r = 2^exp2 + sign1 2^exp1 + sign0 for either sign0: the left-out last line is a vertical |
| AMillerIndex.TateIndex | ecc/a_param.c:1377-1476 | so the pairings return f_r at the distorted point, exponentiated |
| AMillerIndex.TatePairing | ecc/a_param.c:392-411 | with the cofactor (q+1)/r that is the Tate pairing f_r^((q^2-1)/r) |
| AMillerIndex.RunEnds | ecc/a_param.c:1430-1470 | the chain of index r ends at infinity exactly for rP = O |
| AMillerIndex.ValueNorm | ecc/a_param.c:1430-1470 | the norm of the value of a chain of index n is, up to sign, (-x_Q - x_P)^n over the vertical at nP |
| AMillerIndex.TableLines | ecc/a_param.c:237-313 | record i of the preprocessing is the tangent at 2^i P, and the last one is a line through 2^exp2 P and sign1 2^exp1 P |
| Frobenius.PowerIsConj | ecc/a_param.c:399-405 | in F_q(i), q = 3 mod 4, the q-th power of an element is its conjugate |
| Frobenius.TatePower | ecc/a_param.c:392-411 | a_tateexp computes the power by (q-1) times the cofactor, as its slower form would |
| Lucas.Ladder | ecc/a_param.c:342-369 | after the ladder the registers hold V_k and V_(k+1) of the norm-1 element, for k the even part of the exponent |
| Lucas.Rebuild | ecc/a_param.c:371-389 | the imaginary part of in^n from V_n, V_(n+1) and in, for P^2 not 4 |
| Lucas.LucasOdd | ecc/a_param.c:329-390 | lucas_odd is plain exponentiation by every even cofactor; an odd one loses its last digit |
| LucasExtension.LucasEven | ecc/d_param.c:578-640 | over any field in which 2 is invertible, itself an extension or not, lucas_even is plain exponentiation of norm-1 elements by every odd cofactor, when P^2 - 4 is invertible or the element lies in the base field; an even cofactor gains one |
| LucasExtension.VProduct | ecc/d_param.c:603-623 | the ladder identity V_m V_(m+n) = V_(2m+n) + V_n behind every register update |
| ResidueRings.ResidueLaws | arith/montfp.c:385-397 | the residues modulo any odd q satisfy the laws the ladder asks for, with a half of 1 |
| ResidueRings.ExtensionLaws | arith/fieldquadratic.c:191-228 | pairs of residues modulo any odd q, multiplied as x + y sqrt d, satisfy the laws the ladder asks for |
| ResidueRings.LucasEvenPrime | ecc/d_param.c:578-640 | over every prime field lucas_even is plain exponentiation of every norm-1 pair by every odd cofactor, the elements with P^2 = 4 included |
| Lucas.WrongParity | ecc/a_param.c:329-390 | with the other parity the results agree with exponentiation if and only if the element is 1 |
| Lucas.WrongParityFails | ecc/a_param.c:329-390 | -1 has norm 1 and different powers at neighbouring exponents |
| Pell.NextReduced | ecc/mnt.c:113-124 | the division by Q0 is exact and P, Q stay reduced and bounded by the square root of D |
| Pell.NextInv | ecc/mnt.c:75-155 | each pass keeps p0^2 - D q0^2 = d Q1 and the determinant of consecutive convergents |
| Pell.NextInjective | ecc/mnt.c:75-155 | a pass is injective on reduced states |
| Pell.Fresh | ecc/mnt.c:75-155 | so before the stopping state no state repeats, and the loop ends |
| Pell.StopTest | ecc/mnt.c:112-112 | the test of the loop holds exactly in the state where the period closes with norm 1 |
| Pell.ConeMinimal | ecc/mnt.c:139-143 | every positive solution of x^2 - D y^2 = 1 dominates the convergent where the loop stops |
| Pell.GeneralPell | ecc/mnt.c:23-162 | terminates for every nonsquare D; each reported pair solves x^2 - D y^2 = N, the pairs are exactly the multiples f of convergents of one full period with f^2 Q = N, and (minx, miny) is the least solution of the equation = 1 |
| Mnt.NextPrime | ecc/mnt.c:248-248 | the next prime exists and is the least one above p |
| Mnt.SplitOrder | ecc/mnt.c:238-262 | succeeds if and only if n is a prime r times a cofactor of primes that are smaller than r and have at most 16 bits, and returns them |
| Mnt.MntStep2 | ecc/mnt.c:198-283 | a reported curve has q prime, n = h r split that way, n divides q^2 - q + 1, and 3(4q - t^2) = U^2 + 8 for its trace t; nothing is reported exactly when U mod 6 is wrong, q is not prime or the order does not split |
| Mnt.Brahmagupta | ecc/mnt.c:313-330 | multiplying a solution by the minimal unit solves the same equation with a strictly larger x |
| Mnt.FindMnt6 | ecc/mnt.c:285-350 | tries the solutions of U^2 - D3 V^2 = -8 along their orbits in rounds, stops at the first successor past the bit limit, and appends exactly the accepted curves, which it counts |
| Mnt.FieldLimit | ecc/mnt.c:325-325 | the successor that stops the search stands for a field above 2^(bitlimit+5), and every one tried later for a field below 2^(bitlimit+10) |
| Mnt.CmEquation | ecc/mnt.c:293-293 | 4q - t^2 = D V^2 holds of the Pell solution if and only if 3D fits the 32-bit product |
| Mnt.CmEquationFails | ecc/mnt.c:293-293 | D = 1431655963: an accepted curve of 601 points over F_577 whose 4q - t^2 is 1779 and not 9D |
| PellOrbits.ConeOrMultiple | ecc/mnt.c:75-155 | a solution of norm below the root of D is a multiple of the current convergent or lies in the next cone: no other point of a cone has so small a norm |
| PellOrbits.OrbitsComplete | ecc/mnt.c:23-162 | every positive solution of x^2 - D y^2 = N with N^2 < D is a reported pair times a power of the least unit |
| PellOrbits.NoSolutionSkipped | ecc/mnt.c:308-333 | for D3 above 64 find_mnt6 skips no solution of U^2 - D3 V^2 = -8: each one is held by some round, or belongs to one after the last |
| PellSmall.NoCurveMissed | ecc/mnt.c:308-332 | every solution of U^2 - D3 V^2 = -8 whose U mnt_step2 does not reject is a reported pair times a power of the least unit, unless D3 is 17 or 41 |
| PellSmall.EveryCurveReached | ecc/mnt.c:285-341 | so for every D whose 3D fits 32 bits find_mnt6 misses no orbit that holds a curve |
| PellSmall.NothingReported | ecc/mnt.c:75-155 | for D3 = 17 and 41 the solver reports nothing for N = -8 |
| PellSmall.CurveMissed | ecc/mnt.c:285-341 | D = 1431655779, where the 32-bit 3D is 41: the solution 19, 3 gives an accepted curve of 43 points over F_37 that is not reported |
| Singular.MapAdd | ecc/singular.c:136-193 | the map to the field turns sn_add into multiplication, in every branch |
| Singular.MapDouble | ecc/singular.c:71-122 | the map turns doubling into squaring |
| Singular.MapNegate | ecc/singular.c:195-206 | the map turns negation into inversion |
| Singular.FieldRoundTrip | ecc/singular.c:213-264 | a nonzero field element comes back from its point, and only nonzero elements give points of the group |
| Singular.PointRoundTrip | ecc/singular.c:213-264 | a point comes back from its field element |
| Singular.MapInjective | ecc/singular.c:217-232 | two points are the same if and only if their field elements are |
| Singular.AddAssociative | ecc/singular.c:136-193 | sn_add is associative on all points |
| Singular.PointCell.Add | ecc/singular.c:136-193 | the in-place code computes Sum in every branch, target aliased or not |
| Singular.PointCell.Double | ecc/singular.c:109-122 | the in-place code computes Twice |
| Singular.PointCell.Invert | ecc/singular.c:195-206 | the in-place code computes Negate |
| Singular.PointCell.FromField | ecc/singular.c:234-264 | the in-place code computes ToPoint |
| Singular.PointCell.IntoField | ecc/singular.c:217-232 | the code computes ToField |
| PowWindow.BuildPowWindow | arith/field.c:35-59 | entry i of the window is a^i, for all 2^k entries |
| PowWindow.PowWind | arith/field.c:76-120 | the sliding window returns a^n for every n and every k of at least 1 |
| PowWindow.NaivePow | arith/field.c:138-156 | square and multiply returns a^n |
| PowWindow.Pow2 | arith/field.c:162-198 | the joint loop returns a1^n1 a2^n2 |
| PowWindow.Pow3 | arith/field.c:200-251 | the joint loop over the eight-entry table returns a1^n1 a2^n2 a3^n3 |
| PowWindow.BuildBaseTable | arith/field.c:261-297 | entry [i][j] is a^(j 2^(ki)) |
| PowWindow.PowBaseTable | arith/field.c:303-335 | the table power is a^n whenever the digits of n fit the rows built; rows beyond the table are never read |
| FieldPowers.BasePower | arith/field.c:76-156 | the monoid laws hold of F_q, where the generic power is the one of the square-root and logarithm code |
| FieldPowers.ExtensionPower | arith/field.c:76-156 | they hold of quadratic extensions, where the generic power is that of the ladders |
| Residues.EulerCriterion | arith/montfp.c:498-510 | what the Legendre symbol means: a^((q-1)/2) is 1 exactly for nonzero squares and -1 exactly for non-squares |
| Residues.Fermat | arith/indexcalculus.c:725-768 | a^(q-1) = 1 for nonzero a: exponents count modulo q - 1 |
| Tonelli.FpTonelli | arith/fp.c:8-58 | the result squares to a if and only if a is a square, zero included, and is then the root z with z^t = nqr^(t m), m below 2^(s-1), where q - 1 = 2^s t |
| Tonelli.PrincipalUnique | arith/fp.c:8-58 | only one of the two roots has that form, which fixes the root the routine returns |
| Tonelli.PrincipalIfMinusOne | arith/fp.c:8-58 | when -1 is no square every square has that form |
| QuadraticRoots.SquareByNorm | arith/fieldquadratic.c:345-362 | x + y sqrt(d) is a square of the extension if and only if its norm is a square of the base field |
| QuadraticRoots.FqIsSqr | arith/fieldquadratic.c:345-362 | decides squares of the extension |
| QuadraticRoots.FiIsSqr | arith/fieldquadratic.c:547-576 | decides squares for d = -1 |
| QuadraticRoots.FqSqrt | arith/fieldquadratic.c:364-401 | for y nonzero squares back exactly when the input is a square; for y = 0 exactly when x is 0 or x^t = nqr^(t m) for an even m below 2^(s-1) |
| QuadraticRoots.FiSqrt | arith/fieldquadratic.c:578-613 | for y nonzero squares back exactly when the input is a square; for y = 0 exactly when x is a square of the base field |
| QuadraticRoots.BaseRootFails | arith/fieldquadratic.c:364-401 | elements with a root that the routines miss: 3 in the field of 49 elements, and for q = 5, nqr = 2 the base-field square 4, because the root taken of 4^2 is 1 |
| Compression.BytesRoundTrip | arith/montfp.c:512-544 | fixed-length big-endian bytes read back the number they were written from |
| Compression.OutRawN | arith/field.c:625-635 | the buffer holds exactly n bytes, zero-padded in front, and nothing past them changes |
| Compression.ToBytesCompressed | ecc/curve.c:562-575 | the big-endian bytes of x below q, then one byte with the parity of y below q |
| Compression.FromBytesCompressed | ecc/curve.c:577-616 | reads back every finite curve point that was compressed |
| Poly.UniqueRemainder | arith/poly.c:426-464 | remainders shorter than a divisor with invertible leading coefficient are unique |
| Poly.EvalDetermines | arith/poly.c:594-604 | polynomials with the same values have the same coefficients, which ties the value identities below to coefficients |
| PolyDivision.PolyDiv | arith/poly.c:426-476 | a = quot b + rem in F_q[x] with rem shorter than b and normalized |
| PolyDivision.RemoveLeadingZeroes | arith/poly.c:53-65 | drops exactly the leading zero coefficients |
| PolyDivision.PolyGcd | arith/poly.c:1652-1674 | the divisors of the result are exactly the common divisors, and it is one of them |
| PolyInverse.MulIsConv | arith/poly.c:237-272 | every coefficient of the product is the convolution sum |
| PolyInverse.PolyMul | arith/poly.c:237-272 | the product in F_q[x], normalized |
| PolyInverse.PolySub | arith/poly.c:156-183 | the difference in F_q[x], normalized, the target equal to either operand or not |
| PolyInverse.PolyConstMul | arith/poly.c:478-486 | the multiple by a constant, normalized |
| PolyInverse.PolyInvert | arith/poly.c:488-527 | terminates for every nonzero f, and the result is an inverse of f modulo m if and only if f and m are coprime; for m not constant its degree is below that of m |
| PolyMod.ComputeXPowers | arith/poly.c:1499-1532 | row i is the remainder of x^(n+i) modulo the monic m |
| PolyMod.FoldedReduces | arith/poly.c:1232-1241 | folding the high coefficients with the stored rows is reduction modulo m |
| PolyMod.PolymodMul | arith/poly.c:1204-1248 | the product modulo m, the result aliased to an operand or not |
| PolyMod.PolymodSquare | arith/poly.c:1293-1348 | the square modulo m with each mixed product taken once |
| PolyMod.SameRemainder | arith/poly.c:1047-1348 | all products modulo m agree coefficient by coefficient, because the remainder is unique |
| Karatsuba.KarPoly2 | arith/poly.c:1007-1045 | six multiplications give the five coefficients of the product, destination aliased to an operand or not |
| Karatsuba.PolymodMulDegree3 | arith/poly.c:1047-1068 | the product modulo m of degree 3, aliased or not |
| Karatsuba.PolymodSquareDegree3 | arith/poly.c:1250-1291 | the square modulo m of degree 3, aliased or not |
| Karatsuba.KaratsubaSplit | arith/poly.c:1070-1141 | the three products of halves combine to the product of the wholes |
| Karatsuba.PolymodMulDegree6 | arith/poly.c:1070-1141 | the product modulo m of degree 6, with scratch cells reused, aliased or not |
| Karatsuba.PolymodInvert | arith/poly.c:529-574 | an inverse if and only if the element is coprime to m; no coefficient is cut off by the truncation |
| Quadratic.FqMul | arith/fieldquadratic.c:191-228 | the Karatsuba multiplication is the product in F_q(sqrt d) |
| Quadratic.FiMul | arith/fieldquadratic.c:471-504 | the product for d = -1 with one multiplication less |
| Quadratic.FqSquare | arith/fieldquadratic.c:246-267 | the square |
| Quadratic.FiSquare | arith/fieldquadratic.c:506-525 | the square as (x+y)(x-y) and 2xy |
| Quadratic.FqInvert | arith/fieldquadratic.c:291-311 | the inverse of every element of nonzero norm |
| Quadratic.FiInvert | arith/fieldquadratic.c:527-545 | the inverse for d = -1 |
| SparseLine.LineTerms | ecc/f_param.c:245-258 | only three terms of each coefficient of the full product meet a nonzero coefficient of the line |
| SparseLine.DoTerm | ecc/f_param.c:351-363 | one coefficient of the full product, with the twist where the exponent wraps |
| SparseLine.EvalLine | ecc/f_param.c:365-378 | the six sparse terms equal multiplication by a Qx X^4 + b Qy X^3 + c modulo X^6 - negalpha |
| Garner.Crt | arith/indexcalculus.c:35-67 | the result has every given residue and lies below the product of the pairwise coprime moduli |
| Garner.CrtUnique | arith/indexcalculus.c:35-67 | no other number below the product has those residues |
| Elimination.MergeAt | arith/indexcalculus.c:315-377 | cell for cell the sparse merge is the dense subtraction modulo the prime order |
| Elimination.MergeCanon | arith/indexcalculus.c:315-377 | the merged cells stay sorted, distinct and nonzero |
| Elimination.MergeCells | arith/indexcalculus.c:315-366 | the in-place loop with its shifts computes the merge without leaving the array |
| Relations.ReduceDense | arith/indexcalculus.c:540-619 | the dense elimination loop computes Reduce on rows and found counter |
| Relations.ReduceSparse | arith/indexcalculus.c:239-391 | the sparse loop leaves rows whose dense form is what the dense loop leaves, and the same found counter |
| Relations.MergeIsSubRow | arith/indexcalculus.c:313-387 | merging all but the pivots, with the constant aside, is subtracting the whole dense row |
| Relations.ReduceOk | arith/indexcalculus.c:540-619 | stored rows stay unit lower triangular with entries in range |
| Relations.ReduceSound | arith/indexcalculus.c:540-619 | one relation: logarithms that satisfy it and the rows satisfy every row afterwards |
| RelationRows.ReduceConverse | arith/indexcalculus.c:243-386 | logarithms that satisfy the rows after a reduction satisfy the relation exactly when they satisfy what is left of it, which is nothing or has its pivot below minfound |
| RelationRows.ReduceComplete | arith/indexcalculus.c:243-386 | a relation consistent with the rows is implied by the rows after it, dropped or stored |
| RelationRows.RunEquivalent | arith/indexcalculus.c:227-386 | all relations found and the rows they leave have the same solutions modulo each order |
| RelationRows.RunGrows | arith/indexcalculus.c:388-388 | further relations leave a complete system complete |
| BackSubstitution.BackSparse | arith/indexcalculus.c:394-409 | the constants become a vector of residues that satisfies every complete row; the other cells do not change |
| BackSubstitution.BackDense | arith/indexcalculus.c:639-647 | the dense loop solves the same system |
| BackSubstitution.SolutionUnique | arith/indexcalculus.c:394-409 | a complete system has at most one solution modulo the order |
| Generators.GeneratorTest | arith/indexcalculus.c:9-33 | a unit passes the test at every prime factor of q - 1 if and only if its powers reach every unit |
| Generators.IsGen | arith/indexcalculus.c:9-33 | is_gen is true exactly for generators, and for multiples of q |
| Generators.ZeroPasses | arith/indexcalculus.c:9-33 | 0 passes and is no generator |
| Generators.TestNeedsPrimes | arith/indexcalculus.c:9-33 | for coprime factors of q - 1 the test is right for every unit if and only if all of them are prime: with a composite a b the a-th power of a generator passes |
| Generators.LogUnique | arith/indexcalculus.c:9-33 | logarithms to a generator are determined modulo q - 1 |
| Factoring.TrialFactor | arith/poly.c:1615-1650 | the factors in increasing order with their multiplicities, prime but for a last one that may be composite with all its primes above the limit |
| Factoring.SquarefreeFactors | arith/indexcalculus.c:789-800 | without multiplicities and with a prime cofactor they are the distinct primes whose product is q - 1 |
| SmoothNumbers.SmoothTrial | arith/indexcalculus.c:172-212 | trial division ends at 1 exactly for products of primes of the factor base |
| SmoothNumbers.TrialProduct | arith/indexcalculus.c:747-756 | the exponents found and what is left multiply to the number |
| SmoothNumbers.FindRelation | arith/indexcalculus.c:145-214 | skipping bundles of 20 primes by one gcd, and stopping at 1, finds the same exponents as the plain loop, exactly for smooth numbers above 1 |
| SmoothNumbers.ReduceCells | arith/indexcalculus.c:231-241 | the relation modulo one order, without the coefficients that vanish |
| IndexCalculus.LogsOfRelation | arith/indexcalculus.c:160-214 | a relation g^k = product of primes says that the logarithms sum to k modulo q - 1 |
| IndexCalculus.RelationSatisfied | arith/indexcalculus.c:227-241 | the logarithms satisfy each relation modulo each prime factor of q - 1 |
| IndexCalculus.RunSound | arith/indexcalculus.c:227-386 | whatever relations are found, the logarithms satisfy every row stored from the empty matrix on |
| IndexCalculus.CompleteUnits | arith/indexcalculus.c:388-388 | complete rows leave out no prime of the base: each one has a logarithm |
| IndexCalculus.ConstantsAreLogs | arith/indexcalculus.c:390-405 | any solution of the complete rows, so what sparse and dense back-substitution leave, is the logarithms modulo the order |
| IndexCalculus.IndexCalculusCorrect | arith/indexcalculus.c:390-421 | solutions modulo every factor of q - 1, recombined, are the logarithms of the whole factor base |
| FoundRelations.ReadyExactly | arith/indexcalculus.c:130-388 | over distinct primes that include all below q, the relations of q - 1 powers determine every logarithm if and only if no prime of the base is q or more: one of those is in no relation |
| FoundRelations.SmoothShiftFound | arith/indexcalculus.c:741-757 | over such a base one of q - 1 shifts of any h factors |
| LogTable.AddRelation | arith/indexcalculus.c:227-386 | one relation goes through the matrix of every order, and the counter is the number of rows found |
| LogTable.SolveAll | arith/indexcalculus.c:390-405 | when the counter is full, back-substitution solves the system modulo every order |
| LogTable.Recombine | arith/indexcalculus.c:414-421 | CRT gives numbers below q - 1 with the residues of the solutions |
| LogTable.Step1 | arith/indexcalculus.c:74-451 | over the first powers of a generator: done exactly when the relations among all powers allowed are complete modulo every order, and then the result holds the logarithms of the factor base |
| DiscreteLog.Step2 | arith/indexcalculus.c:725-769 | the first product h g^s over the factor base gives the logarithm of h, and there is a result exactly when one of the products tried factors over the base |
| LogTable.QuotientLog | arith/indexcalculus.c:836-852 | the quotient of two logarithms is a logarithm of h to the base g if and only if h is a power of g |
| LogTable.ReachableByAll | arith/indexcalculus.c:812-835 | with a base of exactly the primes below q, q - 1 tries reach the logarithm of every h |
| LogTable.DlogByFactors | arith/indexcalculus.c:812-857 | on the prime factors of q - 1 there is a result exactly when the relation systems get complete and every number whose logarithm is read off has a smooth shift, for g a generator or not; it is a logarithm of h if and only if there is one |
| LogTable.Dlog | arith/indexcalculus.c:771-867 | with the factors that trial division to 2^6 finds: no result when one is multiple; when all are simple and the last one is prime, a result exactly when the search reaches one, always so for a base of all primes below q and q - 1 tries, and it is a logarithm of h if and only if there is one |
| DiscreteLog.LogOfProduct | arith/indexcalculus.c:757-764 | the logarithm of a product over the factor base is the sum of logarithms |
| Md32.HashCtx.Update | crypto/md32_common.h:282-338 | the message grows by the input; whole blocks leave in order, num stays below the block size, and Nh:Nl is 8 times the length modulo 2^64 |
| Md32.HashCtx.AddLength | crypto/md32_common.h:289-296 | the two counter words add 8 len modulo 2^64, with the overflow detected by comparison |
| Md32.HashCtx.Final | crypto/md32_common.h:347-383 | the blocks are then exactly message, 0x80, zeros and the 64-bit bit length in the chosen byte order |
| Md32.HashChunks | crypto/md32_common.h:282-383 | however the message is split, the blocks are those of the padded whole |
| Md32.PaddingInjective | crypto/md32_common.h:347-383 | messages below 2^61 bytes with the same padded form are the same |
| Md32.LengthByte | crypto/md32_common.h:363-371 | byte i of the length from its low end is the length divided by 256^i: first in the little-endian form, last in the big-endian one |
| MemCheckLocks.StepInv | crypto/mem_dbg.c:216-302 | every step of every thread keeps the ownership of both locks, num_disable and the mode consistent with the depth of each thread |
| MemCheckLocks.RunInv | crypto/mem_dbg.c:216-302 | so does every interleaving from the start |
| MemCheckLocks.CallsBalance | crypto/mem_dbg.c:236-277 | in every run a thread's depth is its calls of MemCheck_off less its calls of MemCheck_on, counted from the history of its program counter, but for a call that has not counted yet |
| MemCheckLocks.Disabler | crypto/mem_dbg.c:236-277 | with checking on, a thread outside of any call that called MemCheck_off more often than MemCheck_on is disabling_threadid, num_disable is the difference, checking is disabled and it holds MALLOC2 |
| MemCheckLocks.AllBalanced | crypto/mem_dbg.c:264-277 | when all threads are outside of any call and balanced, num_disable is 0, checking is enabled if it was on, and MALLOC, MALLOC2 and the readers are free |
| MemCheckLocks.EnableAlone | crypto/mem_dbg.c:264-277 | a MemCheck_on that finds MALLOC free gives back one disable without waiting, and the last one enables checking and frees MALLOC2 |
| MemCheckLocks.DisabledState | crypto/mem_dbg.c:194-202 | num_disable > 0 iff checking is on and not enabled, whenever no thread is between its writes; then disabling_threadid holds MALLOC2 and num_disable is its nesting depth |
| MemCheckLocks.NoWaitUnderMalloc | crypto/mem_dbg.c:239-257 | no thread waits for MALLOC2 while it holds MALLOC |
| MemCheckLocks.CheckAnswer | crypto/mem_dbg.c:286-302 | is_MemCheck_on is false exactly for the thread that disabled checking |
| MemCheckLocks.OneDisabler | crypto/mem_dbg.c:194-202 | at most one thread has checking disabled |
| MemCheckLocks.Progress | crypto/mem_dbg.c:239-257 | no deadlock: some thread can step, or the disabling thread is outside of any call, and EnableAlone says what its next calls do |
| AppInfo.MemDebug.AppInfoFree | crypto/mem_dbg.c:204-214 | drops one reference; every count stays the number of holders, nodes without any are freed down the stack, newer nodes are untouched |
| AppInfo.MemDebug.PopInfo | crypto/mem_dbg.c:359-395 | the stack loses its top; the popped node is freed exactly when nothing else held it |
| AppInfo.MemDebug.PushInfo | crypto/mem_dbg.c:397-446 | a new node on top takes over the hash table's reference to the old top |
| AppInfo.MemDebug.RemoveAllInfo | crypto/mem_dbg.c:463-477 | pops until the thread has no entry, and terminates |
| AppInfo.MemDebug.DbgMalloc | crypto/mem_dbg.c:511-559 | the record holds the thread's top node; a node is left allocated without holders if and only if a replaced record was its last holder |
| AppInfo.Stranded | crypto/mem_dbg.c:511-559 | recording a block, popping its node and recording the same address again leaves the node allocated and unheld |
| AppInfo.MemDebug.DbgFree | crypto/mem_dbg.c:583-594 | the record goes and its node with it when nothing else holds it |
| DynLocks.Table.GetNewDynlockId | crypto/cryptlib.c:236-295 | an empty slot, or a new one when there is none, never one that is owned or in use; the other slots keep their locks |
| DynLocks.Table.GetDynlockValue | crypto/cryptlib.c:340-358 | the lock of the slot with one more reference, or nothing for an empty or unknown slot |
| DynLocks.Table.Destroy | crypto/cryptlib.c:297-338 | one reference of the slot goes, and the lock with it when it was the last; empty and unknown slots are left alone; the counts stay right if and only if the slot is not one that was destroyed before and is still in use |
| DynLocks.DestroyedTwice | crypto/cryptlib.c:297-338 | a second destroy during CRYPTO_lock frees the lock the thread holds |
| DynLocks.Table.EndLock | crypto/cryptlib.c:588-601 | the end of CRYPTO_lock frees the lock iff it was destroyed meanwhile and this was the last use; every other call still finds its lock |
| DynLocks.ZeroAliasesFirst | crypto/cryptlib.c:297-301 | the failure value 0 decodes to the first slot, like -1 and nothing else |
| Calendar.DayRoundTrip | crypto/o_time.c:301-323 | julian_to_date gives a valid Gregorian date that date_to_julian takes back, for every day from 0 |
| Calendar.DateRoundTrip | crypto/o_time.c:301-323 | every valid date from day 0 on comes back from its day number |
| Calendar.NextDay | crypto/o_time.c:301-307 | the day number grows by one from each valid date to the next, over month ends, leap days and year ends |
| Calendar.EpochDay | crypto/o_time.c:301-307 | 1 January 1970 is day 2440588 |
| Calendar.JulianToDate | crypto/o_time.c:309-323 | the statements compute the date function the round trips are about |
| Calendar.Tm.GmtimeAdj | crypto/o_time.c:238-296 | success moves the time by exactly 86400 off_day + offset_sec with all fields in range; failure changes nothing and happens exactly when the new time leaves the years 1900 to 9999 |
| Calendar.EpochInjective | crypto/o_time.c:238-296 | a time with its fields in range is determined by its second |
| Calendar.AdjustTwice | crypto/o_time.c:238-296 | two adjustments that succeed leave the fields that one by the sum leaves, which succeeds too |

## Left out

- PellOrbits.OrbitsComplete: says nothing for N^2 above D, where solutions need not be multiples of convergents; for N = -8 PellSmall closes the gap.
- PellSmall.NoCurveMissed: for D3 = 17, which only a wrap of 3D gives, nothing is reported; whether one of its solutions gives a curve is open.
- PellOrbits.NoSolutionSkipped: `find_mnt6_curve` stops at the first successor past the bit limit, so solutions of later rounds are not tried.
- Md32.HashCtx.Update: the compression function is external; the model records the blocks it is given. HASH_LONG is 32 bits wide.
- MemCheckLocks.StepInv: CRYPTO_MEM_CHECK_ON and CRYPTO_MEM_CHECK_OFF are start and stop, which the source forbids while several threads run; the mode bit they set is constant in a run.
- DynLocks.Table.Destroy: out-of-memory paths and missing callbacks are not modelled.
- AppInfo.MemDebug.PushInfo: file, line and text of an entry, and out-of-memory paths, are not modelled; the locks around these operations are those of MemCheckLocks.
- PowWindow.PowBaseTable: an exponent with more digits than the rows built would read outside of the table in C, so the model requires it to fit.
- Pell.GeneralPell: the product f * f of the square-factor loop is an unbounded integer.
- Calendar.Tm.GmtimeAdj: `int` and `long` are unbounded.
- AMiller.PpInit: requires exp1 <= exp2, as in every generated parameter; the array has one cell per doubling and one more.
- MillerChains.ChainPlace: takes the multiples of P as given; that they exist is the associativity of the group law, which the code uses and does not state.
- Bilinearity and nondegeneracy of the pairings and elliptic nets: theory outside of the code.
- Types D, F and G beyond `lucas_even` and the sparse line: their preprocessed Miller runs repeat the structure proved for type A.
- `cc_miller_no_denom_proj` and `freeman_step2`: they do not compute what their place suggests.
- `arith/fasterfp.c`: its flag logic is that of `arith/montfp.c` without the Montgomery factor.
- Fields over polynomials over non-prime base fields, `polymod_sqrt`, `poly_is_irred`.
- LogTable.Step1: the search over powers of g, which need not end, has a bound on the powers tried.
- LogTable.Dlog: takes another generator for g that is none; the random search for one accepts 0, on which the search for relations does not end. With a composite cofactor the code inverts modulo it: the result is a parameter then. `mpz_divexact` by a number that does not divide is a quotient rounded down.
- `CRYPTO_dbg_realloc`, leak reports and the other parts of `crypto/`.
- Input and output, parameter files, random sources, memory clearing.
