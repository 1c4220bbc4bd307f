# Curve points, bucket MSM, sparse polynomials and evaluation vectors

A Dafny model of four sequential components of snarkVM, each with its
contracts proved:

- **Jacobian point arithmetic** (`Jacobian`, projective.dfy). This models
  `Projective` over short-Weierstrass curves. It covers:
  - the identity (0, 1, 0);
  - projective equality by cross-multiplication;
  - negation;
  - doubling, with its `COEFF_A == 0` branch;
  - general and mixed addition, each with its "equal points, so double" fallback;
  - MSB-first double-and-add scalar multiplication, which skips doubling
    until the first set bit;
  - conversion from affine;
  - in-place batch normalization by Montgomery's trick.

  A `Projective` is a `Copy` value, so it is a datatype. The
  `*_assign`/`*_in_place` operations are methods that rewrite the three
  coordinates in the source's statement order. Each is proved equal to a
  function that states the explicit formula from the Explicit-Formulas
  Database. `batch_normalization` works on an `array` in place.
- **Bucket multi-scalar multiplication** (`Msm`, msm.dfy). The algorithm
  only ever adds, doubles and starts from zero, so the group is
  instantiated as the integers under addition. This makes the end-to-end
  result provable: Σ scalarᵢ·baseᵢ over the pairs that `zip` forms.
  `msm_standard` is a method, not a function, because the `process_window`
  it calls fills an array of buckets in place.
- **Sparse polynomials** (`Sparse`, sparse.dfy). A `SparsePolynomial` is a
  class whose `coeffs` field is a sequence of (index, coefficient) pairs.
  - Trimming, degree, evaluation and the naive product work on that sequence.
  - `mul_assign` by a field element rewrites the field in place.
  - The product's `HashMap` is a Dafny `map`.
- **Evaluation vectors** (`Evals`, evaluations.dfy). An `Evaluations` is a
  class holding a vector and its domain.
  - The four `*_assign` operators zip the two vectors pointwise in place.
  - The by-reference operators clone the left operand and then apply the
    in-place operator to the copy.

All coordinates and coefficients live in `Field`, the integers modulo an
arbitrary prime `P` (field.dfy). The curve coefficient `COEFF_A` is left
open, so both doubling branches are modelled. BLS12-377 G1 is the instance
with `COEFF_A = 0`.

The comment at curves/src/templates/short_weierstrass_jacobian/projective.rs:355
names the `COEFF_A != 0` doubling branch "dbl-2009-l". The statements that
follow it are the general-A formula dbl-2007-bl, so the model names it
`Dbl2007Bl`. The `COEFF_A == 0` branch is the real dbl-2009-l (`Dbl2009L`).

## Model

| member | source | states |
|---|---|---|
| Jacobian.IsZero | curves/src/templates/short_weierstrass_jacobian/projective.rs:129-133 | `is_zero`: a point is zero iff Z = 0, whatever its X and Y. ZeroIsIdentity shows these are exactly the points equal to `zero()`. |
| Jacobian.Zero | curves/src/templates/short_weierstrass_jacobian/projective.rs:120-127 | `zero()` is a zero point (Z = 0) with a non-zero Y, the canonical (0, 1, 0). |
| Jacobian.IsNormalized | curves/src/templates/short_weierstrass_jacobian/projective.rs:146-148 | Zero points are normalized. A non-zero point is normalized iff it equals the `From<Affine>` image of its own (X, Y). |
| Jacobian.Eq | curves/src/templates/short_weierstrass_jacobian/projective.rs:60-77 | Equal points are both zero or both non-zero, and any two zero points are equal whatever their X and Y. |
| Jacobian.EqOfNormalized | curves/src/templates/short_weierstrass_jacobian/projective.rs:60-77 | Two normalized non-zero points are equal iff their X and Y coincide. |
| Jacobian.Neg | curves/src/templates/short_weierstrass_jacobian/projective.rs:391-398 | Negation keeps X, Z and zero-ness. For a non-zero point, the two Y values add up to zero. A zero point is returned as it is. |
| Jacobian.FromAffine | curves/src/templates/short_weierstrass_jacobian/projective.rs:530-537 | Infinity maps to a zero point, and only infinity does. A finite (x, y) maps to (x, y, 1). |
| Jacobian.ZeroIsIdentity | curves/src/templates/short_weierstrass_jacobian/projective.rs:120-133 | (0, 1, 0) is zero and normalized. It equals exactly the points with Z = 0. It is a left identity of addition, and a right identity for every non-zero left operand. A zero left operand takes the right operand's encoding instead, so a right identity only up to projective equality. Doubling and negation fix it. Mixed addition into it gives the lifted affine point, and adding affine infinity changes nothing. |
| Jacobian.EqIsEquivalence | curves/src/templates/short_weierstrass_jacobian/projective.rs:60-77 | Cross-multiplied projective equality is reflexive, symmetric and transitive. |
| Jacobian.SameIsEq | curves/src/templates/short_weierstrass_jacobian/projective.rs:429-450 | For non-zero points, the addition's coincidence test (U1 = U2 and S1 = S2) holds iff the points are projectively equal. |
| Jacobian.NegInvolutive | curves/src/templates/short_weierstrass_jacobian/projective.rs:391-398 | Negation is an involution, and a point is zero iff its negation is. |
| Jacobian.DoubleInPlace | curves/src/templates/short_weierstrass_jacobian/projective.rs:309-388 | A zero point is returned unchanged. Otherwise the result is EFD dbl-2009-l exactly when COEFF_A = 0, and dbl-2007-bl otherwise. `double` is the same on a copy. |
| Jacobian.AddAssignMixed | curves/src/templates/short_weierstrass_jacobian/projective.rs:217-287 | Affine infinity is a no-op. A zero accumulator becomes (x, y, 1). X1 = x2·Z1² with Y1 = y2·Z1³ doubles. Otherwise the result is EFD madd-2007-bl. |
| Jacobian.MixedSameIsEq | curves/src/templates/short_weierstrass_jacobian/projective.rs:232-241 | The mixed coincidence test holds iff the accumulator equals the lifted affine point. |
| Jacobian.MixedEqualPointsDoubles | curves/src/templates/short_weierstrass_jacobian/projective.rs:241-244 | Mixed addition of an equal point doubles; otherwise it takes madd-2007-bl. |
| Jacobian.MixedAgreesWithAdd | curves/src/templates/short_weierstrass_jacobian/projective.rs:217-287 | Mixed addition gives the same coordinates as lifting the affine point (`From<Affine>`, lines 532-537) and adding with add-2007-bl. The one exception is a zero accumulator plus infinity, which keeps its own encoding. |
| Jacobian.AddAssign | curves/src/templates/short_weierstrass_jacobian/projective.rs:402-478 | A zero self gives `other`. A zero `other` leaves self. U1 = U2 with S1 = S2 doubles self. Otherwise the result is EFD add-2007-bl. `add` is the same on a copy. |
| Jacobian.AddSelfIsDouble | curves/src/templates/short_weierstrass_jacobian/projective.rs:447-450 | Adding a point to itself doubles it. |
| Jacobian.AddEqualPointsDoubles | curves/src/templates/short_weierstrass_jacobian/projective.rs:447-452 | For non-zero points, addition doubles iff the points are projectively equal; otherwise it takes add-2007-bl. |
| Jacobian.AddNegIsZero | curves/src/templates/short_weierstrass_jacobian/projective.rs:451-453 | p + (-p) has Z = 0 for every p: either H = 0, or Y doubles to zero and so does the doubled Z. |
| Jacobian.SameAsNegation | curves/src/templates/short_weierstrass_jacobian/projective.rs:447-450 | A point that passes the coincidence test against its own negation has 2·Y = 0. |
| Jacobian.DoubleOfTwoTorsion | curves/src/templates/short_weierstrass_jacobian/projective.rs:316-388 | Doubling a point with 2·Y = 0 gives a zero point, in both branches. |
| Jacobian.SubAssign | curves/src/templates/short_weierstrass_jacobian/projective.rs:480-495 | `-=` is addition of the negation. Subtracting zero leaves a non-zero self unchanged. A zero self takes `other`'s zero encoding, so it is unchanged only up to projective equality. `sub` is the same on a copy. |
| Jacobian.NormalizeIsEq | curves/src/templates/short_weierstrass_jacobian/projective.rs:195-201 | (X/Z², Y/Z³, 1) is normalized and projectively equal to (X, Y, Z). |
| Jacobian.Normalized | curves/src/templates/short_weierstrass_jacobian/projective.rs:146-149 | A slot's final value is normalized and equal to the original, and it is the original itself when that was already normalized. |
| Jacobian.BatchNormalization | curves/src/templates/short_weierstrass_jacobian/projective.rs:152-201 | Every slot ends normalized and projectively equal to its original. Slots that were already normalized are unchanged. |
| Jacobian.PrefixProducts | curves/src/templates/short_weierstrass_jacobian/projective.rs:157-166 | First pass: prod[k] is the product of the first k+1 pending Z values, and tmp is the product of all of them. |
| Jacobian.PendingNonZero | curves/src/templates/short_weierstrass_jacobian/projective.rs:160-169 | Pending Z values are neither 0 nor 1, so their product can be inverted (`inverse().unwrap()` cannot fail). |
| Jacobian.ProductNonZero | curves/src/templates/short_weierstrass_jacobian/projective.rs:168-169 | A product of non-zero field elements is non-zero. |
| Jacobian.InvertPending | curves/src/templates/short_weierstrass_jacobian/projective.rs:171-190 | Second pass: every pending slot's Z becomes 1/Z, and no other slot changes. |
| Jacobian.InvertSlot | curves/src/templates/short_weierstrass_jacobian/projective.rs:185-189 | One backward step keeps the invariant that tmp is the inverse of the product of the pending Z values before the slot. |
| Jacobian.BackwardStep | curves/src/templates/short_weierstrass_jacobian/projective.rs:176-189 | tmp·s is the inverse of the slot's Z, where s is the previous prefix product or 1. |
| Jacobian.PendingPrefix | curves/src/templates/short_weierstrass_jacobian/projective.rs:160-163 | The pending list of a prefix is a prefix of the pending list. |
| Jacobian.Rescale | curves/src/templates/short_weierstrass_jacobian/projective.rs:191-201 | Third pass: each inverted slot becomes (X·Z⁻², Y·Z⁻³, 1), which is its normalized original. |
| Jacobian.ScalarMul | curves/src/templates/short_weierstrass_jacobian/projective.rs:497-522 | The result is MSB-first double-and-add over the bits. No doubling happens before the first set bit, and exactly one doubling happens per later bit. |
| Jacobian.MulAssign | curves/src/templates/short_weierstrass_jacobian/projective.rs:524-529 | `*=` replaces the point by its multiple, and an all-zero scalar gives `zero()`. |
| Jacobian.MulByZeroBits | curves/src/templates/short_weierstrass_jacobian/projective.rs:503-521 | The scalar 0 yields (0, 1, 0). |
| Jacobian.LeadingZerosIgnored | curves/src/templates/short_weierstrass_jacobian/projective.rs:508-518 | Leading zero bits do not change the multiple, so the fixed-width representation gives the same point as the shortest one. |
| Jacobian.MulSpecBasics | curves/src/templates/short_weierstrass_jacobian/projective.rs:503-521 | The scalar 1 gives the point itself, and every multiple of zero is zero. |
| Msm.UpdateBuckets | algorithms/src/msm/variable_base/standard.rs:24-44 | With v = (scalar >> w_start) mod 2^c: if v = 0, no bucket changes. Otherwise only buckets[v-1] changes, and it gains `base`. |
| Msm.WindowIsDigit | algorithms/src/msm/variable_base/standard.rs:34-36 | Reading the lowest 64-bit limb before reducing mod 2^c (c ≤ 64) gives the base-2^c digit, which is below 2^c, so v - 1 indexes the 2^c - 1 buckets. |
| Msm.ProcessWindow | algorithms/src/msm/variable_base/standard.rs:46-79 | The window's result is Σ window(scalarᵢ)·baseᵢ over the zipped pairs. |
| Msm.AddUnits | algorithms/src/msm/variable_base/standard.rs:53-60 | The sum of the bases whose scalar is one. |
| Msm.FillBuckets | algorithms/src/msm/variable_base/standard.rs:62-68 | After the loop, bucket k holds the sum of the bases whose scalar is greater than one and whose window is k+1 (`update_buckets`, lines 24-44). Σₖ (k+1)·buckets[k] is therefore the window sum over the scalars greater than one. |
| Msm.FillStep | algorithms/src/msm/variable_base/standard.rs:24-44 | One `update_buckets` call on a scalar greater than one extends the per-bucket contents and the weighted total from the first i pairs to the first i+1. |
| Msm.ScanBuckets | algorithms/src/msm/variable_base/standard.rs:71-76 | The reverse running-sum scan adds Σₖ (k+1)·buckets[k]. |
| Msm.WindowParts | algorithms/src/msm/variable_base/standard.rs:53-68 | Unit scalars (first window only) plus bucketed scalars give the whole window. Zero and one contribute nothing to any other window. |
| Msm.SmallScalarWindows | algorithms/src/msm/variable_base/standard.rs:53-68 | Scalars 0 and 1 have a zero window above bit 0. In the lowest window, 1 is the digit 1. |
| Msm.RunningSumsAreIndexWeighted | algorithms/src/msm/variable_base/standard.rs:71-76 | The running sums taken from the top bucket down add up to each bucket weighted by its value. |
| Msm.IndexWeightedUpdate | algorithms/src/msm/variable_base/standard.rs:41-42 | Adding x to bucket j adds (j+1)·x to the weighted total. |
| Msm.FoldWindows | algorithms/src/msm/variable_base/standard.rs:102-112 | Splitting off the lowest sum, folding the rest from high to low (add, then double c times) and adding the lowest gives Σⱼ 2^{j·c}·Wⱼ. |
| Msm.DoubleTimes | algorithms/src/msm/variable_base/standard.rs:108-110 | c doublings multiply by 2^c. |
| Msm.RadixOfWindows | algorithms/src/msm/variable_base/standard.rs:97-112 | Window sums read as base-2^c digits are the sums of the (k·c)-bit fields of the scalars. |
| Msm.DotBitsSplit | algorithms/src/msm/variable_base/standard.rs:93-99 | A c-bit window plus 2^c times the following m bits is the (c+m)-bit field. |
| Msm.WindowSize | algorithms/src/msm/variable_base/standard.rs:85-89 | c is 3 below 32 scalars and the floating-point value otherwise (the parameter `cLarge`). It lies in [1, 64) whenever `cLarge` does, as the shift `1 << c` needs. |
| Msm.MsmStandard | algorithms/src/msm/variable_base/standard.rs:81-113 | For any window size, the result is Σ scalarᵢ·baseᵢ over the first min(\|bases\|, \|scalars\|) pairs. |
| Msm.MsmOfNothing | algorithms/src/msm/variable_base/standard.rs:81-113 | Empty input or all-zero scalars yield the identity. |
| Sparse.Trim | algorithms/src/fft/polynomial/sparse.rs:64-74 | The result is a prefix of the input. It is empty or ends in a non-zero coefficient, and only zero coefficients were dropped. |
| Sparse.PopTrailingZeros | algorithms/src/fft/polynomial/sparse.rs:66-71 | The popping loop computes the trimmed list. |
| Sparse.SparsePolynomial.FromCoefficientsVec | algorithms/src/fft/polynomial/sparse.rs:64-74 | The stored list is the trimmed input. |
| Sparse.FromCoefficientsSlice | algorithms/src/fft/polynomial/sparse.rs:59-62 | It gives a fresh polynomial holding the trimmed slice. |
| Sparse.SparsePolynomial.Zero | algorithms/src/fft/polynomial/sparse.rs:49-52 | The zero polynomial has no entries. |
| Sparse.SparsePolynomial.IsZero | algorithms/src/fft/polynomial/sparse.rs:54-57 | `is_zero` holds iff trimming removes every entry, that is iff every stored coefficient is zero. |
| Sparse.SparsePolynomial.Degree | algorithms/src/fft/polynomial/sparse.rs:76-84 | `degree` fails (`None`) exactly when the polynomial is non-zero and its last coefficient is zero. It is 0 for the zero polynomial. On a sorted list it is at least every stored index. |
| Sparse.SparsePolynomial.Clone | algorithms/src/fft/polynomial/sparse.rs:25-30 | The derived `clone` holds the same entries. |
| Sparse.TrimIdempotent | algorithms/src/fft/polynomial/sparse.rs:54-57 | Trimming is idempotent, and a list is zero (`is_zero`) iff trimming empties it. |
| Sparse.TrimPreservesEval | algorithms/src/fft/polynomial/sparse.rs:64-74 | Trimming does not change the value at any point. |
| Sparse.SparsePolynomial.DegreeOfTrimmed | algorithms/src/fft/polynomial/sparse.rs:76-84 | On a trimmed list, `degree` never fails. It is 0 for zero, and for a sorted non-zero list it is the largest index, which holds a non-zero coefficient. |
| Sparse.SparsePolynomial.Evaluate | algorithms/src/fft/polynomial/sparse.rs:86-96 | The loop computes Σ c·point^i over the stored entries. |
| Sparse.EvalOfZeroTerms | algorithms/src/fft/polynomial/sparse.rs:88-90 | The early return of zero agrees with the sum. |
| Sparse.ProductMap | algorithms/src/fft/polynomial/sparse.rs:103-109 | The nested loops leave a key k in the map iff some pair has i + j = k, and its value is Σ_{i+j=k} aᵢ·bⱼ. |
| Sparse.CollectEntries | algorithms/src/fft/polynomial/sparse.rs:103-111 | Collecting the map in increasing index order gives the hit indices, each with its coefficient. |
| Sparse.MulTerms | algorithms/src/fft/polynomial/sparse.rs:98-114 | `mul` computes `Product`. |
| Sparse.Product | algorithms/src/fft/polynomial/sparse.rs:98-114 | The product is zero when either factor is zero. Its indices strictly increase, and its last coefficient is non-zero. |
| Sparse.ProductSound | algorithms/src/fft/polynomial/sparse.rs:103-112 | Every entry of the product is a hit index k holding Σ_{i+j=k} aᵢ·bⱼ. |
| Sparse.ProductComplete | algorithms/src/fft/polynomial/sparse.rs:103-112 | Every hit index up to the last entry has an entry. A hit index beyond it (one that was trimmed) has coefficient zero. |
| Sparse.SparsePolynomial.Mul | algorithms/src/fft/polynomial/sparse.rs:98-114 | It gives a fresh polynomial holding the product. |
| Sparse.SparsePolynomial.MulAssign | algorithms/src/fft/polynomial/sparse.rs:132-138 | Every coefficient is multiplied by `other`. |
| Sparse.Scale | algorithms/src/fft/polynomial/sparse.rs:133-137 | Scaling keeps the length. |
| Sparse.ScaleKeepsIndices | algorithms/src/fft/polynomial/sparse.rs:133-137 | Scaling keeps every index, and so keeps a sorted list sorted. |
| Sparse.ScaleEval | algorithms/src/fft/polynomial/sparse.rs:132-138 | Scaling by f multiplies the value at every point by f. |
| Sparse.SparsePolynomial.MulByRef | algorithms/src/fft/polynomial/sparse.rs:140-148 | `&p * f` is a fresh scaled copy. |
| Evals.Evaluations.FromVecAndDomain | algorithms/src/fft/evaluations.rs:35-38 | It stores the given vector and domain unchanged. |
| Evals.Evaluations.Clone | algorithms/src/fft/evaluations.rs:25-32 | The derived `clone` holds the same vector and the same domain. |
| Evals.Evaluations.Index | algorithms/src/fft/evaluations.rs:53-59 | It returns evaluations[index]. |
| Evals.Evaluations.ZipAssign | algorithms/src/fft/evaluations.rs:72-78 | If the domains differ, it reports the failure and changes nothing. Otherwise evaluations[i] becomes a op b for i < min of the two lengths, and later entries, the length and the domain are unchanged. |
| Evals.Evaluations.MulAssign | algorithms/src/fft/evaluations.rs:72-78 | `*=` is the pointwise product, guarded by the domain check. |
| Evals.Evaluations.AddAssign | algorithms/src/fft/evaluations.rs:91-97 | `+=` is the pointwise sum, guarded by the domain check. |
| Evals.Evaluations.SubAssign | algorithms/src/fft/evaluations.rs:110-116 | `-=` is the pointwise difference, guarded by the domain check. |
| Evals.Evaluations.DivAssign | algorithms/src/fft/evaluations.rs:129-135 | `/=` is the pointwise quotient, guarded by the domain check. |
| Evals.Evaluations.ZipByRef | algorithms/src/fft/evaluations.rs:61-70 | A fresh clone with the in-place operator applied. Neither operand changes. |
| Evals.Evaluations.Mul | algorithms/src/fft/evaluations.rs:61-70 | `&a * &b` is a fresh pointwise product, or the failure on a domain mismatch. |
| Evals.Evaluations.Add | algorithms/src/fft/evaluations.rs:80-89 | `&a + &b` is a fresh pointwise sum, or the failure on a domain mismatch. |
| Evals.Evaluations.Sub | algorithms/src/fft/evaluations.rs:99-108 | `&a - &b` is a fresh pointwise difference, or the failure on a domain mismatch. |
| Evals.Evaluations.Div | algorithms/src/fft/evaluations.rs:118-127 | `&a / &b` is a fresh pointwise quotient, or the failure on a domain mismatch. |
| Evals.MinusUndoesPlus | algorithms/src/fft/evaluations.rs:91-116 | `-=` undoes `+=`, and `+=` undoes `-=`. |
| Evals.OverUndoesTimes | algorithms/src/fft/evaluations.rs:72-78 | With non-zero divisors, `/=` undoes `*=`, and `*=` undoes `/=`. |
| Evals.PlusTimesCommute | algorithms/src/fft/evaluations.rs:61-97 | On vectors of equal length, `+` and `*` do not depend on the order of the operands. |
| Evals.ZipShape | algorithms/src/fft/evaluations.rs:76 | The zip keeps the left length and the tail past the right length. It reads the right operand only up to the left length. |

## Left out

- The curve-law proofs. The model does not prove that the EFD formulas realise the elliptic-curve group law; that is nonlinear field algebra. The properties proved are about the branches, the identity, negation, equality and normalization.
- Field internals: Montgomery form, `square_in_place` and `double_in_place` on field elements, and `pow`. Each is the corresponding operation on residues mod `P`. `P` and `COEFF_A` are constants whose values are left open.
- Jacobian.ScalarMul and Jacobian.MulAssign: the scalar arrives as its big-endian bits, the output of `BitIteratorBE` over `to_repr()`. The conversion itself is not modelled.
- `Display`, `ToBytes`/`FromBytes`, random `sample`, `prime_subgroup_generator`, `into_affine` and the `recommended_wnaf_*` delegations of projective.rs. They are I/O or calls into code that is not part of this model.
- The `parallel` (rayon) paths of `batch_normalization` and `msm_standard`. Only the sequential path is modelled.
- Jacobian.BatchNormalization: the source's three passes are three methods (PrefixProducts, InvertPending, Rescale), and the backward loop's body is InvertSlot. The iterator adaptors (`filter`, `rev`, `zip`, `skip`, `chain`) are written as index loops over the same slots in the same order.
- Msm.MsmStandard: the floating-point window size for 32 or more scalars, ceil(2/3·log2 n + 2). It is the parameter `cLarge`, with 1 <= cLarge < 64; the bound avoids the shift overflow of `1 << c`. The number of bits `MODULUS_BITS` is the parameter `numBits` (at least 1), and every scalar is below 2^numBits.
- Msm: points are integers under addition, so the model does not capture anything the curve's group law adds. `add_assign_mixed`, `+=` and `double_in_place` are all `+`, and `zero()` is 0. The 64-bit limb is the explicit `% 2^64` in `Window`; `usize` widths are unbounded.
- Sparse.CollectEntries: `collect` followed by `sort_by` on the index is modelled as an upward scan of the indices up to the largest possible one. The resulting list is the same, because `HashMap` keys are distinct.
- Sparse: indices are `nat`, so `usize` overflow of i + j is not modelled.
- Sparse.SparsePolynomial.Degree: the assertion failure on a list whose last coefficient is zero is the result `None`.
- `evaluate_over_domain`, `evaluate_over_domain_by_ref` (sparse.rs) and `interpolate`, `interpolate_by_ref` (evaluations.rs). They call the FFT, which is not part of this model.
- Evals.Evaluations.ZipAssign and the operators built on it: the domain is a type parameter compared with `==`. The `assert_eq!` panic on unequal domains is modelled as the result `false` (or `None`), with the values left untouched.
- Evals.Evaluations.DivAssign and Evals.Evaluations.Div: division by a zero value is left to the field in the source. Here every divisor that the zip reaches must be non-zero.
- Evals.Evaluations.Index: an out-of-range index panics in the source. Here it is a precondition.
