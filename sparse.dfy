/** Sparse polynomials in coefficient form
    (algorithms/src/fft/polynomial/sparse.rs).

    A polynomial is a list of entries (i, a_i) standing for a_i * x^i; the
    source documents the entries as sorted by increasing i, and only trims
    trailing zero coefficients. `SparsePolynomial` owns its list and
    `mul_assign` rewrites it in place, so it is a class with a `seq` field;
    the list algorithms themselves are functions and methods on `seq`s. */
module Sparse {
  import F = Field
  import opened Wrappers

  type Fe = F.Fe

  /** (i, a_i): the coefficient a_i of x^i. */
  type Term = (nat, Fe)

  // ---- Specification functions on entry lists ----

  /** Every stored coefficient is zero (vacuously so for no entries). */
  predicate IsZeroTerms(cs: seq<Term>) {
    forall t :: 0 <= t < |cs| ==> cs[t].1 == F.Zero
  }

  /** Indices strictly increase along the list. */
  predicate Sorted(cs: seq<Term>) {
    forall s, t :: 0 <= s < t < |cs| ==> cs[s].0 < cs[t].0
  }

  /** The list with its trailing zero-coefficient entries removed: the
      longest prefix that is empty or ends in a non-zero coefficient. */
  function Trim(cs: seq<Term>): (r: seq<Term>)
    ensures |r| <= |cs| && r == cs[..|r|]
    ensures r == [] || r[|r| - 1].1 != F.Zero
    ensures forall k :: |r| <= k < |cs| ==> cs[k].1 == F.Zero
  {
    if cs != [] && cs[|cs| - 1].1 == F.Zero then Trim(cs[..|cs| - 1]) else cs
  }

  /** The sum of a_i * x^i over the entries, accumulated left to right. */
  function Eval(cs: seq<Term>, x: Fe): Fe {
    if cs == [] then F.Zero
    else F.Add(Eval(cs[..|cs| - 1], x), F.Mul(cs[|cs| - 1].1, F.Pow(x, cs[|cs| - 1].0)))
  }

  /** Every coefficient multiplied by f; indices and length unchanged. */
  function Scale(cs: seq<Term>, f: Fe): (r: seq<Term>)
    ensures |r| == |cs|
  {
    seq(|cs|, t requires 0 <= t < |cs| => (cs[t].0, F.Mul(cs[t].1, f)))
  }

  // ---- The coefficients of a product ----

  /** Some pair (a-entry, b-entry) among the first q entries of b, with the
      a-entry e, has index sum k. */
  predicate HitRow(e: Term, b: seq<Term>, q: nat, k: nat)
    requires q <= |b|
  {
    q > 0 && (HitRow(e, b, q - 1, k) || e.0 + b[q - 1].0 == k)
  }

  /** Some pair among the first p entries of a and all of b has index sum k. */
  predicate HitRows(a: seq<Term>, b: seq<Term>, p: nat, k: nat)
    requires p <= |a|
  {
    p > 0 && (HitRows(a, b, p - 1, k) || HitRow(a[p - 1], b, |b|, k))
  }

  /** Sum of e.coeff * b_j over the first q entries j of b with e.index + j = k. */
  function Row(e: Term, b: seq<Term>, q: nat, k: nat): Fe
    requires q <= |b|
  {
    if q == 0 then F.Zero
    else F.Add(Row(e, b, q - 1, k), if e.0 + b[q - 1].0 == k then F.Mul(e.1, b[q - 1].1) else F.Zero)
  }

  /** Sum of a_i * b_j over the pairs with i + j = k, the first p entries of a. */
  function Rows(a: seq<Term>, b: seq<Term>, p: nat, k: nat): Fe
    requires p <= |a|
  {
    if p == 0 then F.Zero else F.Add(Rows(a, b, p - 1, k), Row(a[p - 1], b, |b|, k))
  }

  /** The coefficient of x^k in the product: the sum of a_i * b_j with i + j = k. */
  function Conv(a: seq<Term>, b: seq<Term>, k: nat): Fe {
    Rows(a, b, |a|, k)
  }

  /** Index k is the sum of the indices of some pair of entries. */
  predicate Hit(a: seq<Term>, b: seq<Term>, k: nat) {
    HitRows(a, b, |a|, k)
  }

  function MaxIndex(cs: seq<Term>): (m: nat)
    ensures forall t :: 0 <= t < |cs| ==> cs[t].0 <= m
  {
    if cs == [] then 0
    else
      var m := MaxIndex(cs[..|cs| - 1]);
      if cs[|cs| - 1].0 > m then cs[|cs| - 1].0 else m
  }

  /** In a sorted list, index order and position order agree. */
  lemma SortedIndex(cs: seq<Term>, i: nat, j: nat)
    requires Sorted(cs) && i < |cs| && j < |cs|
    ensures cs[i].0 <= cs[j].0 <==> i <= j
  {
  }

  /** The entries (k, Conv(a, b, k)) for the indices k < hi that some pair
      hits, in increasing order of k. */
  function ProductEntries(a: seq<Term>, b: seq<Term>, hi: nat): (r: seq<Term>)
    ensures forall t :: 0 <= t < |r| ==> r[t].0 < hi
    ensures Sorted(r)
  {
    if hi == 0 then []
    else
      ProductEntries(a, b, hi - 1) + (if Hit(a, b, hi - 1) then [(hi - 1, Conv(a, b, hi - 1))] else [])
  }

  /** Every entry is a hit index holding its convolution coefficient. */
  lemma {:induction false} ProductEntriesSound(a: seq<Term>, b: seq<Term>, hi: nat)
    ensures forall t :: 0 <= t < |ProductEntries(a, b, hi)| ==>
      Hit(a, b, ProductEntries(a, b, hi)[t].0) && ProductEntries(a, b, hi)[t].1 == Conv(a, b, ProductEntries(a, b, hi)[t].0)
  {
    if hi > 0 {
      var prev := ProductEntries(a, b, hi - 1);
      var r := ProductEntries(a, b, hi);
      ProductEntriesSound(a, b, hi - 1);
      forall t | 0 <= t < |r|
        ensures Hit(a, b, r[t].0) && r[t].1 == Conv(a, b, r[t].0)
      {
        if t < |prev| {
          assert r[t] == prev[t];
        } else {
          assert Hit(a, b, hi - 1) && r[t] == (hi - 1, Conv(a, b, hi - 1));
        }
      }
    }
  }

  /** Every hit index below hi has its entry, at position t. */
  lemma {:induction false} ProductEntriesComplete(a: seq<Term>, b: seq<Term>, hi: nat, k: nat) returns (t: nat)
    requires k < hi && Hit(a, b, k)
    ensures t < |ProductEntries(a, b, hi)| && ProductEntries(a, b, hi)[t] == (k, Conv(a, b, k))
  {
    var prev := ProductEntries(a, b, hi - 1);
    if k < hi - 1 {
      t := ProductEntriesComplete(a, b, hi - 1, k);
      assert ProductEntries(a, b, hi)[t] == prev[t];
    } else {
      t := |prev|;
    }
  }

  /** Every hit index is at most MaxIndex(a) + MaxIndex(b). */
  lemma {:induction false} HitBound(a: seq<Term>, b: seq<Term>, p: nat, k: nat)
    requires p <= |a| && HitRows(a, b, p, k)
    ensures k <= MaxIndex(a) + MaxIndex(b)
  {
    if HitRows(a, b, p - 1, k) {
      HitBound(a, b, p - 1, k);
    } else {
      HitRowBound(a[p - 1], b, |b|, k);
    }
  }

  lemma {:induction false} HitRowBound(e: Term, b: seq<Term>, q: nat, k: nat)
    requires q <= |b| && HitRow(e, b, q, k)
    ensures k <= e.0 + MaxIndex(b)
  {
    if HitRow(e, b, q - 1, k) {
      HitRowBound(e, b, q - 1, k);
    }
  }

  /** What `mul` returns: the zero polynomial if either factor is zero,
      otherwise one entry per index that a pair of entries hits, holding the
      sum of a_i * b_j over the pairs with i + j = k, sorted by index, with
      trailing zero coefficients trimmed. */
  function Product(a: seq<Term>, b: seq<Term>): (r: seq<Term>)
    ensures IsZeroTerms(a) || IsZeroTerms(b) ==> r == []
    ensures Sorted(r)
    ensures r == [] || r[|r| - 1].1 != F.Zero
  {
    if IsZeroTerms(a) || IsZeroTerms(b) then []
    else Trim(ProductEntries(a, b, MaxIndex(a) + MaxIndex(b) + 1))
  }

  /** Every entry of the product is a hit index holding the sum of a_i * b_j
      over the pairs with i + j equal to it. */
  lemma ProductSound(a: seq<Term>, b: seq<Term>)
    ensures forall t :: 0 <= t < |Product(a, b)| ==>
      Hit(a, b, Product(a, b)[t].0) && Product(a, b)[t].1 == Conv(a, b, Product(a, b)[t].0)
  {
    if !IsZeroTerms(a) && !IsZeroTerms(b) {
      var all := ProductEntries(a, b, MaxIndex(a) + MaxIndex(b) + 1);
      var r := Product(a, b);
      ProductEntriesSound(a, b, MaxIndex(a) + MaxIndex(b) + 1);
      ProductIsTrimmed(a, b);
      forall t | 0 <= t < |r|
        ensures Hit(a, b, r[t].0) && r[t].1 == Conv(a, b, r[t].0)
      {
        assert r[t] == all[t];
      }
    }
  }

  /** The product has an entry for every hit index up to its last one, and
      the hit indices above it (the trimmed ones) have zero coefficient. */
  lemma ProductComplete(a: seq<Term>, b: seq<Term>, k: nat)
    requires !IsZeroTerms(a) && !IsZeroTerms(b) && Hit(a, b, k)
    ensures Product(a, b) != [] && k <= Product(a, b)[|Product(a, b)| - 1].0 ==>
      exists t :: 0 <= t < |Product(a, b)| && Product(a, b)[t].0 == k
    ensures Product(a, b) == [] || Product(a, b)[|Product(a, b)| - 1].0 < k ==> Conv(a, b, k) == F.Zero
  {
    var hi := MaxIndex(a) + MaxIndex(b) + 1;
    HitBound(a, b, |a|, k);
    var t := ProductEntriesComplete(a, b, hi, k);
    ProductIsTrimmed(a, b);
    TrimFind(Product(a, b), ProductEntries(a, b, hi), t, k, Conv(a, b, k));
  }

  /** An entry (k, c) of a sorted list survives trimming unless k lies past
      the last surviving entry, and then c is zero. */
  lemma TrimFind(r: seq<Term>, all: seq<Term>, t: nat, k: nat, c: Fe)
    requires Sorted(all) && r == Trim(all) && t < |all| && all[t] == (k, c)
    ensures if r != [] && k <= r[|r| - 1].0 then exists u :: 0 <= u < |r| && r[u].0 == k
      else c == F.Zero
  {
    if r != [] {
      SortedIndex(all, t, |r| - 1);
      if k <= r[|r| - 1].0 {
        assert r[t].0 == k;
      }
    }
  }

  /** For non-zero factors the product is the trimmed list of hit entries. */
  lemma ProductIsTrimmed(a: seq<Term>, b: seq<Term>)
    requires !IsZeroTerms(a) && !IsZeroTerms(b)
    ensures Product(a, b) == Trim(ProductEntries(a, b, MaxIndex(a) + MaxIndex(b) + 1))
  {
  }

  // ---- Loops of the source on entry lists ----

  /** The `while` loop of `from_coefficients_vec`: pop while the last
      coefficient is zero. */
  method PopTrailingZeros(cs: seq<Term>) returns (r: seq<Term>)
    ensures r == Trim(cs)
  {
    r := cs;
    while r != [] && r[|r| - 1].1 == F.Zero
      invariant |r| <= |cs| && r == cs[..|r|]
      invariant Trim(r) == Trim(cs)
      decreases |r|
    {
      assert r[..|r| - 1] == cs[..|r| - 1];
      r := r[..|r| - 1];
    }
  }

  /** The body of `mul`: the zero polynomial when either factor is zero,
      otherwise the collected entries trimmed as by `from_coefficients_vec`. */
  method MulTerms(a: seq<Term>, b: seq<Term>) returns (r: seq<Term>)
    ensures r == Product(a, b)
  {
    if IsZeroTerms(a) || IsZeroTerms(b) {
      return [];
    }
    var entries := CollectEntries(a, b);
    r := PopTrailingZeros(entries);
    ProductIsTrimmed(a, b);
  }

  /** The `HashMap` filled by the nested loops, then its entries in
      increasing order of index: the source collects and sorts them, here the
      indices up to the largest possible one are scanned upwards. */
  method CollectEntries(a: seq<Term>, b: seq<Term>) returns (entries: seq<Term>)
    ensures entries == ProductEntries(a, b, MaxIndex(a) + MaxIndex(b) + 1)
  {
    var m := ProductMap(a, b);
    var bound := MaxIndex(a) + MaxIndex(b) + 1;
    entries := [];
    var k := 0;
    while k < bound
      invariant 0 <= k <= bound
      invariant entries == ProductEntries(a, b, k)
    {
      if k in m {
        entries := entries + [(k, m[k])];
      }
      k := k + 1;
    }
  }

  /** The value stored for k, or zero when there is none (`or_insert_with(F::zero)`). */
  function Get(m: map<nat, Fe>, k: nat): Fe {
    if k in m then m[k] else F.Zero
  }

  /** The map holds exactly the hit indices, each with its convolution coefficient. */
  ghost predicate Tabulates(m: map<nat, Fe>, a: seq<Term>, b: seq<Term>) {
    (forall k: nat :: k in m <==> Hit(a, b, k)) &&
    (forall k: nat :: k in m ==> m[k] == Conv(a, b, k))
  }

  /** The nested loops of `mul`: result[i + j] += a_i * b_j for every pair. */
  method ProductMap(a: seq<Term>, b: seq<Term>) returns (m: map<nat, Fe>)
    ensures Tabulates(m, a, b)
  {
    m := map[];
    var p := 0;
    while p < |a|
      invariant 0 <= p <= |a|
      invariant forall k: nat :: k in m <==> HitRows(a, b, p, k)
      invariant forall k: nat :: Get(m, k) == Rows(a, b, p, k)
    {
      var q := 0;
      forall k: nat
        ensures Get(m, k) == F.Add(Rows(a, b, p, k), Row(a[p], b, 0, k))
      {
        F.AddZero(Rows(a, b, p, k));
      }
      while q < |b|
        invariant 0 <= q <= |b|
        invariant forall k: nat :: k in m <==> HitRows(a, b, p, k) || HitRow(a[p], b, q, k)
        invariant forall k: nat :: Get(m, k) == F.Add(Rows(a, b, p, k), Row(a[p], b, q, k))
      {
        var (i, ai) := a[p];
        var (j, bj) := b[q];
        var cur := Get(m, i + j);
        m := m[i + j := F.Add(cur, F.Mul(ai, bj))];
        forall k: nat
          ensures Get(m, k) == F.Add(Rows(a, b, p, k), Row(a[p], b, q + 1, k))
        {
          F.AddZero(Row(a[p], b, q, k));
          if k == i + j {
            F.AddAssoc(Rows(a, b, p, k), Row(a[p], b, q, k), F.Mul(ai, bj));
          }
        }
        q := q + 1;
      }
      forall k: nat
        ensures Get(m, k) == Rows(a, b, p + 1, k)
      {
        F.AddZero(Rows(a, b, p + 1, k));
      }
      p := p + 1;
    }
    forall k: nat
      ensures Get(m, k) == Conv(a, b, k)
    {
    }
  }

  // ---- Properties ----

  /** Dropping zero terms does not change the value at any point. */
  lemma {:induction false} TrimPreservesEval(cs: seq<Term>, x: Fe)
    ensures Eval(Trim(cs), x) == Eval(cs, x)
    decreases |cs|
  {
    if cs != [] && cs[|cs| - 1].1 == F.Zero {
      TrimPreservesEval(cs[..|cs| - 1], x);
      F.MulZero(F.Pow(x, cs[|cs| - 1].0));
      F.AddZero(Eval(cs[..|cs| - 1], x));
    }
  }

  /** Trimming is idempotent and keeps a zero list zero. */
  lemma TrimIdempotent(cs: seq<Term>)
    ensures Trim(Trim(cs)) == Trim(cs)
    ensures IsZeroTerms(cs) <==> Trim(cs) == []
  {
    var r := Trim(cs);
    if r == [] {
      assert forall k :: 0 <= k < |cs| ==> cs[k].1 == F.Zero;
    } else {
      assert cs[|r| - 1] == r[|r| - 1];
    }
  }

  /** A list whose coefficients are all zero evaluates to zero. */
  lemma {:induction false} EvalOfZeroTerms(cs: seq<Term>, x: Fe)
    requires IsZeroTerms(cs)
    ensures Eval(cs, x) == F.Zero
    decreases |cs|
  {
    if cs != [] {
      EvalOfZeroTerms(cs[..|cs| - 1], x);
      F.MulZero(F.Pow(x, cs[|cs| - 1].0));
    }
  }

  /** Scaling every coefficient by f scales the value by f. */
  lemma {:induction false} ScaleEval(cs: seq<Term>, f: Fe, x: Fe)
    ensures Eval(Scale(cs, f), x) == F.Mul(Eval(cs, x), f)
    decreases |cs|
  {
    if cs != [] {
      var init, last := cs[..|cs| - 1], cs[|cs| - 1];
      assert Scale(cs, f)[..|cs| - 1] == Scale(init, f);
      ScaleEval(init, f, x);
      var pw := F.Pow(x, last.0);
      F.MulSwap(last.1, f, pw);
      F.DistribRight(Eval(init, x), F.Mul(last.1, pw), f);
    }
  }

  /** Scaling keeps the indices, so it keeps a sorted list sorted. */
  lemma ScaleKeepsIndices(cs: seq<Term>, f: Fe)
    ensures forall t :: 0 <= t < |cs| ==> Scale(cs, f)[t].0 == cs[t].0
    ensures Sorted(cs) ==> Sorted(Scale(cs, f))
  {
  }

  // ---- The polynomial object ----

  class SparsePolynomial {
    var coeffs: seq<Term>

    /** `zero()`: no entries. */
    constructor Zero()
      ensures coeffs == []
    {
      coeffs := [];
    }

    /** `from_coefficients_vec`: trailing zero coefficients popped. */
    constructor FromCoefficientsVec(cs: seq<Term>)
      ensures coeffs == Trim(cs)
    {
      var r := PopTrailingZeros(cs);
      coeffs := r;
    }

    /** `clone()`. */
    constructor Clone(other: SparsePolynomial)
      ensures coeffs == other.coeffs
    {
      coeffs := other.coeffs;
    }

    /** `is_zero`: no entries, or only zero coefficients. */
    predicate IsZero(): (b: bool)
      reads this
      ensures b <==> Trim(coeffs) == []
    {
      IsZeroTerms(coeffs)
    }

    /** `degree`: 0 for the zero polynomial, otherwise the index of the last
        entry; `None` stands for the assertion failure on a list whose last
        coefficient is zero, which no polynomial built by trimming has. */
    function Degree(): (d: Option<nat>)
      reads this
      ensures d.None? <==> !IsZero() && coeffs[|coeffs| - 1].1 == F.Zero
      ensures IsZero() ==> d == Some(0)
      ensures d.Some? && !IsZero() && Sorted(coeffs) ==>
        forall t :: 0 <= t < |coeffs| ==> coeffs[t].0 <= d.value
    {
      if IsZero() then Some(0)
      else if coeffs[|coeffs| - 1].1 == F.Zero then None
      else Some(coeffs[|coeffs| - 1].0)
    }

    /** The degree is defined on trimmed lists, and on a sorted non-zero one it
        is the largest index present. */
    lemma DegreeOfTrimmed()
      requires coeffs == [] || coeffs[|coeffs| - 1].1 != F.Zero
      ensures Degree().Some?
      ensures IsZero() ==> Degree() == Some(0)
      ensures !IsZero() && Sorted(coeffs) ==>
        (forall t :: 0 <= t < |coeffs| ==> coeffs[t].0 <= Degree().value) &&
        exists t :: 0 <= t < |coeffs| && coeffs[t].0 == Degree().value && coeffs[t].1 != F.Zero
    {
      if !IsZero() {
        assert coeffs[|coeffs| - 1].1 != F.Zero;
      }
    }

    /** `evaluate`: zero for the zero polynomial, otherwise the sum of
        a_i * point^i accumulated over the entries. */
    method Evaluate(point: Fe) returns (total: Fe)
      ensures total == Eval(coeffs, point)
    {
      if IsZero() {
        EvalOfZeroTerms(coeffs, point);
        return F.Zero;
      }
      total := F.Zero;
      var t := 0;
      while t < |coeffs|
        invariant 0 <= t <= |coeffs|
        invariant total == Eval(coeffs[..t], point)
      {
        var (i, c) := coeffs[t];
        assert coeffs[..t + 1][..t] == coeffs[..t];
        total := F.Add(total, F.Mul(c, F.Pow(point, i)));
        t := t + 1;
      }
      assert coeffs[..|coeffs|] == coeffs;
    }

    /** `mul`: the naive product, a new polynomial. */
    method Mul(other: SparsePolynomial) returns (res: SparsePolynomial)
      ensures fresh(res)
      ensures res.coeffs == Product(coeffs, other.coeffs)
    {
      var r := MulTerms(coeffs, other.coeffs);
      res := new SparsePolynomial.Zero();
      res.coeffs := r;
    }

    /** `mul_assign` by a field element: every coefficient times `other`. */
    method MulAssign(other: Fe)
      modifies this
      ensures coeffs == Scale(old(coeffs), other)
    {
      var t := 0;
      ghost var orig := coeffs;
      while t < |coeffs|
        invariant 0 <= t <= |coeffs| == |orig|
        invariant coeffs[..t] == Scale(orig, other)[..t]
        invariant coeffs[t..] == orig[t..]
      {
        assert coeffs[t] == orig[t];
        coeffs := coeffs[t := (coeffs[t].0, F.Mul(coeffs[t].1, other))];
        t := t + 1;
      }
      assert coeffs == coeffs[..t];
    }

    /** `&p * f`: a scaled copy; `p` itself is unchanged. */
    method MulByRef(other: Fe) returns (res: SparsePolynomial)
      ensures fresh(res)
      ensures res.coeffs == Scale(coeffs, other)
    {
      res := new SparsePolynomial.Clone(this);
      res.MulAssign(other);
    }
  }

  /** `from_coefficients_slice`: a copy of the slice, then as from a vector. */
  method FromCoefficientsSlice(cs: seq<Term>) returns (p: SparsePolynomial)
    ensures fresh(p)
    ensures p.coeffs == Trim(cs)
  {
    p := new SparsePolynomial.FromCoefficientsVec(cs);
  }
}
