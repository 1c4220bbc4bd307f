/** Polynomials in evaluation form (algorithms/src/fft/evaluations.rs): a
    vector of field values tagged with the evaluation domain they were taken
    over, combined pointwise. `Evaluations` owns its vector and the `*_assign`
    operators rewrite it in place, so it is a class with a `seq` field. */

module Evals {
  import F = Field
  import opened Wrappers

  type Fe = F.Fe

  /** The four pointwise operators. */
  datatype Op = Plus | Minus | Times | Over

  /** Division needs a non-zero divisor; the other operators accept anything. */
  predicate Defined(op: Op, b: Fe) {
    op.Over? ==> b != F.Zero
  }

  function Apply(op: Op, a: Fe, b: Fe): Fe
    requires Defined(op, b)
  {
    match op
    case Plus => F.Add(a, b)
    case Minus => F.Sub(a, b)
    case Times => F.Mul(a, b)
    case Over => F.Div(a, b)
  }

  /** Every divisor the zip reaches is admissible for `op`. */
  predicate Admissible(xs: seq<Fe>, ys: seq<Fe>, op: Op) {
    forall i :: 0 <= i < |xs| && i < |ys| ==> Defined(op, ys[i])
  }

  /**
   * The effect of zipping `xs` (mutably) with `ys` and applying `op` to each
   * pair: positions both vectors have are combined, positions only `xs` has
   * keep their value, and positions only `ys` has are ignored.
   */
  function Zip(xs: seq<Fe>, ys: seq<Fe>, op: Op): seq<Fe>
    requires Admissible(xs, ys, op)
  {
    seq(|xs|, i requires 0 <= i < |xs| => if i < |ys| then Apply(op, xs[i], ys[i]) else xs[i])
  }

  /** Subtracting what was added restores the vector. */
  lemma {:induction false} MinusUndoesPlus(xs: seq<Fe>, ys: seq<Fe>)
    ensures Zip(Zip(xs, ys, Plus), ys, Minus) == xs
    ensures Zip(Zip(xs, ys, Minus), ys, Plus) == xs
  {
    forall i | 0 <= i < |xs| && i < |ys| {
      F.AddSubCancel(xs[i], ys[i]);
    }
  }

  /** Dividing by what was multiplied in restores the vector, and conversely. */
  lemma {:induction false} OverUndoesTimes(xs: seq<Fe>, ys: seq<Fe>)
    requires Admissible(xs, ys, Over)
    ensures Zip(Zip(xs, ys, Times), ys, Over) == xs
    ensures Zip(Zip(xs, ys, Over), ys, Times) == xs
  {
    forall i | 0 <= i < |xs| && i < |ys| {
      F.MulDivCancel(xs[i], ys[i]);
    }
  }

  /** On vectors of the same length, `+` and `*` do not depend on the order of the operands. */
  lemma {:induction false} PlusTimesCommute(xs: seq<Fe>, ys: seq<Fe>)
    requires |xs| == |ys|
    ensures Zip(xs, ys, Plus) == Zip(ys, xs, Plus)
    ensures Zip(xs, ys, Times) == Zip(ys, xs, Times)
  {
    assert forall i :: 0 <= i < |xs| ==> F.Add(xs[i], ys[i]) == F.Add(ys[i], xs[i]);
    assert forall i :: 0 <= i < |xs| ==> F.Mul(xs[i], ys[i]) == F.Mul(ys[i], xs[i]);
  }

  /** The zip keeps the length of the left operand and reads the right operand only up to it. */
  lemma ZipShape(xs: seq<Fe>, ys: seq<Fe>, op: Op)
    requires Admissible(xs, ys, op)
    ensures |Zip(xs, ys, op)| == |xs|
    ensures |ys| <= |xs| ==> Zip(xs, ys, op)[|ys|..] == xs[|ys|..]
    ensures |xs| <= |ys| ==> Admissible(xs, ys[..|xs|], op) && Zip(xs, ys, op) == Zip(xs, ys[..|xs|], op)
  {
  }

  class Evaluations<D(==)> {
    /** The values of the polynomial over the domain. */
    var evaluations: seq<Fe>
    /** The domain the values were taken over. */
    var domain: D

    constructor FromVecAndDomain(evals: seq<Fe>, d: D)
      ensures evaluations == evals && domain == d
    {
      evaluations := evals;
      domain := d;
    }

    constructor Clone(other: Evaluations<D>)
      ensures evaluations == other.evaluations && domain == other.domain
    {
      evaluations := other.evaluations;
      domain := other.domain;
    }

    /** Indexing; out-of-range indices are a panic in the source, excluded here. */
    function Index(index: nat): (r: Fe)
      reads this
      requires index < |evaluations|
      ensures r == evaluations[index]
    {
      evaluations[index]
    }

    /**
     * The shared in-place loop of the four `*_assign` operators. A domain
     * mismatch (the source's assertion failure) is reported as `ok == false`
     * and leaves the values untouched.
     */
    method ZipAssign(other: Evaluations<D>, op: Op) returns (ok: bool)
      requires Admissible(evaluations, other.evaluations, op)
      modifies this
      ensures ok <==> old(domain) == old(other.domain)
      ensures domain == old(domain)
      ensures ok ==> evaluations == Zip(old(evaluations), old(other.evaluations), op)
      ensures !ok ==> evaluations == old(evaluations)
    {
      if domain != other.domain {
        return false;
      }
      ok := true;
      var src := other.evaluations;
      var i := 0;
      while i < |evaluations| && i < |src|
        invariant 0 <= i <= |evaluations| == |old(evaluations)|
        invariant i <= |src|
        invariant domain == old(domain)
        invariant forall j :: 0 <= j < i ==> evaluations[j] == Apply(op, old(evaluations)[j], src[j])
        invariant evaluations[i..] == old(evaluations)[i..]
      {
        evaluations := evaluations[i := Apply(op, evaluations[i], src[i])];
        i := i + 1;
      }
    }

    method AddAssign(other: Evaluations<D>) returns (ok: bool)
      modifies this
      ensures ok <==> old(domain) == old(other.domain)
      ensures domain == old(domain)
      ensures ok ==> evaluations == Zip(old(evaluations), old(other.evaluations), Plus)
      ensures !ok ==> evaluations == old(evaluations)
    {
      ok := ZipAssign(other, Plus);
    }

    method SubAssign(other: Evaluations<D>) returns (ok: bool)
      modifies this
      ensures ok <==> old(domain) == old(other.domain)
      ensures domain == old(domain)
      ensures ok ==> evaluations == Zip(old(evaluations), old(other.evaluations), Minus)
      ensures !ok ==> evaluations == old(evaluations)
    {
      ok := ZipAssign(other, Minus);
    }

    method MulAssign(other: Evaluations<D>) returns (ok: bool)
      modifies this
      ensures ok <==> old(domain) == old(other.domain)
      ensures domain == old(domain)
      ensures ok ==> evaluations == Zip(old(evaluations), old(other.evaluations), Times)
      ensures !ok ==> evaluations == old(evaluations)
    {
      ok := ZipAssign(other, Times);
    }

    /** Division by a zero value is left to the field; here divisors the zip reaches must be non-zero. */
    method DivAssign(other: Evaluations<D>) returns (ok: bool)
      requires Admissible(evaluations, other.evaluations, Over)
      modifies this
      ensures ok <==> old(domain) == old(other.domain)
      ensures domain == old(domain)
      ensures ok ==> evaluations == Zip(old(evaluations), old(other.evaluations), Over)
      ensures !ok ==> evaluations == old(evaluations)
    {
      ok := ZipAssign(other, Over);
    }

    /**
     * The by-reference operators: a fresh copy of `this` combined in place
     * with `other`. Neither operand changes; a domain mismatch yields `None`.
     */
    method ZipByRef(other: Evaluations<D>, op: Op) returns (res: Option<Evaluations<D>>)
      requires Admissible(evaluations, other.evaluations, op)
      ensures res.Some? <==> domain == other.domain
      ensures res.Some? ==> fresh(res.value) && res.value.domain == domain
      ensures res.Some? ==> res.value.evaluations == Zip(evaluations, other.evaluations, op)
    {
      var result := new Evaluations.Clone(this);
      var ok := result.ZipAssign(other, op);
      res := if ok then Some(result) else None;
    }

    method Add(other: Evaluations<D>) returns (res: Option<Evaluations<D>>)
      ensures res.Some? <==> domain == other.domain
      ensures res.Some? ==> fresh(res.value) && res.value.domain == domain
      ensures res.Some? ==> res.value.evaluations == Zip(evaluations, other.evaluations, Plus)
    {
      res := ZipByRef(other, Plus);
    }

    method Sub(other: Evaluations<D>) returns (res: Option<Evaluations<D>>)
      ensures res.Some? <==> domain == other.domain
      ensures res.Some? ==> fresh(res.value) && res.value.domain == domain
      ensures res.Some? ==> res.value.evaluations == Zip(evaluations, other.evaluations, Minus)
    {
      res := ZipByRef(other, Minus);
    }

    method Mul(other: Evaluations<D>) returns (res: Option<Evaluations<D>>)
      ensures res.Some? <==> domain == other.domain
      ensures res.Some? ==> fresh(res.value) && res.value.domain == domain
      ensures res.Some? ==> res.value.evaluations == Zip(evaluations, other.evaluations, Times)
    {
      res := ZipByRef(other, Times);
    }

    method Div(other: Evaluations<D>) returns (res: Option<Evaluations<D>>)
      requires Admissible(evaluations, other.evaluations, Over)
      ensures res.Some? <==> domain == other.domain
      ensures res.Some? ==> fresh(res.value) && res.value.domain == domain
      ensures res.Some? ==> res.value.evaluations == Zip(evaluations, other.evaluations, Over)
    {
      res := ZipByRef(other, Over);
    }
  }
}
