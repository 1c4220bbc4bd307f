/** Short-Weierstrass curve points in Jacobian coordinates
    (curves/src/templates/short_weierstrass_jacobian/projective.rs).

    A `Projective` is a `Copy` value in the source, so it is a datatype here.
    The operations that overwrite `self.x`, `self.y`, `self.z` in place are
    methods that take the point and return its new value; their locals `x`,
    `y`, `z` play the role of the three fields and are updated in the
    source's statement order. Each such method is proved against a function
    that states the explicit formula as the Explicit-Formulas Database
    writes it. */
module Jacobian {
  import F = Field

  type Fe = F.Fe

  /** The curve coefficient A (`P::COEFF_A`). Its value is left open, so both
      doubling branches are modelled; BLS12-377 G1 sets it to zero. */
  const COEFF_A: Fe

  /** `P::mul_by_a`: multiplication by A. */
  function MulByA(e: Fe): Fe {
    F.Mul(COEFF_A, e)
  }

  /** An affine point (x, y) or the point at infinity. */
  datatype Affine = Affine(x: Fe, y: Fe, infinity: bool)

  /** (X : Y : Z) stands for the affine point (X/Z^2, Y/Z^3); Z = 0 is infinity. */
  datatype Projective = Projective(x: Fe, y: Fe, z: Fe)

  // ---- Identity, equality, negation, conversion ----

  /** `is_zero`: every point with Z = 0 is the point at infinity. */
  predicate IsZero(p: Projective) {
    p.z == F.Zero
  }

  /** `zero`: the canonical encoding (0, 1, 0) of the point at infinity. */
  function Zero(): (r: Projective)
    ensures IsZero(r) && r.y != F.Zero
  {
    Projective(F.Zero, F.One, F.Zero)
  }

  /** `is_normalized`: zero, or Z = 1 so that (X, Y) are the affine
      coordinates: a non-zero point is normalized exactly when it is the
      `From<Affine>` image of its own (X, Y). */
  predicate IsNormalized(p: Projective): (b: bool)
    ensures IsZero(p) ==> b
    ensures !IsZero(p) ==> (b <==> p == FromAffine(Affine(p.x, p.y, false)))
  {
    IsZero(p) || p.z == F.One
  }

  /** Projective equality: zero only equals zero; otherwise compare
      X1*Z2^2 with X2*Z1^2 and Y1*Z2^3 with Y2*Z1^3. */
  predicate Eq(p: Projective, q: Projective): (b: bool)
    ensures b ==> (IsZero(p) <==> IsZero(q))
    ensures IsZero(p) && IsZero(q) ==> b
  {
    if IsZero(p) then IsZero(q)
    else if IsZero(q) then false
    else
      var z1 := F.Square(p.z);
      var z2 := F.Square(q.z);
      !(F.Mul(p.x, z2) != F.Mul(q.x, z1) ||
        F.Mul(p.y, F.Mul(z2, q.z)) != F.Mul(q.y, F.Mul(z1, p.z)))
  }

  /** Two normalized non-zero points are equal exactly when their affine
      coordinates are. */
  lemma EqOfNormalized(p: Projective, q: Projective)
    requires !IsZero(p) && !IsZero(q) && p.z == F.One && q.z == F.One
    ensures Eq(p, q) <==> p.x == q.x && p.y == q.y
  {
    F.MulOne(F.One);
    F.MulOne(p.x);
    F.MulOne(q.x);
    F.MulOne(p.y);
    F.MulOne(q.y);
  }

  /** `neg`: the y-coordinate of a non-zero point is negated, so that the two
      y-coordinates add up to zero; zero is its own negation. */
  function Neg(p: Projective): (r: Projective)
    ensures IsZero(r) <==> IsZero(p)
    ensures r.x == p.x && r.z == p.z
    ensures !IsZero(p) ==> F.Add(r.y, p.y) == F.Zero
    ensures IsZero(p) ==> r == p
  {
    if !IsZero(p) then
      F.AddSubCancel(F.Zero, p.y);
      Projective(p.x, F.Neg(p.y), p.z)
    else p
  }

  /** `From<Affine>`: infinity becomes zero, and (x, y) becomes (x, y, 1). */
  function FromAffine(a: Affine): (r: Projective)
    ensures IsZero(r) <==> a.infinity
    ensures !a.infinity ==> r.x == a.x && r.y == a.y && r.z == F.One
  {
    if a.infinity then Zero() else Projective(a.x, a.y, F.One)
  }

  // ---- The explicit formulas ----

  /** EFD doubling dbl-2009-l, for curves with A = 0. */
  function Dbl2009L(p: Projective): Projective {
    var X1, Y1, Z1 := p.x, p.y, p.z;
    var A := F.Square(X1);
    var B := F.Square(Y1);
    var C := F.Square(B);
    var D := F.Mul(F.Of(2), F.Sub(F.Sub(F.Square(F.Add(X1, B)), A), C));
    var E := F.Mul(F.Of(3), A);
    var Fv := F.Square(E);
    var X3 := F.Sub(Fv, F.Mul(F.Of(2), D));
    var Y3 := F.Sub(F.Mul(E, F.Sub(D, X3)), F.Mul(F.Of(8), C));
    var Z3 := F.Mul(F.Mul(F.Of(2), Y1), Z1);
    Projective(X3, Y3, Z3)
  }

  /** EFD doubling dbl-2007-bl, for any A. */
  function Dbl2007Bl(p: Projective): Projective {
    var X1, Y1, Z1 := p.x, p.y, p.z;
    var XX := F.Square(X1);
    var YY := F.Square(Y1);
    var YYYY := F.Square(YY);
    var ZZ := F.Square(Z1);
    var S := F.Mul(F.Of(2), F.Sub(F.Sub(F.Square(F.Add(X1, YY)), XX), YYYY));
    var M := F.Add(F.Mul(F.Of(3), XX), F.Mul(COEFF_A, F.Square(ZZ)));
    var T := F.Sub(F.Square(M), F.Mul(F.Of(2), S));
    var X3 := T;
    var Y3 := F.Sub(F.Mul(M, F.Sub(S, T)), F.Mul(F.Of(8), YYYY));
    var Z3 := F.Sub(F.Sub(F.Square(F.Add(Y1, Z1)), YY), ZZ);
    Projective(X3, Y3, Z3)
  }

  /** EFD mixed addition madd-2007-bl ((X1 : Y1 : Z1) plus the affine (X2, Y2)). */
  function Madd2007Bl(p: Projective, a: Affine): Projective {
    var X1, Y1, Z1, X2, Y2 := p.x, p.y, p.z, a.x, a.y;
    var Z1Z1 := F.Square(Z1);
    var U2 := F.Mul(X2, Z1Z1);
    var S2 := F.Mul(F.Mul(Y2, Z1), Z1Z1);
    var H := F.Sub(U2, X1);
    var HH := F.Square(H);
    var I := F.Mul(F.Of(4), HH);
    var J := F.Mul(H, I);
    var r := F.Mul(F.Of(2), F.Sub(S2, Y1));
    var V := F.Mul(X1, I);
    var X3 := F.Sub(F.Sub(F.Square(r), J), F.Mul(F.Of(2), V));
    var Y3 := F.Sub(F.Mul(r, F.Sub(V, X3)), F.Mul(F.Mul(F.Of(2), Y1), J));
    var Z3 := F.Sub(F.Sub(F.Square(F.Add(Z1, H)), Z1Z1), HH);
    Projective(X3, Y3, Z3)
  }

  /** EFD addition add-2007-bl. */
  function Add2007Bl(p: Projective, q: Projective): Projective {
    var X1, Y1, Z1, X2, Y2, Z2 := p.x, p.y, p.z, q.x, q.y, q.z;
    var Z1Z1 := F.Square(Z1);
    var Z2Z2 := F.Square(Z2);
    var U1 := F.Mul(X1, Z2Z2);
    var U2 := F.Mul(X2, Z1Z1);
    var S1 := F.Mul(F.Mul(Y1, Z2), Z2Z2);
    var S2 := F.Mul(F.Mul(Y2, Z1), Z1Z1);
    var H := F.Sub(U2, U1);
    var I := F.Square(F.Mul(F.Of(2), H));
    var J := F.Mul(H, I);
    var r := F.Mul(F.Of(2), F.Sub(S2, S1));
    var V := F.Mul(U1, I);
    var X3 := F.Sub(F.Sub(F.Square(r), J), F.Mul(F.Of(2), V));
    var Y3 := F.Sub(F.Mul(r, F.Sub(V, X3)), F.Mul(F.Mul(F.Of(2), S1), J));
    var Z3 := F.Mul(F.Sub(F.Sub(F.Square(F.Add(Z1, Z2)), Z1Z1), Z2Z2), H);
    Projective(X3, Y3, Z3)
  }

  // ---- The group operations, with their edge cases ----

  /** Doubling: the identity is left alone; A = 0 selects the short formula. */
  function Double(p: Projective): Projective {
    if IsZero(p) then p
    else if COEFF_A == F.Zero then Dbl2009L(p)
    else Dbl2007Bl(p)
  }

  /** The two points coincide in the test the mixed addition makes. */
  predicate MixedSame(p: Projective, a: Affine) {
    var z1z1 := F.Square(p.z);
    p.x == F.Mul(a.x, z1z1) && p.y == F.Mul(F.Mul(a.y, p.z), z1z1)
  }

  /** Mixed addition of an affine point into a projective one. */
  function AddMixed(p: Projective, a: Affine): Projective {
    if a.infinity then p
    else if IsZero(p) then Projective(a.x, a.y, F.One)
    else if MixedSame(p, a) then Double(p)
    else Madd2007Bl(p, a)
  }

  /** The two points coincide in the test the general addition makes (U1 = U2 and S1 = S2). */
  predicate Same(p: Projective, q: Projective) {
    var z1z1 := F.Square(p.z);
    var z2z2 := F.Square(q.z);
    F.Mul(p.x, z2z2) == F.Mul(q.x, z1z1) &&
    F.Mul(F.Mul(p.y, q.z), z2z2) == F.Mul(F.Mul(q.y, p.z), z1z1)
  }

  /** General addition. */
  function Add(p: Projective, q: Projective): Projective {
    if IsZero(p) then q
    else if IsZero(q) then p
    else if Same(p, q) then Double(p)
    else Add2007Bl(p, q)
  }

  // ---- The in-place operations of the source ----

  /** `double_in_place`. */
  method DoubleInPlace(p: Projective) returns (r: Projective)
    ensures IsZero(p) ==> r == p
    ensures !IsZero(p) && COEFF_A == F.Zero ==> r == Dbl2009L(p)
    ensures !IsZero(p) && COEFF_A != F.Zero ==> r == Dbl2007Bl(p)
    ensures r == Double(p)
  {
    if IsZero(p) {
      return p;
    }
    var x, y, z := p.x, p.y, p.z;
    if COEFF_A == F.Zero {
      var a := F.Square(x);
      var b := F.Square(y);
      var c := F.Square(b);
      var d := F.Double(F.Sub(F.Sub(F.Square(F.Add(x, b)), a), c));
      var oldA := a;
      a := F.Double(a);
      var e := F.Add(oldA, a);
      var f := F.Square(e);
      z := F.Mul(z, y);
      z := F.Double(z);
      x := F.Sub(F.Sub(f, d), d);
      c := F.Double(c);
      c := F.Double(c);
      c := F.Double(c);
      y := F.Sub(F.Mul(F.Sub(d, x), e), c);
      F.TwoTimes(F.Sub(F.Sub(F.Square(F.Add(p.x, b)), oldA), F.Square(b)));
      F.ThreeTimes(oldA);
      F.TwiceProduct(p.y, p.z);
      F.SubTwice(f, d);
      F.EightTimes(F.Square(b));
    } else {
      var xx := F.Square(x);
      var yy := F.Square(y);
      var yyyy := F.Square(yy);
      var zz := F.Square(z);
      var s := F.Double(F.Sub(F.Sub(F.Square(F.Add(x, yy)), xx), yyyy));
      var m := F.Add(F.Add(F.Add(xx, xx), xx), MulByA(F.Square(zz)));
      var t := F.Sub(F.Square(m), F.Double(s));
      x := t;
      var oldY := y;
      var yyyy0 := yyyy;
      yyyy := F.Double(yyyy);
      yyyy := F.Double(yyyy);
      yyyy := F.Double(yyyy);
      y := F.Sub(F.Mul(m, F.Sub(s, t)), yyyy);
      z := F.Sub(F.Sub(F.Square(F.Add(oldY, z)), yy), zz);
      F.TwoTimes(F.Sub(F.Sub(F.Square(F.Add(p.x, yy)), xx), yyyy0));
      F.ThreeTimes(xx);
      F.TwoTimes(s);
      F.EightTimes(yyyy0);
    }
    r := Projective(x, y, z);
  }

  /** `add_assign_mixed`. */
  method AddAssignMixed(p: Projective, other: Affine) returns (r: Projective)
    ensures other.infinity ==> r == p
    ensures !other.infinity && IsZero(p) ==> r == Projective(other.x, other.y, F.One)
    ensures !other.infinity && !IsZero(p) && MixedSame(p, other) ==> r == Double(p)
    ensures !other.infinity && !IsZero(p) && !MixedSame(p, other) ==> r == Madd2007Bl(p, other)
    ensures r == AddMixed(p, other)
  {
    if other.infinity {
      return p;
    }
    if IsZero(p) {
      return Projective(other.x, other.y, F.One);
    }
    var x, y, z := p.x, p.y, p.z;
    var z1z1 := F.Square(z);
    var u2 := F.Mul(other.x, z1z1);
    var s2 := F.Mul(F.Mul(other.y, z), z1z1);
    if x == u2 && y == s2 {
      r := DoubleInPlace(p);
    } else {
      var h := F.Sub(u2, x);
      var hh := F.Square(h);
      var i := hh;
      i := F.Double(i);
      i := F.Double(i);
      var j := F.Mul(h, i);
      var rr := F.Double(F.Sub(s2, y));
      var v := F.Mul(x, i);
      x := F.Square(rr);
      x := F.Sub(x, j);
      x := F.Sub(x, v);
      x := F.Sub(x, v);
      var j0 := j;
      j := F.Mul(j, y);
      j := F.Double(j);
      y := F.Sub(v, x);
      y := F.Mul(y, rr);
      y := F.Sub(y, j);
      z := F.Add(z, h);
      z := F.Square(z);
      z := F.Sub(z, z1z1);
      z := F.Sub(z, hh);
      r := Projective(x, y, z);
      F.FourTimes(hh);
      F.TwoTimes(F.Sub(s2, p.y));
      F.SubTwice(F.Sub(F.Square(rr), j0), v);
      F.TwiceProduct(p.y, j0);
    }
  }

  /** `add_assign` (`+=`); `add` copies `self` and calls it. */
  method AddAssign(p: Projective, other: Projective) returns (r: Projective)
    ensures IsZero(p) ==> r == other
    ensures !IsZero(p) && IsZero(other) ==> r == p
    ensures !IsZero(p) && !IsZero(other) && Same(p, other) ==> r == Double(p)
    ensures !IsZero(p) && !IsZero(other) && !Same(p, other) ==> r == Add2007Bl(p, other)
    ensures r == Add(p, other)
  {
    if IsZero(p) {
      return other;
    }
    if IsZero(other) {
      return p;
    }
    var z1z1 := F.Square(p.z);
    var z2z2 := F.Square(other.z);
    var u1 := F.Mul(p.x, z2z2);
    var u2 := F.Mul(other.x, z1z1);
    var s1 := F.Mul(F.Mul(p.y, other.z), z2z2);
    var s2 := F.Mul(F.Mul(other.y, p.z), z1z1);
    if u1 == u2 && s1 == s2 {
      r := DoubleInPlace(p);
    } else {
      var h := F.Sub(u2, u1);
      var i := F.Square(F.Double(h));
      var j := F.Mul(h, i);
      var rr := F.Double(F.Sub(s2, s1));
      var v := F.Mul(u1, i);
      var x := F.Sub(F.Sub(F.Square(rr), j), F.Double(v));
      var y := F.Sub(F.Mul(rr, F.Sub(v, x)), F.Double(F.Mul(s1, j)));
      var z := F.Mul(F.Sub(F.Sub(F.Square(F.Add(p.z, other.z)), z1z1), z2z2), h);
      r := Projective(x, y, z);
      F.TwoTimes(h);
      F.TwoTimes(F.Sub(s2, s1));
      F.TwoTimes(v);
      F.TwiceProduct(s1, j);
    }
  }

  /** `sub_assign` (`-=`): addition of the negation; `sub` copies `self` and calls it. */
  method SubAssign(p: Projective, other: Projective) returns (r: Projective)
    ensures r == Add(p, Neg(other))
    ensures IsZero(other) ==> r == (if IsZero(p) then other else p)
  {
    r := AddAssign(p, Neg(other));
  }

  // ---- Properties of the group operations ----

  /** (0, 1, 0) is a zero point, equal to exactly the zero points, and it
      behaves as the identity in every operation. */
  lemma ZeroIsIdentity(p: Projective, a: Affine)
    ensures IsZero(Zero()) && IsNormalized(Zero())
    ensures Eq(Zero(), p) <==> IsZero(p)
    ensures Add(Zero(), p) == p
    ensures !IsZero(p) ==> Add(p, Zero()) == p
    ensures Double(Zero()) == Zero() && Neg(Zero()) == Zero()
    ensures AddMixed(Zero(), a) == FromAffine(a)
    ensures AddMixed(p, Affine(a.x, a.y, true)) == p
  {
  }

  /** Negation is an involution and keeps zero points as they are. */
  lemma NegInvolutive(p: Projective)
    ensures Neg(Neg(p)) == p
    ensures IsZero(Neg(p)) <==> IsZero(p)
  {
    F.NegNeg(p.y);
  }

  /** Adding a point to itself doubles it. */
  lemma AddSelfIsDouble(p: Projective)
    ensures Add(p, p) == Double(p)
  {
  }

  /** For non-zero points, the addition's coincidence test U1 = U2, S1 = S2
      is exactly projective equality. */
  lemma SameIsEq(p: Projective, q: Projective)
    requires !IsZero(p) && !IsZero(q)
    ensures Same(p, q) <==> Eq(p, q)
  {
    var z1, z2 := F.Square(p.z), F.Square(q.z);
    F.MulAssoc(p.y, q.z, z2);
    F.MulAssoc(q.y, p.z, z1);
    assert F.Mul(q.z, z2) == F.Mul(z2, q.z);
    assert F.Mul(p.z, z1) == F.Mul(z1, p.z);
  }

  /** Adding two equal non-zero points doubles the first; unequal ones take the
      general formula. */
  lemma AddEqualPointsDoubles(p: Projective, q: Projective)
    requires !IsZero(p) && !IsZero(q)
    ensures Eq(p, q) ==> Add(p, q) == Double(p)
    ensures !Eq(p, q) ==> Add(p, q) == Add2007Bl(p, q)
  {
    SameIsEq(p, q);
  }

  /** For a non-zero accumulator and a finite affine point, the mixed
      addition's coincidence test X1 = x2*Z1^2, Y1 = y2*Z1^3 is exactly
      projective equality with the lifted affine point. */
  lemma MixedSameIsEq(p: Projective, a: Affine)
    requires !IsZero(p) && !a.infinity
    ensures MixedSame(p, a) <==> Eq(p, FromAffine(a))
  {
    var z1 := F.Square(p.z);
    F.MulOne(p.x); F.MulOne(p.y); F.MulOne(F.One);
    F.MulAssoc(a.y, p.z, z1);
    assert F.Mul(p.z, z1) == F.Mul(z1, p.z);
  }

  /** Mixed addition of a point equal to the accumulator doubles it. */
  lemma MixedEqualPointsDoubles(p: Projective, a: Affine)
    requires !IsZero(p) && !a.infinity
    ensures Eq(p, FromAffine(a)) ==> AddMixed(p, a) == Double(p)
    ensures !Eq(p, FromAffine(a)) ==> AddMixed(p, a) == Madd2007Bl(p, a)
  {
    MixedSameIsEq(p, a);
  }

  /** madd-2007-bl is add-2007-bl specialised to Z2 = 1: mixed addition gives
      the same coordinates as lifting the affine point and adding, except that
      a zero accumulator plus infinity keeps its own encoding of zero. */
  lemma MixedAgreesWithAdd(p: Projective, a: Affine)
    ensures !(IsZero(p) && a.infinity) ==> AddMixed(p, a) == Add(p, FromAffine(a))
    ensures IsZero(p) && a.infinity ==> AddMixed(p, a) == p && Add(p, FromAffine(a)) == Zero()
  {
    if !IsZero(p) && !a.infinity {
      var q := FromAffine(a);
      var X1, Y1, Z1 := p.x, p.y, p.z;
      var Z1Z1 := F.Square(Z1);
      F.MulOne(F.One); F.MulOne(X1); F.MulOne(Y1);
      assert F.Square(F.One) == F.One;
      assert Same(p, q) <==> MixedSame(p, a);
      if !MixedSame(p, a) {
        var U2 := F.Mul(a.x, Z1Z1);
        var H := F.Sub(U2, X1);
        var HH := F.Square(H);
        F.SquareOfTwice(H);
        F.SquareOfSum(Z1, F.One);
        F.MulOne(F.Double(Z1));
        F.SquareOfSum(Z1, H);
        assert Add2007Bl(p, q) == Madd2007Bl(p, a);
      }
    }
  }

  /** If a point passes the coincidence test against its own negation, its
      Y coordinate doubles to zero. */
  lemma SameAsNegation(p: Projective)
    requires !IsZero(p) && Same(p, Neg(p))
    ensures F.Double(p.y) == F.Zero
  {
    var Y, Z := p.y, p.z;
    var ZZ := F.Square(Z);
    var W := F.Mul(Z, ZZ);
    var q := Neg(p);
    assert q.y == F.Neg(Y) && q.z == Z;
    assert F.Mul(F.Mul(Y, Z), ZZ) == F.Mul(F.Mul(F.Neg(Y), Z), ZZ);
    calc {
      F.Mul(Y, W);
      { F.MulAssoc(Y, Z, ZZ); }
      F.Mul(F.Mul(Y, Z), ZZ);
      F.Mul(F.Mul(F.Neg(Y), Z), ZZ);
      { F.MulAssoc(F.Neg(Y), Z, ZZ); }
      F.Mul(F.Neg(Y), W);
      { F.MulNeg(Y, W); }
      F.Neg(F.Mul(Y, W));
    }
    F.SelfNegDouble(F.Mul(Y, W));
    F.DoubleMul(Y, W);
    assert F.Mul(F.Double(Y), W) == F.Zero;
    F.MulNonZero(Z, Z);
    F.MulNonZero(Z, ZZ);
    F.NoZeroDivisors(F.Double(Y), W);
  }

  /** Doubling a point whose Y coordinate doubles to zero gives a zero point. */
  lemma DoubleOfTwoTorsion(p: Projective)
    requires !IsZero(p) && F.Double(p.y) == F.Zero
    ensures IsZero(Double(p))
  {
    F.DoubleMul(p.y, p.z);
    F.MulZero(p.z);
    if COEFF_A == F.Zero {
      F.TwiceProduct(p.y, p.z);
    } else {
      F.SquareOfSum(p.y, p.z);
    }
  }

  /** A point plus its negation is a zero point: either the coincidence test
      fails and H = 0, or Y doubles to zero and so does the new Z. */
  lemma AddNegIsZero(p: Projective)
    ensures IsZero(Add(p, Neg(p)))
  {
    if !IsZero(p) {
      if Same(p, Neg(p)) {
        SameAsNegation(p);
        DoubleOfTwoTorsion(p);
      } else {
        var ZZ := F.Square(p.z);
        assert F.Sub(F.Mul(p.x, ZZ), F.Mul(p.x, ZZ)) == F.Zero;
        F.MulZero(F.Sub(F.Sub(F.Square(F.Add(p.z, p.z)), ZZ), ZZ));
      }
    }
  }

  /** Projective equality is an equivalence relation. */
  lemma EqIsEquivalence(p: Projective, q: Projective, r: Projective)
    ensures Eq(p, p)
    ensures Eq(p, q) ==> Eq(q, p)
    ensures Eq(p, q) && Eq(q, r) ==> Eq(p, r)
  {
    if Eq(p, q) && Eq(q, r) && !IsZero(p) {
      var zp, zq, zr := F.Square(p.z), F.Square(q.z), F.Square(r.z);
      F.MulNonZero(q.z, q.z);
      F.MulNonZero(zq, q.z);
      F.CrossTrans(p.x, q.x, r.x, zp, zq, zr);
      F.CrossTrans(p.y, q.y, r.y, F.Mul(zp, p.z), F.Mul(zq, q.z), F.Mul(zr, r.z));
    }
  }

  // ---- Normalization ----

  /** The point with the same affine coordinates and Z = 1:
      (X / Z^2, Y / Z^3, 1). */
  function Normalize(p: Projective): Projective
    requires !IsZero(p)
  {
    var zi := F.Inv(p.z);
    var z2 := F.Square(zi);
    Projective(F.Mul(p.x, z2), F.Mul(p.y, F.Mul(z2, zi)), F.One)
  }

  /** Normalizing yields a normalized point equal to the original. */
  lemma NormalizeIsEq(p: Projective)
    requires !IsZero(p)
    ensures IsNormalized(Normalize(p)) && Eq(Normalize(p), p)
  {
    var zi := F.Inv(p.z);
    var z2, Z2 := F.Square(zi), F.Square(p.z);
    F.InversePowers(zi, p.z);
    F.MulOne(F.One);
    F.MulOne(p.x); F.MulOne(p.y);
    F.MulAssoc(p.x, z2, Z2);
    F.MulAssoc(p.y, F.Mul(z2, zi), F.Mul(Z2, p.z));
    assert F.Mul(zi, p.z) == F.Mul(p.z, zi);
  }

  /** The Z coordinates of the points not yet normalized, in order. */
  ghost function Pending(s: seq<Projective>): (zs: seq<Fe>)
    ensures |zs| <= |s|
  {
    if s == [] then []
    else
      var last := s[|s| - 1];
      Pending(s[..|s| - 1]) + (if IsNormalized(last) then [] else [last.z])
  }

  /** No pending Z coordinate is zero (those points are the identity) or one. */
  lemma {:induction false} PendingNonZero(s: seq<Projective>)
    ensures forall k :: 0 <= k < |Pending(s)| ==> Pending(s)[k] != F.Zero && Pending(s)[k] != F.One
  {
    if s != [] {
      PendingNonZero(s[..|s| - 1]);
    }
  }

  /** The running product z0 * z1 * ... of a sequence of field elements. */
  ghost function Product(zs: seq<Fe>): Fe {
    if zs == [] then F.One else F.Mul(Product(zs[..|zs| - 1]), zs[|zs| - 1])
  }

  /** A product of non-zero elements is not zero. */
  lemma {:induction false} ProductNonZero(zs: seq<Fe>)
    requires forall k :: 0 <= k < |zs| ==> zs[k] != F.Zero
    ensures Product(zs) != F.Zero
  {
    if zs != [] {
      ProductNonZero(zs[..|zs| - 1]);
      F.MulNonZero(Product(zs[..|zs| - 1]), zs[|zs| - 1]);
    }
  }

  /** The pending elements of a prefix are a prefix of the pending elements. */
  lemma {:induction false} PendingPrefix(s: seq<Projective>, i: nat)
    requires i <= |s|
    ensures |Pending(s[..i])| <= |Pending(s)|
    ensures Pending(s[..i]) == Pending(s)[..|Pending(s[..i])|]
    decreases |s|
  {
    if i < |s| {
      assert s[..|s| - 1][..i] == s[..i];
      PendingPrefix(s[..|s| - 1], i);
    } else {
      assert s[..i] == s;
    }
  }

  /** What the slot holds after the backward pass: the inverse of Z in place of Z. */
  ghost function Inverted(p: Projective): Projective {
    if IsNormalized(p) then p else p.(z := F.Inv(p.z))
  }

  /** What the slot holds at the end of `batch_normalization`: a normalized
      point equal to the original, and the original itself when that was
      already normalized. */
  function Normalized(p: Projective): (r: Projective)
    ensures IsNormalized(r) && Eq(r, p)
    ensures IsNormalized(p) ==> r == p
  {
    EqIsEquivalence(p, p, p);
    if IsNormalized(p) then p
    else
      NormalizeIsEq(p);
      Normalize(p)
  }

  /** `batch_normalization`, Montgomery's trick: one inversion for all the
      points that are not yet normalized. The three passes of the source are
      the three methods below. */
  method BatchNormalization(v: array<Projective>)
    modifies v
    ensures forall j :: 0 <= j < v.Length ==> v[j] == Normalized(old(v[j]))
  {
    ghost var v0 := v[..];
    var prod, tmp := PrefixProducts(v);
    PendingNonZero(v[..]);
    ProductNonZero(Pending(v[..]));
    var inv := F.Inverse(tmp);
    tmp := inv.value;   // the product of non-zero elements is invertible
    assert F.Mul(tmp, Product(Pending(v[..]))) == F.One;
    InvertPending(v, prod, tmp);
    assert forall j :: 0 <= j < v.Length ==> v[j] == v[..][j];
    Rescale(v, v0);
  }

  /** First pass: prod[k] = z0 * ... * zk over the points not yet normalized,
      and the total product. */
  method PrefixProducts(v: array<Projective>) returns (prod: seq<Fe>, tmp: Fe)
    ensures |prod| == |Pending(v[..])|
    ensures forall k :: 0 <= k < |prod| ==> prod[k] == Product(Pending(v[..])[..k + 1])
    ensures tmp == Product(Pending(v[..]))
  {
    ghost var vs := v[..];
    prod := [];
    tmp := F.One;
    var i := 0;
    while i < v.Length
      invariant 0 <= i <= v.Length
      invariant |prod| == |Pending(vs[..i])|
      invariant forall k :: 0 <= k < |prod| ==> prod[k] == Product(Pending(vs[..i])[..k + 1])
      invariant tmp == Product(Pending(vs[..i]))
    {
      ghost var zs := Pending(vs[..i]);
      PendingStep(vs, i);
      if !IsNormalized(v[i]) {
        ProductsStep(zs, prod, v[i].z);
        tmp := F.Mul(tmp, v[i].z);
        prod := prod + [tmp];
      }
      i := i + 1;
    }
    assert vs[..v.Length] == vs;
  }

  /** Appending z to the pending list extends the prefix products by one. */
  lemma ProductsStep(zs: seq<Fe>, prod: seq<Fe>, z: Fe)
    requires |prod| == |zs|
    requires forall k :: 0 <= k < |prod| ==> prod[k] == Product(zs[..k + 1])
    ensures Product(zs + [z]) == F.Mul(Product(zs), z)
    ensures var after, extended := zs + [z], prod + [F.Mul(Product(zs), z)];
      forall k :: 0 <= k < |extended| ==> extended[k] == Product(after[..k + 1])
  {
    var after, extended := zs + [z], prod + [F.Mul(Product(zs), z)];
    assert after[..|zs|] == zs;
    assert after[..|after|] == after;
    forall k | 0 <= k < |extended|
      ensures extended[k] == Product(after[..k + 1])
    {
      if k < |zs| {
        assert after[..k + 1] == zs[..k + 1];
      }
    }
  }

  /** Second pass, backwards: Z := 1/Z for every point not yet normalized,
      given the prefix products and the inverse of their total. */
  method InvertPending(v: array<Projective>, prod: seq<Fe>, tmpInv: Fe)
    requires |prod| == |Pending(v[..])|
    requires forall k :: 0 <= k < |prod| ==> prod[k] == Product(Pending(v[..])[..k + 1])
    requires F.Mul(tmpInv, Product(Pending(v[..]))) == F.One
    modifies v
    ensures v[..] == InvertedFrom(old(v[..]), 0)
  {
    ghost var v0 := v[..];
    assert v0[..v.Length] == v0;
    assert v[..] == InvertedFrom(v0, v.Length);
    var tmp := tmpInv;
    var k := |prod|;
    var i := v.Length;
    while i > 0
      invariant 0 <= i <= v.Length == |v0|
      invariant k == |Pending(v0[..i])| && k <= |prod|
      invariant F.Mul(tmp, Product(Pending(v0[..i]))) == F.One
      invariant v[..] == InvertedFrom(v0, i)
    {
      i := i - 1;
      k, tmp := InvertSlot(v, v0, prod, i, k, tmp);
    }
  }

  /** One iteration of the backward pass, at slot `i`: `tmp` is the inverse
      of the product of the pending Z coordinates up to and including slot
      `i`, and `k` their number. */
  method InvertSlot(v: array<Projective>, ghost v0: seq<Projective>, prod: seq<Fe>, i: nat, k: nat, tmp: Fe)
    returns (k': nat, tmp': Fe)
    requires i < v.Length == |v0|
    requires |prod| == |Pending(v0)|
    requires forall k :: 0 <= k < |prod| ==> prod[k] == Product(Pending(v0)[..k + 1])
    requires k == |Pending(v0[..i + 1])| && k <= |prod|
    requires F.Mul(tmp, Product(Pending(v0[..i + 1]))) == F.One
    requires v[..] == InvertedFrom(v0, i + 1)
    modifies v
    ensures k' == |Pending(v0[..i])| && k' <= |prod|
    ensures F.Mul(tmp', Product(Pending(v0[..i]))) == F.One
    ensures v[..] == InvertedFrom(v0, i)
  {
    InvertedFromStep(v0, i);
    PendingStep(v0, i);
    k', tmp' := k, tmp;
    if !IsNormalized(v[i]) {
      k' := k - 1;
      var s := if k' == 0 then F.One else prod[k' - 1];
      BackwardStep(v0, prod, i, k', s, tmp);
      var g := v[i];
      tmp' := F.Mul(tmp, g.z);
      g := g.(z := F.Mul(tmp, s));
      v[i] := g;
    }
  }

  /** The slice during the backward pass: slots from `i` on already hold
      their inverted Z, slots before `i` are untouched. */
  ghost function InvertedFrom(s: seq<Projective>, i: nat): (r: seq<Projective>)
    requires i <= |s|
    ensures |r| == |s|
    ensures forall j :: 0 <= j < i ==> r[j] == s[j]
    ensures forall j :: i <= j < |s| ==> r[j] == Inverted(s[j])
  {
    s[..i] + seq(|s| - i, j requires 0 <= j < |s| - i => Inverted(s[i + j]))
  }

  /** One backward step inverts slot `i` and nothing else. */
  lemma InvertedFromStep(s: seq<Projective>, i: nat)
    requires i < |s|
    ensures InvertedFrom(s, i + 1)[i] == s[i]
    ensures InvertedFrom(s, i + 1)[i := Inverted(s[i])] == InvertedFrom(s, i)
  {
  }

  /** The bookkeeping of one step of the backward pass, at a point not yet
      normalized: it is the k-th pending point, `s` is the product of the
      pending Z coordinates before it, and `tmp` the inverse of the product
      up to and including it. */
  lemma BackwardStep(v0: seq<Projective>, prod: seq<Fe>, i: nat, k: nat, s: Fe, tmp: Fe)
    requires i < |v0| && !IsNormalized(v0[i])
    requires |prod| == |Pending(v0)|
    requires forall k :: 0 <= k < |prod| ==> prod[k] == Product(Pending(v0)[..k + 1])
    requires k < |prod| && k + 1 == |Pending(v0[..i + 1])|
    requires F.Mul(tmp, Product(Pending(v0[..i + 1]))) == F.One
    requires s == if k == 0 then F.One else prod[k - 1]
    ensures k == |Pending(v0[..i])|
    ensures F.Mul(tmp, s) == F.Inv(v0[i].z)
    ensures F.Mul(F.Mul(tmp, v0[i].z), Product(Pending(v0[..i]))) == F.One
    ensures Inverted(v0[i]) == v0[i].(z := F.Mul(tmp, s))
  {
    var before := Pending(v0[..i]);
    PendingStep(v0, i);
    PendingPrefix(v0, i);
    assert (before + [v0[i].z])[..k] == before;
    if k > 0 {
      assert Pending(v0)[..k] == before;
    }
    assert s == Product(before);
    F.PeelInverse(tmp, s, v0[i].z);
  }

  /** The pending list grows by one Z exactly at the points not yet normalized. */
  lemma PendingStep(s: seq<Projective>, i: nat)
    requires i < |s|
    ensures IsNormalized(s[i]) ==> Pending(s[..i + 1]) == Pending(s[..i])
    ensures !IsNormalized(s[i]) ==> Pending(s[..i + 1]) == Pending(s[..i]) + [s[i].z]
  {
    assert s[..i + 1][..i] == s[..i];
    assert Pending(s[..i]) + [] == Pending(s[..i]);
  }

  /** Third pass: rescale X and Y by 1/Z^2 and 1/Z^3 and set Z = 1; `orig`
      holds the points as they were before the backward pass. */
  method Rescale(v: array<Projective>, ghost orig: seq<Projective>)
    requires |orig| == v.Length
    requires forall j :: 0 <= j < v.Length ==> v[j] == Inverted(orig[j])
    modifies v
    ensures forall j :: 0 <= j < v.Length ==> v[j] == Normalized(orig[j])
  {
    var i := 0;
    while i < v.Length
      invariant 0 <= i <= v.Length
      invariant forall j :: 0 <= j < i ==> v[j] == Normalized(orig[j])
      invariant forall j :: i <= j < v.Length ==> v[j] == Inverted(orig[j])
    {
      if !IsNormalized(orig[i]) {
        F.InvNotZeroOrOne(orig[i].z);
      }
      if !IsNormalized(v[i]) {
        var g := v[i];
        var z2 := F.Square(g.z);
        v[i] := Projective(F.Mul(g.x, z2), F.Mul(g.y, F.Mul(z2, g.z)), F.One);
      }
      i := i + 1;
    }
  }

  // ---- Scalar multiplication ----

  /** Plain most-significant-bit-first double-and-add over the scalar's bits. */
  function MulSpec(p: Projective, bits: seq<bool>): Projective {
    if bits == [] then Zero()
    else
      var r := Double(MulSpec(p, bits[..|bits| - 1]));
      if bits[|bits| - 1] then Add(r, p) else r
  }

  /** The position of the most significant set bit, or |bits| when none is set. */
  ghost function FirstSet(bits: seq<bool>): (r: nat)
    ensures r <= |bits|
    ensures forall j :: 0 <= j < r ==> !bits[j]
    ensures r < |bits| ==> bits[r]
  {
    if bits == [] then 0 else if bits[0] then 0 else 1 + FirstSet(bits[1..])
  }

  /** `mul` by a scalar given as its big-endian bits (`BitIteratorBE` over
      `to_repr()`): doubling is skipped until the first set bit, which is
      sound because doubling the zero point leaves it unchanged. The ghost
      `doublings` counts the calls to `double_in_place`: one per bit after
      the first set bit, none before it. */
  method ScalarMul(p: Projective, bits: seq<bool>) returns (res: Projective, ghost doublings: nat)
    ensures res == MulSpec(p, bits)
    ensures FirstSet(bits) == |bits| ==> doublings == 0
    ensures FirstSet(bits) < |bits| ==> doublings == |bits| - 1 - FirstSet(bits)
  {
    res := Zero();
    doublings := 0;
    var foundOne := false;
    var i := 0;
    while i < |bits|
      invariant 0 <= i <= |bits|
      invariant res == MulSpec(p, bits[..i])
      invariant !foundOne ==> res == Zero()
      invariant foundOne <==> FirstSet(bits) < i
      invariant doublings == if foundOne then i - 1 - FirstSet(bits) else 0
    {
      assert bits[..i + 1][..i] == bits[..i];
      if foundOne {
        res := DoubleInPlace(res);
        doublings := doublings + 1;
      } else {
        foundOne := bits[i];
      }
      if bits[i] {
        res := AddAssign(res, p);
      }
      i := i + 1;
    }
    assert bits[..|bits|] == bits;
  }

  /** `mul_assign` (`*=`): the point is replaced by its scalar multiple. */
  method MulAssign(p: Projective, bits: seq<bool>) returns (r: Projective)
    ensures r == MulSpec(p, bits)
    ensures (forall j :: 0 <= j < |bits| ==> !bits[j]) ==> r == Zero()
  {
    ghost var doublings;
    r, doublings := ScalarMul(p, bits);
    MulByZeroBits(p, bits);
  }

  /** A scalar whose bits are all clear gives the zero point. */
  lemma {:induction false} MulByZeroBits(p: Projective, bits: seq<bool>)
    ensures (forall j :: 0 <= j < |bits| ==> !bits[j]) ==> MulSpec(p, bits) == Zero()
  {
    if bits != [] && forall j :: 0 <= j < |bits| ==> !bits[j] {
      MulByZeroBits(p, bits[..|bits| - 1]);
    }
  }

  /** Leading zero bits do not change the multiple, so the fixed-width
      big-endian representation gives the same point as the shortest one. */
  lemma {:induction false} LeadingZerosIgnored(p: Projective, zeros: seq<bool>, bits: seq<bool>)
    requires forall j :: 0 <= j < |zeros| ==> !zeros[j]
    ensures MulSpec(p, zeros + bits) == MulSpec(p, bits)
    decreases |bits|
  {
    if bits == [] {
      assert zeros + bits == zeros;
      MulByZeroBits(p, zeros);
    } else {
      assert (zeros + bits)[..|zeros + bits| - 1] == zeros + bits[..|bits| - 1];
      LeadingZerosIgnored(p, zeros, bits[..|bits| - 1]);
    }
  }

  /** The single bit 1 gives the point itself, and every multiple of the zero
      point is the zero point. */
  lemma {:induction false} MulSpecBasics(p: Projective, bits: seq<bool>)
    ensures MulSpec(p, [true]) == p
    ensures MulSpec(Zero(), bits) == Zero()
  {
    assert [true][..0] == [];
    if bits != [] {
      MulSpecBasics(p, bits[..|bits| - 1]);
    }
  }
}
