/** Option, for operations of the source that return an optional value
    (field inversion) or that may stop with an assertion failure. */
module Wrappers {
  datatype Option<+T> = None | Some(value: T)
}

/** Integer facts about Euclidean division used by the prime-field model. */
module ModArith {

  lemma ModUnique(n: int, m: int, q: int, r: int)
    requires m > 0 && n == q * m + r && 0 <= r < m
    ensures n % m == r && n / m == q
  {
    var q0, r0 := n / m, n % m;
    assert n == q0 * m + r0;
    assert (q - q0) * m == r0 - r;
    MulBounds(q - q0, m);
  }

  lemma MulBounds(a: int, m: int)
    requires m > 0
    ensures a >= 1 ==> a * m >= m
    ensures a <= -1 ==> a * m <= -m
  {
  }

  lemma ModShift(k: int, n: int, m: int)
    requires m > 0
    ensures (k * m + n) % m == n % m
  {
    var q, r := n / m, n % m;
    assert k * m + n == (k + q) * m + r;
    ModUnique(k * m + n, m, k + q, r);
  }

  lemma MulModLeft(x: int, y: int, m: int)
    requires m > 0
    ensures ((x % m) * y) % m == (x * y) % m
  {
    var q, r := x / m, x % m;
    assert x * y == (q * y) * m + r * y by {
      assert x == q * m + r;
    }
    ModShift(q * y, r * y, m);
  }

  lemma MulModRight(x: int, y: int, m: int)
    requires m > 0
    ensures (x * (y % m)) % m == (x * y) % m
  {
    MulModLeft(y, x, m);
    assert x * (y % m) == (y % m) * x && x * y == y * x;
  }

  /** From a Bezout identity ax + my = 1, ax is 1 modulo m. */
  lemma BezoutMod(ax: int, y: int, m: int)
    requires m > 1 && ax + m * y == 1
    ensures ax % m == 1
  {
    assert ax == (-y) * m + 1;
    ModShift(-y, 1, m);
  }

  lemma AddModLeft(x: int, y: int, m: int)
    requires m > 0
    ensures ((x % m) + y) % m == (x + y) % m
  {
    var q, r := x / m, x % m;
    assert x + y == q * m + (r + y);
    ModShift(q, r + y, m);
  }

  lemma MultipleMod(k: int, m: int)
    requires m > 0
    ensures (k * m) % m == 0
  {
    ModUnique(k * m, m, k, 0);
  }

  /** Extended Euclid: a greatest common divisor `g` of `a` and `b`
      together with Bezout coefficients `x`, `y` such that a*x + b*y == g. */
  function Egcd(a: nat, b: nat): (r: (nat, int, int))
    requires a > 0 || b > 0
    ensures a * r.1 + b * r.2 == r.0
    ensures r.0 > 0 && a % r.0 == 0 && b % r.0 == 0
    decreases b
  {
    if b == 0 then
      MultipleMod(1, a);
      (a, 1, 0)
    else
      var t := Egcd(b, a % b);
      BezoutStep(a, b, t.0, t.1, t.2);
      DividesStep(a, b, t.0);
      (t.0, t.2, t.1 - (a / b) * t.2)
  }

  lemma BezoutStep(a: int, b: int, g: int, x: int, y: int)
    requires b > 0 && b * x + (a % b) * y == g
    ensures a * y + b * (x - (a / b) * y) == g
  {
    var q := a / b;
    assert a % b == a - q * b;
    assert a * y + b * (x - q * y) == b * x + (a - q * b) * y;
  }

  lemma DividesStep(a: int, b: int, g: int)
    requires b > 0 && g > 0 && b % g == 0 && (a % b) % g == 0
    ensures a % g == 0
  {
    var kb, kr := b / g, (a % b) / g;
    assert b == kb * g;
    assert a % b == kr * g;
    assert a == (a / b) * b + a % b;
    assert a == ((a / b) * kb + kr) * g;
    MultipleMod((a / b) * kb + kr, g);
  }
}

/** The prime field that both the curve's coordinates and the polynomial
    coefficients live in. The source treats the field as an external
    collaborator; here it is the integers modulo an arbitrary prime `P`
    (the BLS12-377 base field is one instance), with canonical residues. */
module Field {
  import opened Wrappers
  import opened ModArith

  ghost predicate IsPrime(n: int) {
    n > 1 && forall d :: 1 < d < n ==> n % d != 0
  }

  type Prime = p: int | IsPrime(p) witness 2

  /** The field modulus. Its value is left open: every proof holds for all primes. */
  const P: Prime

  /** A field element, as its canonical residue. */
  type Fe = x: int | 0 <= x < P witness 0

  const Zero: Fe := 0
  const One: Fe := 1

  /** The residue of an integer; used for small constants such as the 3 of "3*A". */
  function Of(k: int): Fe { k % P }

  function Add(a: Fe, b: Fe): Fe { (a + b) % P }
  function Sub(a: Fe, b: Fe): Fe { (a - b) % P }
  function Neg(a: Fe): Fe { Sub(Zero, a) }
  function Mul(a: Fe, b: Fe): Fe { (a * b) % P }
  function Square(a: Fe): Fe { Mul(a, a) }
  function Double(a: Fe): Fe { Add(a, a) }

  /** a^n by repeated multiplication (the source's `pow` is abstract). */
  function Pow(a: Fe, n: nat): Fe {
    if n == 0 then One else Mul(Pow(a, n - 1), a)
  }

  /** The multiplicative inverse of a non-zero element: the unique element
      whose product with it is one (extended Euclid shows it exists). */
  function Inv(a: Fe): (r: Fe)
    requires a != Zero
    ensures Mul(a, r) == One
  {
    InvExists(a);
    InvIsUnique(a);
    var r: Fe :| Mul(a, r) == One; r
  }

  lemma InvExists(a: Fe)
    requires a != Zero
    ensures exists r: Fe :: Mul(a, r) == One
  {
    var t := Egcd(a, P);
    InvFromBezout(a, t.0, t.1, t.2);
    var r: Fe := t.1 % P;
    assert Mul(a, r) == One;
  }

  lemma InvIsUnique(a: Fe)
    ensures forall x: Fe, y: Fe :: Mul(a, x) == One && Mul(a, y) == One ==> x == y
  {
    forall x: Fe, y: Fe | Mul(a, x) == One && Mul(a, y) == One
      ensures x == y
    {
      InvUnique(a, x, y);
    }
  }

  /** The field's `inverse()`: no value for zero, the inverse otherwise. */
  function Inverse(a: Fe): (r: Option<Fe>)
    ensures r.None? <==> a == Zero
    ensures r.Some? ==> Mul(a, r.value) == One
  {
    if a == Zero then None else Some(Inv(a))
  }

  function Div(a: Fe, b: Fe): Fe
    requires b != Zero
  {
    Mul(a, Inv(b))
  }

  lemma InvFromBezout(a: Fe, g: nat, x: int, y: int)
    requires a != Zero && a * x + P * y == g
    requires g > 0 && a % g == 0 && P % g == 0
    ensures Mul(a, x % P) == One
  {
    CommonDivisorIsOne(a, g);
    BezoutMod(a * x, y, P);
    MulModRight(a, x, P);
  }

  /** The only positive common divisor of P and a non-zero residue is 1. */
  lemma CommonDivisorIsOne(a: Fe, g: nat)
    requires a != Zero && g > 0 && a % g == 0 && P % g == 0
    ensures g == 1
  {
    if g != 1 {
      assert g >= P;   // P is prime and g divides it
      ModUnique(a, g, 0, a);
      assert false;
    }
  }

  // ---- Lifting integer identities into the field ----

  lemma OfFe(a: Fe)
    ensures Of(a) == a
  {
  }

  lemma AddOf(x: int, y: int)
    ensures Add(Of(x), Of(y)) == Of(x + y)
  {
    AddModLeft(x, y % P, P);
    AddModLeft(y, x, P);
  }

  lemma SubOf(x: int, y: int)
    ensures Sub(Of(x), Of(y)) == Of(x - y)
  {
    AddModLeft(x, -(y % P), P);
    var q := y / P;
    assert -(y % P) == q * P - y;
    ModShift(q, x - y, P);
  }

  lemma MulOf(x: int, y: int)
    ensures Mul(Of(x), Of(y)) == Of(x * y)
  {
    MulModLeft(x, y % P, P);
    MulModLeft(y, x, P);
  }

  // ---- Field laws ----

  lemma AddAssoc(a: Fe, b: Fe, c: Fe)
    ensures Add(Add(a, b), c) == Add(a, Add(b, c))
  {
    calc {
      Add(Add(a, b), c);
      { OfFe(a); OfFe(b); OfFe(c); AddOf(a, b); }
      Add(Of(a + b), Of(c));
      { AddOf(a + b, c); }
      Of(a + b + c);
      { AddOf(a, b + c); }
      Add(Of(a), Of(b + c));
      { OfFe(a); OfFe(b); OfFe(c); AddOf(b, c); }
      Add(a, Add(b, c));
    }
  }

  lemma MulAssoc(a: Fe, b: Fe, c: Fe)
    ensures Mul(Mul(a, b), c) == Mul(a, Mul(b, c))
  {
    var ab, bc := a * b, b * c;
    IntMulAssoc(a, b, c);
    OfFe(a); OfFe(c);
    MulOf(ab, c);
    MulOf(a, bc);
  }

  lemma IntMulAssoc(a: int, b: int, c: int)
    ensures (a * b) * c == a * (b * c)
  {
  }

  lemma Distrib(a: Fe, b: Fe, c: Fe)
    ensures Mul(a, Add(b, c)) == Add(Mul(a, b), Mul(a, c))
  {
    calc {
      Mul(a, Add(b, c));
      { OfFe(a); OfFe(b); OfFe(c); AddOf(b, c); }
      Mul(Of(a), Of(b + c));
      { MulOf(a, b + c); }
      Of(a * (b + c));
      { assert a * (b + c) == a * b + a * c; }
      Of(a * b + a * c);
      { AddOf(a * b, a * c); }
      Add(Of(a * b), Of(a * c));
      { MulOf(a, b); MulOf(a, c); }
      Add(Mul(a, b), Mul(a, c));
    }
  }

  lemma NegNeg(a: Fe)
    ensures Neg(Neg(a)) == a
  {
    var x: int := a;
    OfFe(a); OfFe(Zero);
    SubOf(0, x);
    SubOf(0, -x);
  }

  lemma MulOne(a: Fe)
    ensures Mul(a, One) == a && Mul(One, a) == a
  {
  }

  lemma MulZero(a: Fe)
    ensures Mul(a, Zero) == Zero && Mul(Zero, a) == Zero
  {
  }

  lemma InvUnique(a: Fe, x: Fe, y: Fe)
    requires Mul(a, x) == One && Mul(a, y) == One
    ensures x == y
  {
    calc {
      x;
      { MulOne(x); }
      Mul(x, Mul(a, y));
      { MulAssoc(x, a, y); }
      Mul(Mul(x, a), y);
      { assert Mul(x, a) == Mul(a, x); }
      Mul(One, y);
      { MulOne(y); }
      y;
    }
  }

  /** A field has no zero divisors. */
  lemma NoZeroDivisors(a: Fe, b: Fe)
    requires Mul(a, b) == Zero
    ensures a == Zero || b == Zero
  {
    if a != Zero {
      var ai := Inv(a);
      calc {
        b;
        { MulOne(b); }
        Mul(Mul(ai, a), b);
        { MulAssoc(ai, a, b); }
        Mul(ai, Mul(a, b));
        { MulZero(ai); }
        Zero;
      }
    }
  }

  // ---- Small integer multiples, as the explicit formulas write them ----

  lemma TwoTimes(a: Fe)
    ensures Mul(Of(2), a) == Double(a)
  {
    OfFe(a); MulOf(2, a); AddOf(a, a);
  }

  lemma ThreeTimes(a: Fe)
    ensures Mul(Of(3), a) == Add(a, Double(a))
    ensures Mul(Of(3), a) == Add(Add(a, a), a)
  {
    OfFe(a); MulOf(3, a); AddOf(a, a); AddOf(a, a + a); AddOf(a + a, a);
  }

  lemma FourTimes(a: Fe)
    ensures Mul(Of(4), a) == Double(Double(a))
  {
    OfFe(a); MulOf(4, a); AddOf(a, a); AddOf(a + a, a + a);
  }

  lemma EightTimes(a: Fe)
    ensures Mul(Of(8), a) == Double(Double(Double(a)))
  {
    OfFe(a); MulOf(8, a); AddOf(a, a); AddOf(a + a, a + a);
    AddOf(4 * a, 4 * a);
  }

  lemma SubTwice(f: Fe, d: Fe)
    ensures Sub(Sub(f, d), d) == Sub(f, Mul(Of(2), d))
  {
    OfFe(f); OfFe(d); SubOf(f, d); SubOf(f - d, d); MulOf(2, d); SubOf(f, 2 * d);
  }

  /** 2*a*b, as the formulas write it, is the doubling of a*b in either order. */
  lemma TwiceProduct(a: Fe, b: Fe)
    ensures Mul(Mul(Of(2), a), b) == Double(Mul(a, b))
    ensures Mul(Mul(Of(2), a), b) == Double(Mul(b, a))
  {
    var ab := a * b;
    IntTwice(a, b);
    OfFe(a); OfFe(b); MulOf(2, a); MulOf(2 * a, b); MulOf(a, b); AddOf(ab, ab);
    assert Mul(b, a) == Mul(a, b);
  }

  lemma IntTwice(a: int, b: int)
    ensures (2 * a) * b == a * b + a * b
  {
  }

  // ---- Identities used by the curve formulas ----

  lemma MulSwap(a: Fe, b: Fe, c: Fe)
    ensures Mul(Mul(a, b), c) == Mul(Mul(a, c), b)
  {
    MulAssoc(a, b, c); MulAssoc(a, c, b);
    assert Mul(b, c) == Mul(c, b);
  }

  lemma MulCancel(a: Fe, b: Fe, c: Fe)
    requires c != Zero && Mul(a, c) == Mul(b, c)
    ensures a == b
  {
    var ci := Inv(c);
    MulAssoc(a, c, ci); MulAssoc(b, c, ci);
    MulOne(a); MulOne(b);
  }

  lemma MulNonZero(a: Fe, b: Fe)
    requires a != Zero && b != Zero
    ensures Mul(a, b) != Zero
  {
    if Mul(a, b) == Zero {
      NoZeroDivisors(a, b);
    }
  }

  lemma MulNeg(a: Fe, b: Fe)
    ensures Mul(Neg(a), b) == Neg(Mul(a, b))
  {
    var na: int := -(a as int);
    calc {
      Mul(Neg(a), b);
      { OfFe(0); OfFe(a); SubOf(0, a); }
      Mul(Of(na), b);
      { OfFe(b); MulOf(na, b); }
      Of(na * b);
      { assert na * b == 0 - a * b; }
      Of(0 - a * b);
      { SubOf(0, a * b); OfFe(0); }
      Sub(Zero, Of(a * b));
      { OfFe(a); OfFe(b); MulOf(a, b); }
      Neg(Mul(a, b));
    }
  }

  lemma DoubleMul(a: Fe, b: Fe)
    ensures Mul(Double(a), b) == Double(Mul(a, b))
  {
    OfFe(a); OfFe(b); AddOf(a, a); MulOf(a + a, b); MulOf(a, b); AddOf(a * b, a * b);
    assert (a + a) * b == a * b + a * b;
  }

  /** An element equal to its own negation doubles to zero. */
  lemma SelfNegDouble(a: Fe)
    requires a == Neg(a)
    ensures Double(a) == Zero
  {
    OfFe(a); SubOf(0, a); AddOf(a, -(a as int));
  }

  /** (y + z)^2 - y^2 - z^2 = 2*y*z. */
  lemma SquareOfSum(y: Fe, z: Fe)
    ensures Sub(Sub(Square(Add(y, z)), Square(y)), Square(z)) == Mul(Double(y), z)
  {
    var s, yy, zz := (y + z) * (y + z), y * y, z * z;
    IntSquareOfSum(y, z);
    OfFe(y); OfFe(z);
    AddOf(y, z); MulOf(y + z, y + z); MulOf(y, y); MulOf(z, z);
    SubOf(s, yy); SubOf(s - yy, zz);
    AddOf(y, y); MulOf(y + y, z);
  }

  lemma IntSquareOfSum(y: int, z: int)
    ensures (y + z) * (y + z) - y * y - z * z == (y + y) * z
  {
  }

  /** (2*h)^2 = 4*h^2. */
  lemma SquareOfTwice(h: Fe)
    ensures Square(Mul(Of(2), h)) == Mul(Of(4), Square(h))
  {
    var hh := h * h;
    IntSquareOfTwice(h);
    OfFe(h); MulOf(2, h); MulOf(2 * h, 2 * h); MulOf(h, h); MulOf(4, hh);
  }

  lemma IntSquareOfTwice(h: int)
    ensures (2 * h) * (2 * h) == 4 * (h * h)
  {
  }

  /** If a*b = 1 then also a^2*b^2 = 1 and a^3*b^3 = 1. */
  lemma InversePowers(a: Fe, b: Fe)
    requires Mul(a, b) == One
    ensures Mul(Square(a), Square(b)) == One
    ensures Mul(Mul(Square(a), a), Mul(Square(b), b)) == One
  {
    calc {
      Mul(Square(a), Square(b));
      { MulAssoc(a, a, Square(b)); }
      Mul(a, Mul(a, Mul(b, b)));
      { MulAssoc(a, b, b); }
      Mul(a, Mul(One, b));
      { MulOne(b); }
      One;
    }
    var A2, B2 := Square(a), Square(b);
    calc {
      Mul(Mul(A2, a), Mul(B2, b));
      { MulAssoc(A2, a, Mul(B2, b)); }
      Mul(A2, Mul(a, Mul(B2, b)));
      { MulAssoc(a, B2, b); }
      Mul(A2, Mul(Mul(a, B2), b));
      { assert Mul(a, B2) == Mul(B2, a); }
      Mul(A2, Mul(Mul(B2, a), b));
      { MulAssoc(B2, a, b); }
      Mul(A2, Mul(B2, One));
      { MulOne(B2); }
      One;
    }
  }

  /** The inverse of an element other than 0 and 1 is neither 0 nor 1. */
  lemma InvNotZeroOrOne(a: Fe)
    requires a != Zero && a != One
    ensures Inv(a) != Zero && Inv(a) != One
  {
    MulZero(a); MulOne(a);
  }

  /** Cross-multiplied equality is transitive when the middle factor is not zero. */
  lemma CrossTrans(a: Fe, b: Fe, c: Fe, ka: Fe, kb: Fe, kc: Fe)
    requires kb != Zero
    requires Mul(a, kb) == Mul(b, ka) && Mul(b, kc) == Mul(c, kb)
    ensures Mul(a, kc) == Mul(c, ka)
  {
    calc {
      Mul(Mul(a, kc), kb);
      { MulSwap(a, kc, kb); }
      Mul(Mul(b, ka), kc);
      { MulSwap(b, ka, kc); }
      Mul(Mul(c, kb), ka);
      { MulSwap(c, kb, ka); }
      Mul(Mul(c, ka), kb);
    }
    MulCancel(Mul(a, kc), Mul(c, ka), kb);
  }

  lemma AddZero(a: Fe)
    ensures Add(a, Zero) == a && Add(Zero, a) == a
  {
  }

  /** (a + b) * c = a * c + b * c. */
  lemma DistribRight(a: Fe, b: Fe, c: Fe)
    ensures Mul(Add(a, b), c) == Add(Mul(a, c), Mul(b, c))
  {
    Distrib(c, a, b);
    assert Mul(Add(a, b), c) == Mul(c, Add(a, b));
    assert Mul(a, c) == Mul(c, a) && Mul(b, c) == Mul(c, b);
  }

  /** Subtraction undoes addition, and addition undoes subtraction. */
  lemma AddSubCancel(a: Fe, b: Fe)
    ensures Sub(Add(a, b), b) == a
    ensures Add(Sub(a, b), b) == a
  {
    OfFe(a); OfFe(b);
    AddOf(a, b);
    SubOf(a + b, b);
    SubOf(a, b);
    AddOf(a - b, b);
  }

  /** Division by a non-zero element undoes multiplication by it, and conversely. */
  lemma MulDivCancel(a: Fe, b: Fe)
    requires b != Zero
    ensures Div(Mul(a, b), b) == a
    ensures Mul(Div(a, b), b) == a
  {
    var ib := Inv(b);
    calc {
      Div(Mul(a, b), b);
      Mul(Mul(a, b), ib);
      { MulAssoc(a, b, ib); }
      Mul(a, Mul(b, ib));
      { MulOne(a); }
      a;
    }
    calc {
      Mul(Div(a, b), b);
      Mul(Mul(a, ib), b);
      { MulAssoc(a, ib, b); assert Mul(ib, b) == Mul(b, ib); }
      Mul(a, Mul(b, ib));
      { MulOne(a); }
      a;
    }
  }

  /** With t = 1/(s*z): t*s is 1/z and t*z is 1/s. */
  lemma PeelInverse(t: Fe, s: Fe, z: Fe)
    requires z != Zero && Mul(t, Mul(s, z)) == One
    ensures Mul(t, s) == Inv(z)
    ensures Mul(Mul(t, z), s) == One
  {
    MulAssoc(t, s, z);
    MulAssoc(t, z, s);
    assert Mul(s, z) == Mul(z, s);
    assert Mul(z, Mul(t, s)) == Mul(Mul(t, s), z);
    InvUnique(z, Mul(t, s), Inv(z));
  }
}
