/** Variable-base multi-scalar multiplication by buckets
    (algorithms/src/msm/variable_base/standard.rs).

    The algorithm never looks inside a point: it only adds points, doubles
    them and starts from zero. Its correctness is therefore a statement about
    any commutative group, and this module instantiates the group as the
    integers under addition (a point is an `int`, `add_assign` and
    `add_assign_mixed` are `+`, `double_in_place` is `x + x`, `zero()` is 0).
    Scalars are the big integers of the scalar field's representation, as
    `nat`. With that, the result is provably the sum of scalar_i * base_i. */
module Msm {
  import opened ModArith

  // ---- Powers of two and base-2^c digits ----

  function Pow2(n: nat): (r: nat)
    ensures r >= 1
  {
    if n == 0 then 1 else 2 * Pow2(n - 1)
  }

  lemma {:induction false} Pow2Add(a: nat, b: nat)
    ensures Pow2(a + b) == Pow2(a) * Pow2(b)
  {
    if a > 0 {
      Pow2Add(a - 1, b);
      assert Pow2(a + b) == 2 * Pow2(a - 1 + b);
    }
  }

  lemma Pow2Mono(a: nat, b: nat)
    requires a <= b
    ensures Pow2(a) <= Pow2(b)
  {
    Pow2Add(a, b - a);
    MulLe(1, Pow2(b - a), Pow2(a));
  }

  lemma MulLe(a: int, b: int, k: int)
    requires a <= b && k >= 0
    ensures a * k <= b * k
  {
    assert b * k - a * k == (b - a) * k;
  }

  /** If 0 <= r < pa and 0 <= r2 < pb then 0 <= r2 * pa + r < pa * pb. */
  lemma MixedRadixBound(r: int, r2: int, pa: int, pb: int)
    requires 0 <= r < pa && 0 <= r2 < pb
    ensures 0 <= r2 * pa + r < pa * pb
  {
    MulLe(r2, pb - 1, pa);
    assert (pb - 1) * pa == pb * pa - pa;
  }

  /** Two-level Euclidean division: x = q2 * (pa * pb) + (r2 * pa + r1). */
  lemma DivDivGeneral(x: int, pa: int, pb: int)
    requires pa > 0 && pb > 0
    ensures x / pa / pb == x / (pa * pb)
    ensures x / pa % pb * pa + x % pa == x % (pa * pb)
  {
    var q1, r1 := x / pa, x % pa;
    var q2, r2 := q1 / pb, q1 % pb;
    assert x == q2 * (pa * pb) + (r2 * pa + r1) by {
      assert x == q1 * pa + r1;
      assert q1 == q2 * pb + r2;
      assert q1 * pa == q2 * pb * pa + r2 * pa;
    }
    MixedRadixBound(r1, r2, pa, pb);
    ModUnique(x, pa * pb, q2, r2 * pa + r1);
  }

  /** Shifting right by a bits and then by b bits is shifting by a + b bits. */
  lemma DivDiv(x: nat, a: nat, b: nat)
    ensures x / Pow2(a) / Pow2(b) == x / Pow2(a + b)
  {
    Pow2Add(a, b);
    DivDivGeneral(x, Pow2(a), Pow2(b));
  }

  /** The low c bits and the next m bits of x together are its low c + m bits. */
  lemma DigitSplit(x: nat, c: nat, m: nat)
    ensures x % Pow2(c) + Pow2(c) * (x / Pow2(c) % Pow2(m)) == x % Pow2(c + m)
  {
    Pow2Add(c, m);
    DivDivGeneral(x, Pow2(c), Pow2(m));
  }

  /** Reducing mod pa * pb first does not change the residue mod pa. */
  lemma ModModGeneral(x: int, pa: int, pb: int)
    requires pa > 0 && pb > 0
    ensures x % (pa * pb) % pa == x % pa
  {
    var q, r := x / (pa * pb), x % (pa * pb);
    assert x == (q * pb) * pa + r by {
      assert x == q * (pa * pb) + r;
    }
    ModShift(q * pb, r, pa);
  }

  /** 2^64: a 64-bit limb holds the residue of a big integer modulo this. */
  const LIMB: nat := 0x1_0000_0000_0000_0000

  lemma Pow2Limb()
    ensures Pow2(64) == LIMB
  {
    assert Pow2(8) == 0x100;
    Pow2Add(8, 8);
    assert Pow2(16) == 0x1_0000;
    Pow2Add(16, 16);
    assert Pow2(32) == 0x1_0000_0000;
    Pow2Add(32, 32);
    assert Pow2(64) == 0x1_0000_0000 * 0x1_0000_0000;
  }

  /** Reducing mod 2^64 first does not change the low c <= 64 bits. */
  lemma LowBits(x: nat, c: nat)
    requires c <= 64
    ensures x % LIMB % Pow2(c) == x % Pow2(c)
  {
    Pow2Limb();
    Pow2Add(c, 64 - c);
    ModModGeneral(x, Pow2(c), Pow2(64 - c));
  }

  // ---- The window of a scalar ----

  /** `update_buckets`' window value: the scalar shifted right by `wStart`
      bits (`divn`), its lowest 64-bit limb (`as_ref()[0]`), reduced mod 2^c. */
  function Window(scalar: nat, wStart: nat, c: nat): nat {
    scalar / Pow2(wStart) % LIMB % Pow2(c)
  }

  /** The window value is the base-2^c digit of the scalar starting at bit
      `wStart`, and it indexes the 2^c - 1 buckets shifted by one. */
  lemma WindowIsDigit(scalar: nat, wStart: nat, c: nat)
    requires c <= 64
    ensures Window(scalar, wStart, c) == scalar / Pow2(wStart) % Pow2(c)
    ensures Window(scalar, wStart, c) < Pow2(c)
  {
    var q, m := scalar / Pow2(wStart), Pow2(c);
    LowBits(q, c);
    assert Window(scalar, wStart, c) == q % LIMB % m;
  }

  /** Scalars 0 and 1 have no set bit at or above bit c >= 1: all their
      windows but the lowest are zero, and in the lowest, 1 is the digit 1. */
  lemma SmallScalarWindows(scalar: nat, wStart: nat, c: nat)
    requires scalar <= 1 && 1 <= c <= 64
    ensures wStart > 0 ==> Window(scalar, wStart, c) == 0
    ensures wStart == 0 ==> Window(scalar, wStart, c) == scalar
  {
    WindowIsDigit(scalar, wStart, c);
    assert Pow2(c) == 2 * Pow2(c - 1);
    if wStart > 0 {
      assert Pow2(wStart) == 2 * Pow2(wStart - 1);
      SmallDivMod(scalar, Pow2(wStart));
      SmallDivMod(0, Pow2(c));
    } else {
      SmallDivMod(scalar, Pow2(c));
    }
  }

  /** A number below the divisor is its own remainder and has quotient 0. */
  lemma SmallDivMod(x: int, m: int)
    requires 0 <= x < m
    ensures x / m == 0 && x % m == x
  {
    ModUnique(x, m, 0, x);
  }

  // ---- Sums over the pairs of `zip(scalars, bases)` ----

  function Min(a: nat, b: nat): nat {
    if a <= b then a else b
  }

  /** The value the MSM computes: sum of scalar_i * base_i over the first n pairs. */
  function Dot(bases: seq<int>, scalars: seq<nat>, n: nat): int
    requires n <= |bases| && n <= |scalars|
  {
    if n == 0 then 0 else Dot(bases, scalars, n - 1) + scalars[n - 1] * bases[n - 1]
  }

  /** Sum of (the m-bit field of scalar_i starting at bit w) * base_i. */
  function DotBits(bases: seq<int>, scalars: seq<nat>, n: nat, w: nat, m: nat): int
    requires n <= |bases| && n <= |scalars|
  {
    if n == 0 then 0
    else DotBits(bases, scalars, n - 1, w, m) + (scalars[n - 1] / Pow2(w) % Pow2(m)) * bases[n - 1]
  }

  /** Sum of window(scalar_i) * base_i: what one window contributes. */
  function WindowValue(bases: seq<int>, scalars: seq<nat>, n: nat, w: nat, c: nat): int
    requires n <= |bases| && n <= |scalars|
  {
    if n == 0 then 0
    else WindowValue(bases, scalars, n - 1, w, c) + Window(scalars[n - 1], w, c) * bases[n - 1]
  }

  /** The bases whose scalar is exactly one. */
  function UnitPart(bases: seq<int>, scalars: seq<nat>, n: nat): int
    requires n <= |bases| && n <= |scalars|
  {
    if n == 0 then 0
    else UnitPart(bases, scalars, n - 1) + (if scalars[n - 1] == 1 then bases[n - 1] else 0)
  }

  /** Sum of window(scalar_i) * base_i over the scalars greater than one. */
  function BucketPart(bases: seq<int>, scalars: seq<nat>, n: nat, w: nat, c: nat): int
    requires n <= |bases| && n <= |scalars|
  {
    if n == 0 then 0
    else
      BucketPart(bases, scalars, n - 1, w, c) +
      (if scalars[n - 1] > 1 then Window(scalars[n - 1], w, c) * bases[n - 1] else 0)
  }

  /** What bucket v - 1 holds after the second loop of `process_window`: the
      sum of the bases whose scalar is greater than one and whose window is v. */
  function BucketSum(bases: seq<int>, scalars: seq<nat>, n: nat, w: nat, c: nat, v: nat): int
    requires n <= |bases| && n <= |scalars|
  {
    if n == 0 then 0
    else
      BucketSum(bases, scalars, n - 1, w, c, v) +
      (if scalars[n - 1] > 1 && Window(scalars[n - 1], w, c) == v then bases[n - 1] else 0)
  }

  /** Unit scalars handled directly in the first window plus the bucketed
      scalars give the whole window: zero and one contribute nothing to any
      other window, and zero nothing to the first. */
  lemma {:induction false} WindowParts(bases: seq<int>, scalars: seq<nat>, n: nat, w: nat, c: nat)
    requires n <= |bases| && n <= |scalars| && 1 <= c <= 64
    ensures (if w == 0 then UnitPart(bases, scalars, n) else 0) + BucketPart(bases, scalars, n, w, c)
         == WindowValue(bases, scalars, n, w, c)
  {
    if n > 0 {
      WindowParts(bases, scalars, n - 1, w, c);
      if scalars[n - 1] <= 1 {
        SmallScalarWindows(scalars[n - 1], w, c);
      }
    }
  }

  /** With c <= 64 a window is exactly the c-bit field at w. */
  lemma {:induction false} WindowValueIsBits(bases: seq<int>, scalars: seq<nat>, n: nat, w: nat, c: nat)
    requires n <= |bases| && n <= |scalars| && c <= 64
    ensures WindowValue(bases, scalars, n, w, c) == DotBits(bases, scalars, n, w, c)
  {
    if n > 0 {
      WindowValueIsBits(bases, scalars, n - 1, w, c);
      WindowIsDigit(scalars[n - 1], w, c);
    }
  }

  /** The c-bit fields at w plus 2^c times the m-bit fields at w + c are the
      (c + m)-bit fields at w. */
  lemma {:induction false} DotBitsSplit(bases: seq<int>, scalars: seq<nat>, n: nat, w: nat, c: nat, m: nat)
    requires n <= |bases| && n <= |scalars|
    ensures DotBits(bases, scalars, n, w, c) + Pow2(c) * DotBits(bases, scalars, n, w + c, m)
         == DotBits(bases, scalars, n, w, c + m)
  {
    if n > 0 {
      DotBitsSplit(bases, scalars, n - 1, w, c, m);
      var s := scalars[n - 1];
      var x := s / Pow2(w);
      DivDiv(s, w, c);
      DigitSplit(x, c, m);
      Combine(DotBits(bases, scalars, n - 1, w, c), DotBits(bases, scalars, n - 1, w + c, m),
              DotBits(bases, scalars, n - 1, w, c + m), x % Pow2(c), x / Pow2(c) % Pow2(m),
              x % Pow2(c + m), Pow2(c), bases[n - 1]);
    }
  }

  /** The step of the split: one more term on each side keeps the identity. */
  lemma Combine(a: int, b: int, c: int, lo: int, hi: int, full: int, p: int, base: int)
    requires a + p * b == c && full == lo + p * hi
    ensures (a + lo * base) + p * (b + hi * base) == c + full * base
  {
    assert p * (b + hi * base) == p * b + p * hi * base;
    assert full * base == lo * base + p * hi * base;
  }

  /** When every scalar fits in m bits, the m-bit fields at 0 are the scalars. */
  lemma {:induction false} DotBitsFull(bases: seq<int>, scalars: seq<nat>, n: nat, m: nat)
    requires n <= |bases| && n <= |scalars|
    requires forall i :: 0 <= i < n ==> scalars[i] < Pow2(m)
    ensures DotBits(bases, scalars, n, 0, m) == Dot(bases, scalars, n)
  {
    if n > 0 {
      DotBitsFull(bases, scalars, n - 1, m);
      SmallDivMod(scalars[n - 1], Pow2(m));
    }
  }

  /** No pairs, or only zero scalars, give the identity. */
  lemma {:induction false} DotOfZeros(bases: seq<int>, scalars: seq<nat>, n: nat)
    requires n <= |bases| && n <= |scalars|
    requires forall i :: 0 <= i < n ==> scalars[i] == 0
    ensures Dot(bases, scalars, n) == 0
  {
    if n > 0 {
      DotOfZeros(bases, scalars, n - 1);
    }
  }

  // ---- Buckets and the running-sum scan ----

  function Sum(b: seq<int>): int {
    if b == [] then 0 else b[0] + Sum(b[1..])
  }

  /** The total of the running sums b[k] + ... + b[|b| - 1], taken from the
      top bucket down, which is what the `scan` adds into the result. */
  function RunningSums(b: seq<int>): int {
    if b == [] then 0 else Sum(b) + RunningSums(b[1..])
  }

  /** Sum of (k + 1) * b[k]: bucket k holds the bases whose window is k + 1. */
  function IndexWeighted(b: seq<int>): int {
    if b == [] then 0 else IndexWeighted(b[..|b| - 1]) + |b| * b[|b| - 1]
  }

  lemma {:induction false} SumSnoc(b: seq<int>, x: int)
    ensures Sum(b + [x]) == Sum(b) + x
  {
    if b != [] {
      assert (b + [x])[1..] == b[1..] + [x];
      SumSnoc(b[1..], x);
    }
  }

  lemma {:induction false} IndexWeightedFront(b: seq<int>)
    requires b != []
    ensures IndexWeighted(b) == Sum(b) + IndexWeighted(b[1..])
    decreases |b|
  {
    if |b| == 1 {
      assert b[1..] == [];
      assert b[..0] == [];
    } else {
      var init, x, n := b[..|b| - 1], b[|b| - 1], |b|;
      IndexWeightedFront(init);
      assert b == init + [x];
      SumSnoc(init, x);
      assert b[1..] == init[1..] + [x];
      assert b[1..][..|b[1..]| - 1] == init[1..];
      assert IndexWeighted(b) == IndexWeighted(init) + n * x;
      assert IndexWeighted(b[1..]) == IndexWeighted(init[1..]) + (n - 1) * x;
      MulPred(n, x);
    }
  }

  lemma MulPred(n: int, x: int)
    ensures n * x == (n - 1) * x + x
  {
  }

  /** The scan's running sums, added up, weigh bucket k by k + 1. */
  lemma {:induction false} RunningSumsAreIndexWeighted(b: seq<int>)
    ensures RunningSums(b) == IndexWeighted(b)
  {
    if b != [] {
      RunningSumsAreIndexWeighted(b[1..]);
      IndexWeightedFront(b);
    }
  }

  /** Adding x to bucket j adds (j + 1) * x to the weighted total. */
  lemma {:induction false} IndexWeightedUpdate(b: seq<int>, j: nat, x: int)
    requires j < |b|
    ensures IndexWeighted(b[j := b[j] + x]) == IndexWeighted(b) + (j + 1) * x
  {
    var b' := b[j := b[j] + x];
    if j == |b| - 1 {
      assert b'[..|b'| - 1] == b[..|b| - 1];
    } else {
      assert b'[..|b'| - 1] == b[..|b| - 1][j := b[j] + x];
      IndexWeightedUpdate(b[..|b| - 1], j, x);
    }
  }

  // ---- The source's functions ----

  /** `update_buckets`: the base goes into bucket window - 1 when the window
      is not zero; no other bucket changes. */
  method UpdateBuckets(base: int, scalar: nat, wStart: nat, c: nat, buckets: array<int>)
    requires 1 <= c < 64 && buckets.Length == Pow2(c) - 1
    modifies buckets
    ensures Window(scalar, wStart, c) == 0 ==> buckets[..] == old(buckets[..])
    ensures Window(scalar, wStart, c) != 0 ==>
      buckets[..] == old(buckets[..])[Window(scalar, wStart, c) - 1 := old(buckets[Window(scalar, wStart, c) - 1]) + base]
  {
    var v := Window(scalar, wStart, c);
    WindowIsDigit(scalar, wStart, c);
    if v != 0 {
      buckets[v - 1] := buckets[v - 1] + base;
    }
  }

  /** `process_window`: the contribution of the window starting at bit
      `wStart`, computed with unit scalars added directly (first window only),
      2^c - 1 buckets for the larger scalars, and the reverse running sum. */
  method ProcessWindow(bases: seq<int>, scalars: seq<nat>, wStart: nat, c: nat) returns (res: int)
    requires 1 <= c < 64
    ensures res == WindowValue(bases, scalars, Min(|bases|, |scalars|), wStart, c)
  {
    var n := Min(|bases|, |scalars|);
    res := 0;
    if wStart == 0 {
      res := AddUnits(bases, scalars, n);
    }
    var buckets := new int[Pow2(c) - 1](_ => 0);
    FillBuckets(bases, scalars, n, wStart, c, buckets);
    var scanned := ScanBuckets(buckets);
    res := res + scanned;
    WindowParts(bases, scalars, n, wStart, c);
  }

  /** The first loop of `process_window`: the bases whose scalar is one. */
  method AddUnits(bases: seq<int>, scalars: seq<nat>, n: nat) returns (res: int)
    requires n <= |bases| && n <= |scalars|
    ensures res == UnitPart(bases, scalars, n)
  {
    res := 0;
    var i := 0;
    while i < n
      invariant 0 <= i <= n
      invariant res == UnitPart(bases, scalars, i)
    {
      if scalars[i] == 1 {
        res := res + bases[i];
      }
      i := i + 1;
    }
  }

  /** The second loop of `process_window`: every scalar greater than one
      puts its base into the bucket of its window, so that the buckets,
      weighted by window value, hold the bucketed part of the window, and
      bucket k holds exactly the bases whose window is k + 1. */
  method FillBuckets(bases: seq<int>, scalars: seq<nat>, n: nat, wStart: nat, c: nat, buckets: array<int>)
    requires n <= |bases| && n <= |scalars|
    requires 1 <= c < 64 && buckets.Length == Pow2(c) - 1
    requires forall k :: 0 <= k < buckets.Length ==> buckets[k] == 0
    modifies buckets
    ensures forall k :: 0 <= k < buckets.Length ==> buckets[k] == BucketSum(bases, scalars, n, wStart, c, k + 1)
    ensures IndexWeighted(buckets[..]) == BucketPart(bases, scalars, n, wStart, c)
  {
    ZeroBuckets(buckets[..]);
    var i := 0;
    while i < n
      invariant 0 <= i <= n
      invariant Filled(buckets[..], bases, scalars, i, wStart, c)
      invariant IndexWeighted(buckets[..]) == BucketPart(bases, scalars, i, wStart, c)
    {
      ghost var before := buckets[..];
      if scalars[i] > 1 {
        UpdateBuckets(bases[i], scalars[i], wStart, c, buckets);
      }
      FillStep(bases, scalars, i, wStart, c, before, buckets[..]);
      i := i + 1;
    }
  }

  /** Bucket k holds the bases whose window is k + 1, among the first n. */
  ghost predicate Filled(b: seq<int>, bases: seq<int>, scalars: seq<nat>, n: nat, w: nat, c: nat)
    requires n <= |bases| && n <= |scalars|
  {
    forall k :: 0 <= k < |b| ==> b[k] == BucketSum(bases, scalars, n, w, c, k + 1)
  }

  /** One iteration of the bucket loop: `update_buckets` on scalar i (when it
      is greater than one) extends both the per-bucket contents and the
      weighted total from the first i pairs to the first i + 1. */
  lemma FillStep(bases: seq<int>, scalars: seq<nat>, i: nat, w: nat, c: nat, before: seq<int>, after: seq<int>)
    requires i < |bases| && i < |scalars|
    requires 1 <= c <= 64 && |before| == Pow2(c) - 1
    requires Filled(before, bases, scalars, i, w, c)
    requires IndexWeighted(before) == BucketPart(bases, scalars, i, w, c)
    requires after == if scalars[i] > 1 && Window(scalars[i], w, c) != 0
                      then before[Window(scalars[i], w, c) - 1 := before[Window(scalars[i], w, c) - 1] + bases[i]]
                      else before
    ensures Filled(after, bases, scalars, i + 1, w, c)
    ensures IndexWeighted(after) == BucketPart(bases, scalars, i + 1, w, c)
  {
    var v := Window(scalars[i], w, c);
    WindowIsDigit(scalars[i], w, c);
    if scalars[i] > 1 && v != 0 {
      IndexWeightedUpdate(before, v - 1, bases[i]);
    }
  }


  /** The `scan` of `process_window`: running sums from the top bucket down,
      each added to the result; bucket k is counted k + 1 times. */
  method ScanBuckets(buckets: array<int>) returns (res: int)
    ensures res == IndexWeighted(buckets[..])
  {
    res := 0;
    var sum := 0;
    var k := buckets.Length;
    while k > 0
      invariant 0 <= k <= buckets.Length
      invariant sum == Sum(buckets[k..])
      invariant res == RunningSums(buckets[k..])
    {
      k := k - 1;
      assert buckets[k..][1..] == buckets[k + 1..];
      sum := sum + buckets[k];
      res := res + sum;
    }
    assert buckets[0..] == buckets[..];
    RunningSumsAreIndexWeighted(buckets[..]);
  }

  lemma {:induction false} ZeroBuckets(b: seq<int>)
    requires forall k :: 0 <= k < |b| ==> b[k] == 0
    ensures IndexWeighted(b) == 0
  {
    if b != [] {
      ZeroBuckets(b[..|b| - 1]);
    }
  }

  /** The window size: 3 below 32 scalars; otherwise the source's
      floating-point formula, whose value is the parameter `cLarge`. */
  function WindowSize(numScalars: nat, cLarge: nat): (c: nat)
    ensures numScalars < 32 ==> c == 3
    ensures numScalars >= 32 ==> c == cLarge
    ensures 1 <= cLarge < 64 ==> 1 <= c < 64
  {
    if numScalars < 32 then 3 else cLarge
  }

  /** Horner evaluation in base 2^c: ws[0] + 2^c * ws[1] + 2^(2c) * ws[2] + ... */
  function Radix(ws: seq<int>, c: nat): int {
    if ws == [] then 0 else ws[0] + Pow2(c) * Radix(ws[1..], c)
  }

  /** Window sums combined in base 2^c are the fields of k*c bits. */
  lemma {:induction false} RadixOfWindows(bases: seq<int>, scalars: seq<nat>, n: nat, w: nat, c: nat, ws: seq<int>)
    requires n <= |bases| && n <= |scalars|
    requires forall t :: 0 <= t < |ws| ==> ws[t] == DotBits(bases, scalars, n, w + t * c, c)
    ensures Radix(ws, c) == DotBits(bases, scalars, n, w, |ws| * c)
    decreases |ws|
  {
    if ws == [] {
      ZeroBits(bases, scalars, n, w);
    } else {
      var rest, m := ws[1..], |ws| - 1;
      forall t | 0 <= t < |rest|
        ensures rest[t] == DotBits(bases, scalars, n, (w + c) + t * c, c)
      {
        MulPred(t + 1, c);
      }
      RadixOfWindows(bases, scalars, n, w + c, c, rest);
      DotBitsSplit(bases, scalars, n, w, c, m * c);
      MulPred(m + 1, c);
      assert ws[0] == DotBits(bases, scalars, n, w, c);
    }
  }

  lemma {:induction false} ZeroBits(bases: seq<int>, scalars: seq<nat>, n: nat, w: nat)
    requires n <= |bases| && n <= |scalars|
    ensures DotBits(bases, scalars, n, w, 0) == 0
  {
    if n > 0 {
      ZeroBits(bases, scalars, n - 1, w);
    }
  }

  /** `msm_standard`: window sums for the starts 0, c, 2c, ... below
      `numBits` (MODULUS_BITS), folded from the highest window down, adding
      each and doubling c times, then adding the lowest. The result is the
      sum of scalar_i * base_i over the pairs `zip` forms, for any window size. */
  method MsmStandard(bases: seq<int>, scalars: seq<nat>, numBits: nat, cLarge: nat) returns (res: int)
    requires numBits >= 1 && 1 <= cLarge < 64
    requires forall i :: 0 <= i < |scalars| ==> scalars[i] < Pow2(numBits)
    ensures res == Dot(bases, scalars, Min(|bases|, |scalars|))
  {
    var n := Min(|bases|, |scalars|);
    var c := WindowSize(|scalars|, cLarge);
    var windowSums: seq<int> := [];
    var wStart := 0;
    while wStart < numBits
      invariant wStart == |windowSums| * c
      invariant forall t :: 0 <= t < |windowSums| ==>
        windowSums[t] == DotBits(bases, scalars, n, 0 + t * c, c)
      decreases numBits - wStart
    {
      var s := ProcessWindow(bases, scalars, wStart, c);
      WindowValueIsBits(bases, scalars, n, wStart, c);
      assert (|windowSums| + 1) * c == wStart + c;
      windowSums := windowSums + [s];
      wStart := wStart + c;
    }
    var k := |windowSums|;
    assert k >= 1;
    RadixOfWindows(bases, scalars, n, 0, c, windowSums);
    res := FoldWindows(windowSums, c);
    Pow2Mono(numBits, wStart);
    DotBitsFull(bases, scalars, n, wStart);
  }

  /** The end of `msm_standard`: `split_first`, then a fold over the other
      window sums from the highest down (add, then double c times), plus the
      lowest: the window sums read as digits in base 2^c. */
  method FoldWindows(windowSums: seq<int>, c: nat) returns (res: int)
    requires |windowSums| >= 1
    ensures res == Radix(windowSums, c)
  {
    var lowest, rest := windowSums[0], windowSums[1..];
    var total := 0;
    var j := |rest|;
    while j > 0
      invariant 0 <= j <= |rest|
      invariant total == Pow2(c) * Radix(rest[j..], c)
    {
      j := j - 1;
      ghost var r := Radix(rest[j + 1..], c);
      total := total + rest[j];
      total := DoubleTimes(total, c);
      assert rest[j..][1..] == rest[j + 1..];
      assert (rest[j] + Pow2(c) * r) * Pow2(c) == Pow2(c) * (rest[j] + Pow2(c) * r);
    }
    assert rest[0..] == rest;
    res := total + lowest;
  }

  /** The fold's inner loop: `double_in_place` c times multiplies by 2^c. */
  method DoubleTimes(x: int, c: nat) returns (r: int)
    ensures r == x * Pow2(c)
  {
    r := x;
    var t := 0;
    while t < c
      invariant 0 <= t <= c
      invariant r == x * Pow2(t)
    {
      r := r + r;
      assert x * Pow2(t + 1) == x * Pow2(t) + x * Pow2(t);
      t := t + 1;
    }
  }

  /** Empty input, or only zero scalars, give the identity. */
  lemma MsmOfNothing(bases: seq<int>, scalars: seq<nat>)
    requires forall i :: 0 <= i < |scalars| ==> scalars[i] == 0
    ensures Dot(bases, scalars, Min(|bases|, |scalars|)) == 0
  {
    DotOfZeros(bases, scalars, Min(|bases|, |scalars|));
  }
}
