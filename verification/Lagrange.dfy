/** Lagrange interpolation at 0 over the integers modulo a prime. */
module Lagrange {
  import opened NumberTheory
  import opened Sums

  /** c[0] + c[1] x + c[2] x^2 + ... */
  function Eval(c: seq<int>, x: int): int {
    if c == [] then 0 else c[0] + x * Eval(c[1..], x)
  }

  /** The product of fs[j] over all j < n other than i. */
  function ProductExcept(fs: seq<int>, i: int, n: nat): int
    requires n <= |fs|
  {
    if n == 0 then 1
    else if n - 1 == i then ProductExcept(fs, i, n - 1)
    else ProductExcept(fs, i, n - 1) * fs[n - 1]
  }

  function Negated(xs: seq<int>): (r: seq<int>)
    ensures |r| == |xs|
  {
    seq(|xs|, j requires 0 <= j < |xs| => -xs[j])
  }

  function Differences(xs: seq<int>, x: int): (r: seq<int>)
    ensures |r| == |xs|
  {
    seq(|xs|, j requires 0 <= j < |xs| => x - xs[j])
  }

  /** Numerator and denominator of the i-th Lagrange coefficient at 0. */
  function Num(xs: seq<int>, i: nat): int {
    ProductExcept(Negated(xs), i, |xs|)
  }

  function Den(xs: seq<int>, i: nat): int
    requires i < |xs|
  {
    ProductExcept(Differences(xs, xs[i]), i, |xs|)
  }

  ghost predicate DistinctMod(xs: seq<int>, p: int)
    requires p > 0
  {
    forall i, j :: 0 <= i < |xs| && 0 <= j < |xs| && i != j ==> (xs[i] - xs[j]) % p != 0
  }

  /** w holds, for every point, a number that behaves as numerator over denominator. */
  ghost predicate Weights(xs: seq<int>, w: seq<int>, p: int)
    requires p > 0
  {
    |w| == |xs| && forall i :: 0 <= i < |xs| ==> Cong(w[i] * Den(xs, i), Num(xs, i), p)
  }

  // ---- leaving out one point ----------------------------------------------

  function Skip(t: int, i: int): int { if i < t then i else i + 1 }

  function Without(xs: seq<int>, t: nat): (r: seq<int>)
    requires t < |xs|
    ensures |r| == |xs| - 1 && forall i :: 0 <= i < |r| ==> r[i] == xs[Skip(t, i)]
  {
    xs[..t] + xs[t + 1..]
  }

  lemma {:induction false} ProductWithout(fs: seq<int>, t: nat, i: int, n: nat)
    requires t < |fs| && n <= |fs| && 0 <= i < |fs| - 1
    ensures ProductExcept(fs, Skip(t, i), n)
         == if n <= t then ProductExcept(Without(fs, t), i, n)
            else ProductExcept(Without(fs, t), i, n - 1) * fs[t]
  {
    if n > 0 {
      ProductWithout(fs, t, i, n - 1);
      if n - 1 > t && n - 1 != Skip(t, i) {
        var a, b := ProductExcept(Without(fs, t), i, n - 2), fs[n - 1];
        assert Without(fs, t)[n - 2] == b;
        MulOrder(a, fs[t], b);
      }
    }
  }

  lemma MulOrder(a: int, b: int, c: int)
    ensures a * b * c == a * c * b
  {
  }

  lemma {:induction false} SumWithout(g: Fn, h: Fn, t: nat, n: nat)
    requires g(t) == 0 && forall i :: h(i) == g(Skip(t, i))
    ensures Sum(g, 0, n) == if n <= t then Sum(h, 0, n) else Sum(h, 0, n - 1)
  {
    if n > 0 {
      SumWithout(g, h, t, n - 1);
      if n - 1 < t {
        assert h(n - 1) == g(n - 1);
      } else if n - 1 > t {
        assert h(n - 2) == g(n - 1);
      }
    }
  }

  lemma NumWithout(xs: seq<int>, t: nat, i: nat)
    requires t < |xs| && i < |xs| - 1
    ensures Num(xs, Skip(t, i)) == Num(Without(xs, t), i) * -xs[t]
  {
    ProductWithout(Negated(xs), t, i, |xs|);
    assert Without(Negated(xs), t) == Negated(Without(xs, t));
  }

  lemma DenWithout(xs: seq<int>, t: nat, i: nat)
    requires t < |xs| && i < |xs| - 1
    ensures Den(xs, Skip(t, i)) == Den(Without(xs, t), i) * (xs[Skip(t, i)] - xs[t])
  {
    var x := xs[Skip(t, i)];
    ProductWithout(Differences(xs, x), t, i, |xs|);
    assert Without(Differences(xs, x), t) == Differences(Without(xs, t), x);
  }

  lemma {:induction false} DenNonzero(xs: seq<int>, i: nat, n: nat, p: int)
    requires Prime(p) && DistinctMod(xs, p) && i < |xs| && n <= |xs|
    ensures ProductExcept(Differences(xs, xs[i]), i, n) % p != 0
  {
    if n == 0 {
      RemainderUnique(1, 0, 1, p);
    } else {
      DenNonzero(xs, i, n - 1, p);
      if n - 1 != i {
        PrimeNoZeroDivisors(p, ProductExcept(Differences(xs, xs[i]), i, n - 1), xs[i] - xs[n - 1]);
      }
    }
  }

  /** Weights exist for every list of distinct points. */
  function FermatWeights(xs: seq<int>, p: int): (w: seq<int>)
    requires p >= 2
    ensures |w| == |xs|
  {
    seq(|xs|, i requires 0 <= i < |xs| => Num(xs, i) * Pow(Den(xs, i), p - 2))
  }

  lemma InverseGivesWeight(num: int, den: int, inv: int, w: int, p: int)
    requires p > 0 && Cong(inv * den, 1, p) && Cong(w, num * inv, p)
    ensures Cong(w * den, num, p)
  {
    CongRefl(den, p);
    CongRefl(num, p);
    CongMul(w, num * inv, den, den, p);
    CongMul(num, num, inv * den, 1, p);
    MulAssoc(num, inv, den);
    CongTrans(w * den, num * inv * den, num, p);
  }

  lemma FermatWeightsCorrect(xs: seq<int>, p: int)
    requires Prime(p) && DistinctMod(xs, p)
    ensures Weights(xs, FermatWeights(xs, p), p)
  {
    var w := FermatWeights(xs, p);
    forall i | 0 <= i < |xs| ensures Cong(w[i] * Den(xs, i), Num(xs, i), p) {
      DenNonzero(xs, i, |xs|, p);
      FermatInverse(Den(xs, i), p);
      CongRefl(w[i], p);
      InverseGivesWeight(Num(xs, i), Den(xs, i), Pow(Den(xs, i), p - 2), w[i], p);
    }
  }

  lemma DistinctWithout(xs: seq<int>, t: nat, p: int)
    requires p > 0 && t < |xs| && DistinctMod(xs, p)
    ensures DistinctMod(Without(xs, t), p)
  {
  }

  // ---- synthetic division -------------------------------------------------

  /** The quotient of c(x) - c(a) by x - a. */
  function Quotient(c: seq<int>, a: int): (q: seq<int>)
    ensures |q| == if |c| == 0 then 0 else |c| - 1
  {
    if |c| <= 1 then [] else [Eval(c[1..], a)] + Quotient(c[1..], a)
  }

  lemma DivisionStep(c0: int, x: int, a: int, cx: int, ca: int, qx: int)
    requires cx - ca == (x - a) * qx
    ensures (c0 + x * cx) - (c0 + a * ca) == (x - a) * (ca + x * qx)
  {
    calc {
      (c0 + x * cx) - (c0 + a * ca);
      x * (cx - ca) + (x - a) * ca;
      x * ((x - a) * qx) + (x - a) * ca;
      { MulRotate(x, x - a, qx); }
      (x - a) * (x * qx) + (x - a) * ca;
      (x - a) * (ca + x * qx);
    }
  }

  lemma MulRotate(x: int, y: int, z: int)
    ensures x * (y * z) == y * (x * z)
  {
  }

  lemma {:induction false} Division(c: seq<int>, a: int, x: int)
    ensures Eval(c, x) - Eval(c, a) == (x - a) * Eval(Quotient(c, a), x)
  {
    if |c| == 1 {
      assert c[1..] == [];
    } else if |c| > 1 {
      Division(c[1..], a, x);
      var q := Quotient(c, a);
      assert q[1..] == Quotient(c[1..], a);
      DivisionStep(c[0], x, a, Eval(c[1..], x), Eval(c[1..], a), Eval(q[1..], x));
    }
  }

  // ---- interpolation ------------------------------------------------------

  function Weighted(xs: seq<int>, w: seq<int>, c: seq<int>): Fn {
    i => if 0 <= i < |xs| && i < |w| then w[i] * Eval(c, xs[i]) else 0
  }

  /** sum of w[i] c(xs[i]) */
  function Interpolate(xs: seq<int>, w: seq<int>, c: seq<int>): int {
    Sum(Weighted(xs, w, c), 0, |xs|)
  }

  function Shifted(xs: seq<int>, w: seq<int>, a: int, c: seq<int>): Fn {
    i => if 0 <= i < |xs| && i < |w| then w[i] * ((xs[i] - a) * Eval(c, xs[i])) else 0
  }

  lemma CancelFactor(p: int, x: int, y: int, d: int, f: int, n: int, m: int)
    requires Prime(p) && d % p != 0 && Cong(x * (d * f), n * m, p) && Cong(y * d, n, p)
    ensures Cong(x * f, y * m, p)
  {
    hide Cong;
    CongRefl(m, p);
    CongMul(y * d, n, m, m, p);
    CongSym(y * d * m, n * m, p);
    CongTrans(x * (d * f), n * m, y * d * m, p);
    MulRotate(x, d, f);
    MulOrder(y, d, m);
    assert y * m * d == d * (y * m);
    CancelPrime(p, d, x * f, y * m);
  }

  /** One summand: leaving out point t trades the factor xs[i] - xs[t] for -xs[t]. */
  lemma WeightWithout(xs: seq<int>, w: seq<int>, w': seq<int>, t: nat, i: nat, p: int)
    requires Prime(p) && DistinctMod(xs, p) && t < |xs| && i < |xs| - 1
    requires Weights(xs, w, p) && Weights(Without(xs, t), w', p)
    ensures Cong(w[Skip(t, i)] * (xs[Skip(t, i)] - xs[t]), w'[i] * -xs[t], p)
  {
    hide Cong, DistinctMod, Num, ProductExcept, Differences;
    var s, others := Skip(t, i), Without(xs, t);
    NumWithout(xs, t, i);
    DenWithout(xs, t, i);
    DistinctWithout(xs, t, p);
    DenNonzero(others, i, |xs| - 1, p);
    CancelFactor(p, w[s], w'[i], Den(others, i), xs[s] - xs[t], Num(others, i), -xs[t]);
  }

  /** sum of w[i] (xs[i] - xs[t]) c(xs[i]) = -xs[t] * (interpolation of c without point t) */
  lemma ShiftedSum(xs: seq<int>, w: seq<int>, w': seq<int>, t: nat, c: seq<int>, p: int)
    requires Prime(p) && DistinctMod(xs, p) && t < |xs|
    requires Weights(xs, w, p) && Weights(Without(xs, t), w', p)
    ensures Cong(Sum(Shifted(xs, w, xs[t], c), 0, |xs|), -xs[t] * Interpolate(Without(xs, t), w', c), p)
  {
    hide Shifted, Weighted, Eval, Weights, Sum, Cong, DistinctMod;
    var n, xs' := |xs|, Without(xs, t);
    var h, k := LeaveOut(Shifted(xs, w, xs[t], c), t), Scaled(-xs[t], Weighted(xs', w', c));
    assert Shifted(xs, w, xs[t], c)(t) == 0 by { ShiftedAtSelf(xs, w, t, c); }
    SumWithout(Shifted(xs, w, xs[t], c), h, t, n);
    forall i | 0 <= i < n - 1 ensures Cong(h(i), k(i), p) {
      ShiftedSumTerm(xs, w, w', t, c, i, p);
    }
    SumCong(h, k, 0, n - 1, p);
    SumScale(-xs[t], Weighted(xs', w', c), k, 0, n - 1);
  }

  function LeaveOut(g: Fn, t: int): Fn { i => g(Skip(t, i)) }

  function Scaled(z: int, g: Fn): Fn { i => z * g(i) }

  lemma ShiftedAtSelf(xs: seq<int>, w: seq<int>, t: nat, c: seq<int>)
    requires t < |xs|
    ensures Shifted(xs, w, xs[t], c)(t) == 0
  {
  }

  lemma ShiftedSumTerm(xs: seq<int>, w: seq<int>, w': seq<int>, t: nat, c: seq<int>, i: nat, p: int)
    requires Prime(p) && DistinctMod(xs, p) && t < |xs| && i < |xs| - 1
    requires Weights(xs, w, p) && Weights(Without(xs, t), w', p)
    ensures Cong(LeaveOut(Shifted(xs, w, xs[t], c), t)(i), Scaled(-xs[t], Weighted(Without(xs, t), w', c))(i), p)
  {
    var y := Eval(c, Without(xs, t)[i]);
    WeightWithout(xs, w, w', t, i, p);
    ShiftedTerm(w[Skip(t, i)], xs[Skip(t, i)] - xs[t], w'[i], -xs[t], y, p);
  }

  lemma ShiftedTerm(w: int, f: int, w': int, m: int, y: int, p: int)
    requires p > 0 && Cong(w * f, w' * m, p)
    ensures Cong(w * (f * y), m * (w' * y), p)
  {
    CongRefl(y, p);
    CongMul(w * f, w' * m, y, y, p);
    MulAssoc(w, f, y);
    MulRotate(m, w', y);
    MulAssoc(w', m, y);
  }

  /** The Lagrange coefficients of at least one distinct point add up to 1. */
  lemma WeightsSumToOne(xs: seq<int>, w: seq<int>, p: int)
    requires Prime(p) && DistinctMod(xs, p) && Weights(xs, w, p) && |xs| >= 1
    ensures Cong(Interpolate(xs, w, [1]), 1, p)
    decreases |xs|
  {
    var n := |xs|;
    if n == 1 {
      assert ProductExcept(Differences(xs, xs[0]), 0, 0) == 1;
      assert ProductExcept(Negated(xs), 0, 0) == 1;
      assert Den(xs, 0) == 1 && Num(xs, 0) == 1;
      assert Interpolate(xs, w, [1]) == Sum(Weighted(xs, w, [1]), 0, 0) + Weighted(xs, w, [1])(0);
      ConstantOne(xs[0]);
      assert w[0] * Den(xs, 0) == w[0];
    } else {
      hide Shifted, Weighted, Eval, Weights;
      var t := n - 1;
      var last := OnePointLess(xs, w, t, p);
      var first := OnePointLess(xs, w, 0, p);
      var total := Interpolate(xs, w, [1]);
      ShiftedDifference(xs, w, xs[0], xs[t]);
      CongSub(first, -xs[0], last, -xs[t], p);
      CancelPrime(p, xs[t] - xs[0], total, 1);
    }
  }

  lemma ShiftedDifference(xs: seq<int>, w: seq<int>, a: int, b: int)
    requires |w| == |xs|
    ensures Sum(Shifted(xs, w, a, [1]), 0, |xs|)
         == Sum(Shifted(xs, w, b, [1]), 0, |xs|) + (b - a) * Interpolate(xs, w, [1])
  {
    hide Shifted, Weighted;
    var n, k := |xs|, Scaled(b - a, Weighted(xs, w, [1]));
    forall i | 0 <= i < n
      ensures Shifted(xs, w, a, [1])(i) == Shifted(xs, w, b, [1])(i) + k(i)
    {
      ShiftedDifferenceTerm(xs, w, a, b, i);
    }
    SumScale(b - a, Weighted(xs, w, [1]), k, 0, n);
    SumAdd(Shifted(xs, w, b, [1]), k, Shifted(xs, w, a, [1]), 0, n);
  }

  lemma ShiftedDifferenceTerm(xs: seq<int>, w: seq<int>, a: int, b: int, i: nat)
    requires i < |w| == |xs|
    ensures Shifted(xs, w, a, [1])(i) == Shifted(xs, w, b, [1])(i) + Scaled(b - a, Weighted(xs, w, [1]))(i)
  {
    ConstantOne(xs[i]);
    DifferenceTerm(w[i], xs[i], a, b);
  }

  lemma ConstantOne(x: int)
    ensures Eval([1], x) == 1
  {
    assert [1][1..] == [];
  }

  lemma DifferenceTerm(w: int, x: int, a: int, b: int)
    ensures w * ((x - a) * 1) == w * ((x - b) * 1) + (b - a) * (w * 1)
  {
  }

  /** The shifted sum of the constant 1 with respect to point t is -xs[t]. */
  lemma OnePointLess(xs: seq<int>, w: seq<int>, t: nat, p: int) returns (s: int)
    requires Prime(p) && DistinctMod(xs, p) && Weights(xs, w, p) && |xs| >= 2 && t < |xs|
    ensures s == Sum(Shifted(xs, w, xs[t], [1]), 0, |xs|) && Cong(s, -xs[t], p)
    decreases |xs|, 0
  {
    s := Sum(Shifted(xs, w, xs[t], [1]), 0, |xs|);
    var xs' := Without(xs, t);
    var w' := FermatWeights(xs', p);
    DistinctWithout(xs, t, p);
    FermatWeightsCorrect(xs', p);
    ShiftedSum(xs, w, w', t, [1], p);
    WeightsSumToOne(xs', w', p);
    CongRefl(-xs[t], p);
    CongMul(-xs[t], -xs[t], Interpolate(xs', w', [1]), 1, p);
    CongTrans(s, -xs[t] * Interpolate(xs', w', [1]), -xs[t], p);
  }

  /** A polynomial with at most as many coefficients as points is recovered at 0. */
  lemma {:induction false} InterpolationAtZero(xs: seq<int>, w: seq<int>, c: seq<int>, p: int)
    requires Prime(p) && DistinctMod(xs, p) && Weights(xs, w, p) && |c| <= |xs|
    ensures Cong(Interpolate(xs, w, c), Eval(c, 0), p)
    decreases |xs|
  {
    var n := |xs|;
    if c == [] {
      SumZero(Weighted(xs, w, c), 0, n);
      CongRefl(0, p);
    } else {
      var t := n - 1;
      var a, q := xs[t], Quotient(c, xs[t]);
      var xs', w' := Without(xs, t), FermatWeights(Without(xs, t), p);
      DistinctWithout(xs, t, p);
      FermatWeightsCorrect(xs', p);
      InterpolationAtZero(xs', w', q, p);
      ShiftedSum(xs, w, w', t, q, p);
      WeightsSumToOne(xs, w, p);
      SplitSum(xs, w, c, a);
      var one, rest := Interpolate(xs, w, [1]), Sum(Shifted(xs, w, a, q), 0, n);
      CongRefl(-a, p);
      CongRefl(Eval(c, a), p);
      CongMul(-a, -a, Interpolate(xs', w', q), Eval(q, 0), p);
      CongTrans(rest, -a * Interpolate(xs', w', q), -a * Eval(q, 0), p);
      CongMul(Eval(c, a), Eval(c, a), one, 1, p);
      CongAdd(Eval(c, a) * one, Eval(c, a), rest, -a * Eval(q, 0), p);
      Division(c, a, 0);
    }
  }

  lemma SplitSum(xs: seq<int>, w: seq<int>, c: seq<int>, a: int)
    requires |w| == |xs|
    ensures Interpolate(xs, w, c)
         == Eval(c, a) * Interpolate(xs, w, [1]) + Sum(Shifted(xs, w, a, Quotient(c, a)), 0, |xs|)
  {
    hide Shifted, Weighted, Eval, Quotient;
    var n, k := |xs|, Scaled(Eval(c, a), Weighted(xs, w, [1]));
    forall i | 0 <= i < n
      ensures Weighted(xs, w, c)(i) == k(i) + Shifted(xs, w, a, Quotient(c, a))(i)
    {
      SplitSumTerm(xs, w, c, a, i);
    }
    SumScale(Eval(c, a), Weighted(xs, w, [1]), k, 0, n);
    SumAdd(k, Shifted(xs, w, a, Quotient(c, a)), Weighted(xs, w, c), 0, n);
  }

  lemma SplitSumTerm(xs: seq<int>, w: seq<int>, c: seq<int>, a: int, i: nat)
    requires i < |w| == |xs|
    ensures Weighted(xs, w, c)(i)
         == Scaled(Eval(c, a), Weighted(xs, w, [1]))(i) + Shifted(xs, w, a, Quotient(c, a))(i)
  {
    hide Eval, Quotient;
    ConstantOne(xs[i]);
    Division(c, a, xs[i]);
    SplitTerm(w[i], Eval(c, xs[i]), Eval(c, a), (xs[i] - a) * Eval(Quotient(c, a), xs[i]));
  }

  lemma SplitTerm(w: int, y: int, z: int, d: int)
    requires y - z == d
    ensures w * y == z * (w * 1) + w * d
  {
  }
}
