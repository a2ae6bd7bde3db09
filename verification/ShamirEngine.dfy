/** Shamir sharing as backend/smpc/smpc_node.py does it: power sums and Fermat inverses. */
module ShamirEngine {
  import opened NumberTheory
  import opened Sums
  import opened Lagrange

  type Share = (int, int)

  function PowerTerm(c: seq<int>, x: int): Fn {
    i => if 0 <= i < |c| then c[i] * Pow(x, i) else 0
  }

  /** The comprehension sum(c * (x ** i) for i, c in enumerate(coeffs)). */
  function PowerSum(c: seq<int>, x: int): int {
    Sum(PowerTerm(c, x), 0, |c|)
  }

  lemma {:induction false} PowerSumIsEval(c: seq<int>, x: int)
    ensures PowerSum(c, x) == Eval(c, x)
  {
    if c != [] {
      var rest := c[1..];
      PowerSumIsEval(rest, x);
      var scaled := Scaled(x, PowerTerm(rest, x));
      SumScale(x, PowerTerm(rest, x), scaled, 0, |rest|);
      forall i | 0 <= i < |rest| ensures scaled(i) == PowerTerm(c, x)(i + 1) {
        PowerShift(x, rest[i], i);
      }
      SumShift(scaled, PowerTerm(c, x), 0, |rest|, 1);
      SumFirst(PowerTerm(c, x), 0, |c|);
      assert PowerTerm(c, x)(0) == c[0] * Pow(x, 0) == c[0];
    }
  }

  lemma PowerShift(x: int, c: int, i: nat)
    ensures x * (c * Pow(x, i)) == c * Pow(x, i + 1)
  {
    MulRotate(x, c, Pow(x, i));
  }

  function Xs(shares: seq<Share>): (xs: seq<int>)
    ensures |xs| == |shares|
  {
    seq(|shares|, i requires 0 <= i < |shares| => shares[i].0)
  }

  /** Every share is a point of the polynomial c. */
  ghost predicate OnPolynomial(shares: seq<Share>, c: seq<int>, p: int)
    requires p > 0
  {
    forall i :: 0 <= i < |shares| ==> Cong(shares[i].1, Eval(c, shares[i].0), p)
  }

  ghost predicate DistinctShares(shares: seq<Share>, p: int) {
    forall i, j :: 0 <= i < |shares| && 0 <= j < |shares| && i != j ==>
      1 <= shares[i].0 < p && 1 <= shares[j].0 < p && shares[i].0 != shares[j].0
  }

  lemma DistinctSharesMod(shares: seq<Share>, p: int)
    requires p >= 2 && DistinctShares(shares, p)
    ensures DistinctMod(Xs(shares), p)
  {
    var xs := Xs(shares);
    forall i, j | 0 <= i < |xs| && 0 <= j < |xs| && i != j ensures (xs[i] - xs[j]) % p != 0 {
      NonzeroDifference(shares[i].0, shares[j].0, p);
    }
  }

  lemma NonzeroDifference(a: int, b: int, p: int)
    requires 1 <= a < p && 1 <= b < p && a != b
    ensures (a - b) % p != 0
  {
    if a > b {
      RemainderUnique(a - b, 0, a - b, p);
    } else {
      RemainderUnique(a - b, -1, a - b + p, p);
    }
  }

  function ShareTerm(shares: seq<Share>, w: seq<int>): Fn {
    i => if 0 <= i < |shares| && i < |w| then w[i] * shares[i].1 else 0
  }

  /** sum of weight * share value: what both reconstruction loops accumulate, before reduction. */
  function WeightedSum(shares: seq<Share>, w: seq<int>): int {
    Sum(ShareTerm(shares, w), 0, |shares|)
  }

  /** Enough distinct shares of a polynomial give its constant term. */
  lemma WeightedSumIsSecret(shares: seq<Share>, w: seq<int>, c: seq<int>, p: int)
    requires Prime(p) && DistinctShares(shares, p) && OnPolynomial(shares, c, p)
    requires |c| <= |shares| && Weights(Xs(shares), w, p)
    ensures Cong(WeightedSum(shares, w), Eval(c, 0), p)
  {
    hide Weights, Eval;
    var xs := Xs(shares);
    DistinctSharesMod(shares, p);
    InterpolationAtZero(xs, w, c, p);
    assert |w| == |xs| by { WeightsLength(xs, w, p); }
    forall i | 0 <= i < |shares| ensures Cong(ShareTerm(shares, w)(i), Weighted(xs, w, c)(i), p) {
      CongRefl(w[i], p);
      CongMul(w[i], w[i], shares[i].1, Eval(c, xs[i]), p);
    }
    SumCong(ShareTerm(shares, w), Weighted(xs, w, c), 0, |shares|, p);
    CongTrans(WeightedSum(shares, w), Interpolate(xs, w, c), Eval(c, 0), p);
  }

  lemma WeightsLength(xs: seq<int>, w: seq<int>, p: int)
    requires p > 0 && Weights(xs, w, p)
    ensures |w| == |xs|
  {
  }

  /** split_secret; the random coefficients are the `draws`. */
  method SplitSecret(secret: int, draws: seq<int>, n: int, p: int) returns (shares: seq<Share>)
    requires p >= 2
    ensures |shares| == if n < 0 then 0 else n
    ensures forall i :: 0 <= i < |shares| ==> shares[i].0 == i + 1 && 0 <= shares[i].1 < p
    ensures OnPolynomial(shares, [secret] + draws, p)
  {
    var coeffs := [secret] + draws;
    shares := [];
    var x := 1;
    while x < n + 1
      invariant x == |shares| + 1 && (x <= n + 1 || (n < 0 && x == 1))
      invariant forall i :: 0 <= i < |shares| ==> shares[i].0 == i + 1 && 0 <= shares[i].1 < p
      invariant OnPolynomial(shares, coeffs, p)
    {
      var y := PowerSum(coeffs, x) % p;
      PowerSumIsEval(coeffs, x);
      CongMod(PowerSum(coeffs, x), p);
      shares := shares + [(x, y)];
      x := x + 1;
    }
  }

  // ---- the inner loop of both reconstructions ------------------------------

  lemma {:induction false} ProductStep(acc: int, fs: seq<int>, i: nat, j: nat, p: int)
    requires p > 0 && j < |fs| && j != i && Cong(acc, ProductExcept(fs, i, j), p)
    ensures Cong((acc * fs[j]) % p, ProductExcept(fs, i, j + 1), p)
  {
    CongRefl(fs[j], p);
    CongMul(acc, ProductExcept(fs, i, j), fs[j], fs[j], p);
    CongMod(acc * fs[j], p);
    CongTrans((acc * fs[j]) % p, acc * fs[j], ProductExcept(fs, i, j + 1), p);
  }

  /** num = prod(-x_j) and den = prod(x_i - x_j) over j != i, reduced at every step. */
  method LagrangeFactors(shares: seq<Share>, i: nat, p: int) returns (num: int, den: int)
    requires p >= 2 && i < |shares|
    ensures Cong(num, Num(Xs(shares), i), p) && Cong(den, Den(Xs(shares), i), p)
  {
    hide Cong;
    var xs := Xs(shares);
    num, den := 1, 1;
    CongRefl(1, p);
    for j := 0 to |shares|
      invariant Cong(num, ProductExcept(Negated(xs), i, j), p)
      invariant Cong(den, ProductExcept(Differences(xs, xs[i]), i, j), p)
    {
      if i != j {
        ProductStep(num, Negated(xs), i, j, p);
        ProductStep(den, Differences(xs, xs[i]), i, j, p);
        num := (num * -shares[j].0) % p;
        den := (den * (shares[i].0 - shares[j].0)) % p;
      }
    }
  }

  lemma PowModCong(den: int, den': int, e: nat, p: int)
    requires p > 0 && Cong(den, den', p)
    ensures Cong(Pow(den, e) % p, Pow(den', e), p)
  {
    CongPow(den, den', e, p);
    CongMod(Pow(den, e), p);
    CongTrans(Pow(den, e) % p, Pow(den, e), Pow(den', e), p);
  }

  lemma CoefficientCong(num: int, num': int, inv: int, inv': int, p: int)
    requires p > 0 && Cong(num, num', p) && Cong(inv, inv', p)
    ensures Cong((num * inv) % p, num' * inv', p)
  {
    CongMul(num, num', inv, inv', p);
    CongMod(num * inv, p);
    CongTrans((num * inv) % p, num * inv, num' * inv', p);
  }

  lemma AccumulateStep(acc: int, sum: int, y: int, coeff: int, w: int, p: int)
    requires p > 0 && Cong(acc, sum, p) && Cong(coeff, w, p)
    ensures Cong((acc + y * coeff) % p, sum + w * y, p)
  {
    CongRefl(y, p);
    CongMul(y, y, coeff, w, p);
    CongAdd(acc, sum, y * coeff, y * w, p);
    CongMod(acc + y * coeff, p);
    CongTrans((acc + y * coeff) % p, acc + y * coeff, sum + y * w, p);
  }

  /** reconstruct_secret with the inverse den^(p-2). */
  method ReconstructSecret(shares: seq<Share>, p: int) returns (secret: int)
    requires p >= 2
    ensures 0 <= secret < p
    ensures Cong(secret, WeightedSum(shares, FermatWeights(Xs(shares), p)), p)
  {
    hide Cong;
    var xs, w := Xs(shares), FermatWeights(Xs(shares), p);
    secret := 0;
    CongRefl(0, p);
    for i := 0 to |shares|
      invariant 0 <= secret < p
      invariant Cong(secret, Sum(ShareTerm(shares, w), 0, i), p)
    {
      var num, den := LagrangeFactors(shares, i, p);
      PowModCong(den, Den(xs, i), p - 2, p);
      CoefficientCong(num, Num(xs, i), Pow(den, p - 2) % p, Pow(Den(xs, i), p - 2), p);
      var coeff := (num * (Pow(den, p - 2) % p)) % p;
      AccumulateStep(secret, Sum(ShareTerm(shares, w), 0, i), shares[i].1, coeff, w[i], p);
      secret := (secret + shares[i].1 * coeff) % p;
    }
  }

  /** Splitting, picking any `picked` distinct shares that are at least as many as the threshold,
      and reconstructing gives the secret modulo p. */
  method SplitThenReconstruct(secret: int, draws: seq<int>, n: int, p: int, picked: seq<nat>) returns (r: int)
    requires Prime(p) && n < p
    requires |picked| >= 1 + |draws|
    requires forall i :: 0 <= i < |picked| ==> picked[i] < n
    requires forall i, j :: 0 <= i < j < |picked| ==> picked[i] != picked[j]
    ensures r == secret % p
  {
    hide Cong;
    var shares := SplitSecret(secret, draws, n, p);
    var subset := seq(|picked|, i requires 0 <= i < |picked| => shares[picked[i]]);
    r := ReconstructSecret(subset, p);
    RecoverSecret(subset, secret, draws, r, p);
  }

  lemma RecoverSecret(shares: seq<Share>, secret: int, draws: seq<int>, r: int, p: int)
    requires Prime(p) && DistinctShares(shares, p) && OnPolynomial(shares, [secret] + draws, p)
    requires |shares| >= 1 + |draws| && 0 <= r < p
    requires Cong(r, WeightedSum(shares, FermatWeights(Xs(shares), p)), p)
    ensures r == secret % p
  {
    hide Cong;
    DistinctSharesMod(shares, p);
    FermatWeightsCorrect(Xs(shares), p);
    WeightedSumIsSecret(shares, FermatWeights(Xs(shares), p), [secret] + draws, p);
    SecretFromSum(r, WeightedSum(shares, FermatWeights(Xs(shares), p)), secret, draws, p);
  }

  lemma SecretFromSum(r: int, sum: int, secret: int, draws: seq<int>, p: int)
    requires p > 0 && 0 <= r < p && Cong(r, sum, p) && Cong(sum, Eval([secret] + draws, 0), p)
    ensures r == secret % p
  {
    assert ([secret] + draws)[1..] == draws;
    assert Eval([secret] + draws, 0) == secret;
    CongTrans(r, sum, secret, p);
    CongIffMod(r, secret, p);
    RemainderUnique(r, 0, r, p);
  }
}
