/** The SecretSharing class of backend/smpc/smpc_service.py: Horner evaluation, a remembered
    threshold, and reconstruction with true modular inverses. */
module SecretSharingService {
  import opened NumberTheory
  import opened Sums
  import opened Lagrange
  import opened ShamirEngine
  import opened Wrappers

  function ServiceWeights(xs: seq<int>, p: int): (w: seq<int>)
    requires p >= 2
    ensures |w| == |xs|
  {
    seq(|xs|, i requires 0 <= i < |xs| => Num(xs, i) * Inverse(Den(xs, i), p))
  }

  lemma ServiceWeightsCorrect(xs: seq<int>, p: int)
    requires Prime(p) && DistinctMod(xs, p)
    ensures Weights(xs, ServiceWeights(xs, p), p)
  {
    var w := ServiceWeights(xs, p);
    forall i | 0 <= i < |xs| ensures Cong(w[i] * Den(xs, i), Num(xs, i), p) {
      DenNonzero(xs, i, |xs|, p);
      PrimeCoprime(p, Den(xs, i));
      InverseCorrect(Den(xs, i), p);
      CongRefl(w[i], p);
      InverseGivesWeight(Num(xs, i), Den(xs, i), Inverse(Den(xs, i), p), w[i], p);
    }
  }

  /** Two points that agree modulo p make the denominator vanish. */
  lemma {:induction false} DenVanishes(xs: seq<int>, i: nat, j: nat, n: nat, p: int)
    requires p >= 2 && i < |xs| && j < n <= |xs| && j != i && (xs[i] - xs[j]) % p == 0
    ensures Cong(ProductExcept(Differences(xs, xs[i]), i, n), 0, p)
  {
    var fs := Differences(xs, xs[i]);
    if n - 1 == j {
      CongIffMod(fs[j], 0, p);
      CongRefl(ProductExcept(fs, i, j), p);
      CongMul(ProductExcept(fs, i, j), ProductExcept(fs, i, j), fs[j], 0, p);
    } else {
      DenVanishes(xs, i, j, n - 1, p);
      if n - 1 != i {
        CongRefl(fs[n - 1], p);
        CongMul(ProductExcept(fs, i, n - 1), 0, fs[n - 1], fs[n - 1], p);
      }
    }
  }

  /** Python's pow(den, -1, p) raises exactly when this is false. */
  predicate Invertible(den: int, p: int)
    requires p >= 2
  {
    (Inverse(den, p) * den) % p == 1
  }

  lemma InvertibleIff(den: int, p: int)
    requires Prime(p)
    ensures Invertible(den, p) <==> den % p != 0
  {
    if den % p != 0 {
      PrimeCoprime(p, den);
      InverseCorrect(den, p);
      CongIffMod(Inverse(den, p) * den, 1, p);
      RemainderUnique(1, 0, 1, p);
    } else {
      CongIffMod(den, 0, p);
      CongRefl(Inverse(den, p), p);
      CongMul(Inverse(den, p), Inverse(den, p), den, 0, p);
      CongIffMod(Inverse(den, p) * den, 0, p);
    }
  }

  lemma InverseOfCong(a: int, b: int, p: int)
    requires p >= 2 && Cong(a, b, p)
    ensures Inverse(a, p) == Inverse(b, p) && (a % p == 0 <==> b % p == 0)
  {
    CongIffMod(a, b, p);
  }

  class SecretSharing {
    const prime: int
    var threshold: Option<int>

    ghost predicate Valid() { Prime(prime) }

    constructor (p: int)
      requires Prime(p)
      ensures Valid() && prime == p && threshold == None
    {
      prime := p;
      threshold := None;
    }

    method EvaluatePolynomial(coeffs: seq<int>, x: int) returns (result: int)
      requires Valid()
      ensures result == Eval(coeffs, x) % prime
    {
      result := 0;
      var i := |coeffs|;
      RemainderUnique(0, 0, 0, prime);
      while i > 0
        invariant 0 <= i <= |coeffs|
        invariant result == Eval(coeffs[i..], x) % prime
      {
        HornerStep(result, coeffs[i - 1], coeffs[i..], x, prime);
        assert coeffs[i - 1..] == [coeffs[i - 1]] + coeffs[i..];
        result := (result * x + coeffs[i - 1]) % prime;
        i := i - 1;
      }
      assert coeffs[0..] == coeffs;
    }

    /** generate_shares; raises when the threshold exceeds the number of shares. Below 1 there are none. */
    method GenerateShares(secret: int, n: int, k: int, draws: seq<int>) returns (r: Result<seq<Share>>)
      requires Valid() && |draws| == if k > 1 then k - 1 else 0
      modifies this`threshold
      ensures r.Error? <==> k > n
      ensures threshold == if k > n then old(threshold) else Some(k)
      ensures r.Ok? ==> |r.value| == (if n > 0 then n else 0) && OnPolynomial(r.value, [secret] + draws, prime)
      ensures r.Ok? ==> forall i :: 0 <= i < n ==> r.value[i].0 == i + 1 && 0 <= r.value[i].1 < prime
    {
      if k > n {
        return Error;
      }
      threshold := Some(k);
      var coeffs := [secret] + draws;
      var shares: seq<Share> := [];
      var count := if n > 0 then n else 0;
      for i := 1 to count + 1
        invariant threshold == Some(k)
        invariant |shares| == i - 1
        invariant forall j :: 0 <= j < |shares| ==> shares[j].0 == j + 1 && 0 <= shares[j].1 < prime
        invariant OnPolynomial(shares, coeffs, prime)
      {
        var y := EvaluatePolynomial(coeffs, i);
        CongMod(Eval(coeffs, i), prime);
        shares := shares + [(i as int, y)];
      }
      r := Ok(shares);
    }

    /** Enough shares for the remembered threshold (None and 0 switch that test off) and at least two. */
    predicate EnoughShares(count: nat)
      reads this`threshold
    {
      (threshold == None || threshold == Some(0) || count >= threshold.value) && count >= 2
    }

    /** reconstruct_secret: raises on too few shares and on a denominator without an inverse. */
    method ReconstructSecret(shares: seq<Share>) returns (r: Result<int>)
      requires Valid()
      ensures r.Ok? <==> EnoughShares(|shares|) && DistinctMod(Xs(shares), prime)
      ensures r.Ok? ==> 0 <= r.value < prime
      ensures r.Ok? ==> Cong(r.value, WeightedSum(shares, ServiceWeights(Xs(shares), prime)), prime)
    {
      hide Cong, Inverse, DistinctMod, Invertible, Num, Den;
      if threshold != None && threshold != Some(0) && |shares| < threshold.value {
        return Error;
      }
      if |shares| < 2 {
        return Error;
      }
      var xs, w := Xs(shares), ServiceWeights(Xs(shares), prime);
      var secret := 0;
      CongRefl(0, prime);
      for i := 0 to |shares|
        invariant 0 <= secret < prime
        invariant Cong(secret, Sum(ShareTerm(shares, w), 0, i), prime)
        invariant forall k :: 0 <= k < i ==> Den(xs, k) % prime != 0
      {
        var numerator, denominator := LagrangeFactors(shares, i, prime);
        InverseOfCong(denominator, Den(xs, i), prime);
        InvertibleIff(denominator, prime);
        if !Invertible(denominator, prime) {
          NotDistinct(xs, i, prime);
          return Error;
        }
        var inverse := Inverse(denominator, prime);
        LagrangeTerm(shares[i].1, numerator, Num(xs, i), inverse, prime);
        var lagrange := (shares[i].1 * numerator * inverse) % prime;
        AddTerm(secret, Sum(ShareTerm(shares, w), 0, i), lagrange, w[i] * shares[i].1, prime);
        secret := (secret + lagrange) % prime;
      }
      AllDistinct(xs, prime);
      r := Ok(secret);
    }
  }

  lemma HornerStep(acc: int, c: int, rest: seq<int>, x: int, p: int)
    requires p > 0 && acc == Eval(rest, x) % p
    ensures (acc * x + c) % p == Eval([c] + rest, x) % p
  {
    assert ([c] + rest)[1..] == rest;
    CongMod(Eval(rest, x), p);
    CongRefl(x, p);
    CongRefl(c, p);
    CongMul(acc, Eval(rest, x), x, x, p);
    CongAdd(acc * x, Eval(rest, x) * x, c, c, p);
    assert Eval(rest, x) * x == x * Eval(rest, x);
    CongIffMod(acc * x + c, Eval([c] + rest, x), p);
  }

  lemma NotDistinct(xs: seq<int>, i: nat, p: int)
    requires Prime(p) && i < |xs| && Den(xs, i) % p == 0
    ensures !DistinctMod(xs, p)
  {
    if DistinctMod(xs, p) {
      DenNonzero(xs, i, |xs|, p);
      assert false;
    }
  }

  lemma AllDistinct(xs: seq<int>, p: int)
    requires Prime(p) && forall i :: 0 <= i < |xs| ==> Den(xs, i) % p != 0
    ensures DistinctMod(xs, p)
  {
    forall i, j | 0 <= i < |xs| && 0 <= j < |xs| && i != j ensures (xs[i] - xs[j]) % p != 0 {
      if (xs[i] - xs[j]) % p == 0 {
        DenVanishes(xs, i, j, |xs|, p);
        CongIffMod(Den(xs, i), 0, p);
        assert false;
      }
    }
  }

  lemma LagrangeTerm(y: int, num: int, num': int, inv: int, p: int)
    requires p > 0 && Cong(num, num', p)
    ensures Cong((y * num * inv) % p, (num' * inv) * y, p)
  {
    CongRefl(y * inv, p);
    CongMul(num, num', y * inv, y * inv, p);
    Regroup(num, inv, y);
    Regroup(num', inv, y);
    CongMod(y * num * inv, p);
    CongTrans((y * num * inv) % p, y * num * inv, (num' * inv) * y, p);
  }

  lemma Regroup(a: int, b: int, y: int)
    ensures a * (y * b) == y * a * b == (a * b) * y
  {
  }

  lemma AddTerm(acc: int, sum: int, term: int, term': int, p: int)
    requires p > 0 && Cong(acc, sum, p) && Cong(term, term', p)
    ensures Cong((acc + term) % p, sum + term', p)
  {
    CongAdd(acc, sum, term, term', p);
    CongMod(acc + term, p);
    CongTrans((acc + term) % p, acc + term, sum + term', p);
  }

  /** What the service reconstructs from enough distinct shares of a polynomial. */
  lemma ServiceRecovers(shares: seq<Share>, c: seq<int>, r: int, p: int)
    requires Prime(p) && DistinctMod(Xs(shares), p) && DistinctShares(shares, p)
    requires OnPolynomial(shares, c, p) && 1 <= |c| <= |shares| && 0 <= r < p
    requires Cong(r, WeightedSum(shares, ServiceWeights(Xs(shares), p)), p)
    ensures r == c[0] % p
  {
    hide Cong;
    var w := ServiceWeights(Xs(shares), p);
    ServiceWeightsCorrect(Xs(shares), p);
    WeightedSumIsSecret(shares, w, c, p);
    assert [c[0]] + c[1..] == c;
    SecretFromSum(r, WeightedSum(shares, w), c[0], c[1..], p);
  }
}
