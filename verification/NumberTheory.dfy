/** Modular arithmetic shared by the secret-sharing, ring-signature and lattice models:
    congruences, primes, powers, inverses and Fermat's little theorem. */
module NumberTheory {
  ghost predicate Cong(a: int, b: int, m: int)
    requires m > 0
  {
    exists k: int :: Differ(a, b, k, m)
  }

  ghost predicate Differ(a: int, b: int, k: int, m: int) { a - b == k * m }

  ghost predicate Prime(p: int) {
    p >= 2 && forall d :: 1 < d < p ==> p % d != 0
  }

  ghost predicate Divides(d: int, a: int) {
    exists k: int :: Differ(a, 0, k, d)
  }

  /** No number above 1 divides both. */
  ghost predicate Coprime(a: int, b: int) {
    forall d :: d > 1 && Divides(d, a) ==> !Divides(d, b)
  }

  function Pow(b: int, e: nat): int {
    if e == 0 then 1 else b * Pow(b, e - 1)
  }

  function Factorial(n: nat): nat {
    if n == 0 then 1 else n * Factorial(n - 1)
  }

  function Product(s: seq<int>): int {
    if s == [] then 1 else s[0] * Product(s[1..])
  }

  // ---- remainders ---------------------------------------------------------

  lemma MulLeftMono(m: int, a: int, b: int)
    requires m > 0 && a < b
    ensures m * a + m <= m * b
  {
    assert b - a - 1 >= 0 && m * (b - a - 1) >= 0;
    assert m * (b - a - 1) == m * b - m * a - m;
  }

  lemma RemainderUnique(a: int, q: int, r: int, m: int)
    requires m > 0 && 0 <= r < m && a == q * m + r
    ensures a % m == r && a / m == q
  {
    var q', r' := a / m, a % m;
    assert a == m * q' + r';
    assert q * m == m * q;
    if q < q' {
      MulLeftMono(m, q, q');
    } else if q' < q {
      MulLeftMono(m, q', q);
    }
  }

  lemma CongIntro(a: int, b: int, k: int, m: int)
    requires m > 0 && a - b == k * m
    ensures Cong(a, b, m)
  {
    assert Differ(a, b, k, m);
  }

  lemma CongWitness(a: int, b: int, m: int) returns (k: int)
    requires m > 0 && Cong(a, b, m)
    ensures a - b == k * m
  {
    k :| Differ(a, b, k, m);
  }

  lemma CongRefl(a: int, m: int)
    requires m > 0
    ensures Cong(a, a, m)
  {
    CongIntro(a, a, 0, m);
  }

  lemma CongSym(a: int, b: int, m: int)
    requires m > 0 && Cong(a, b, m)
    ensures Cong(b, a, m)
  {
    var k := CongWitness(a, b, m);
    assert b - a == (-k) * m;
    CongIntro(b, a, -k, m);
  }

  lemma CongTrans(a: int, b: int, c: int, m: int)
    requires m > 0 && Cong(a, b, m) && Cong(b, c, m)
    ensures Cong(a, c, m)
  {
    var k := CongWitness(a, b, m);
    var l := CongWitness(b, c, m);
    assert a - c == (k + l) * m;
    CongIntro(a, c, k + l, m);
  }

  lemma CongAdd(a: int, a': int, b: int, b': int, m: int)
    requires m > 0 && Cong(a, a', m) && Cong(b, b', m)
    ensures Cong(a + b, a' + b', m)
  {
    var k := CongWitness(a, a', m);
    var l := CongWitness(b, b', m);
    assert (a + b) - (a' + b') == (k + l) * m;
    CongIntro(a + b, a' + b', k + l, m);
  }

  lemma CongSub(a: int, a': int, b: int, b': int, m: int)
    requires m > 0 && Cong(a, a', m) && Cong(b, b', m)
    ensures Cong(a - b, a' - b', m)
  {
    var k := CongWitness(a, a', m);
    var l := CongWitness(b, b', m);
    assert (a - b) - (a' - b') == (k - l) * m;
    CongIntro(a - b, a' - b', k - l, m);
  }

  lemma CongMul(a: int, a': int, b: int, b': int, m: int)
    requires m > 0 && Cong(a, a', m) && Cong(b, b', m)
    ensures Cong(a * b, a' * b', m)
  {
    var k := CongWitness(a, a', m);
    var l := CongWitness(b, b', m);
    calc {
      a * b - a' * b';
      (a - a') * b + a' * (b - b');
      (k * m) * b + a' * (l * m);
      (k * b + a' * l) * m;
    }
    CongIntro(a * b, a' * b', k * b + a' * l, m);
  }

  lemma CongMod(a: int, m: int)
    requires m > 0
    ensures Cong(a % m, a, m) && Cong(a, a % m, m)
  {
    var q := a / m;
    assert a == m * q + a % m;
    assert a - a % m == q * m;
    CongIntro(a, a % m, q, m);
    CongSym(a, a % m, m);
  }

  /** Congruent numbers have equal remainders, and conversely. */
  lemma CongIffMod(a: int, b: int, m: int)
    requires m > 0
    ensures Cong(a, b, m) <==> a % m == b % m
  {
    CongMod(a, m);
    CongMod(b, m);
    if Cong(a, b, m) {
      var k := CongWitness(a, b, m);
      var q := b / m;
      assert b == m * q + b % m;
      assert a == (q + k) * m + b % m;
      RemainderUnique(a, q + k, b % m, m);
    }
    if a % m == b % m {
      CongTrans(a, b % m, b, m);
    }
  }

  lemma CongSmall(a: int, b: int, m: int)
    requires m > 0 && Cong(a, b, m) && 0 <= a < m && 0 <= b < m
    ensures a == b
  {
    CongIffMod(a, b, m);
    RemainderUnique(a, 0, a, m);
    RemainderUnique(b, 0, b, m);
  }

  lemma CongZeroIsDivides(a: int, m: int)
    requires m > 0
    ensures Cong(a, 0, m) <==> Divides(m, a)
  {
    if Cong(a, 0, m) {
      var k := CongWitness(a, 0, m);
      assert Differ(a, 0, k, m);
    }
    if Divides(m, a) {
      var k: int :| Differ(a, 0, k, m);
      CongIntro(a, 0, k, m);
    }
  }

  // ---- divisibility -------------------------------------------------------

  lemma DividesLinear(d: int, a: int, b: int, r: int)
    requires Divides(d, a) && Divides(d, b)
    ensures Divides(d, a - b * r)
  {
    var k: int :| Differ(a, 0, k, d);
    var l: int :| Differ(b, 0, l, d);
    assert a - b * r == (k - l * r) * d;
    assert Differ(a - b * r, 0, k - l * r, d);
  }

  lemma DividesSelf(d: int)
    ensures Divides(d, d) && Divides(d, 0)
  {
    assert Differ(d, 0, 1, d);
    assert Differ(0, 0, 0, d);
  }

  lemma DividesBound(d: int, a: int)
    requires d > 0 && a > 0 && Divides(d, a)
    ensures d <= a && a % d == 0
  {
    var k: int :| Differ(a, 0, k, d);
    RemainderUnique(a, k, 0, d);
    assert a == d * (a / d);
    if k >= 1 {
      assert (k - 1) * d >= 0;
    }
  }

  lemma PrimeCoprime(p: int, a: int)
    requires Prime(p) && a % p != 0
    ensures Coprime(a, p)
  {
    forall d | d > 1 && Divides(d, a) ensures !Divides(d, p) {
      if Divides(d, p) {
        DividesBound(d, p);
        if d == p {
          CongZeroIsDivides(a, p);
          CongIffMod(a, 0, p);
          assert false;
        }
      }
    }
  }

  // ---- modular inverse: the extended Euclid step --------------------------

  /** The value left in `lm` when the loop started from these four numbers stops. */
  function Euclid(lm: int, hm: int, low: nat, high: nat): int
    decreases low
  {
    if low <= 1 then lm
    else
      var r := high / low;
      assert high - low * r == high % low;
      Euclid(hm - lm * r, lm, high - low * r, low)
  }

  /** The remainder of the coefficient the loop of modInv ends with. */
  function Inverse(a: int, m: int): int
    requires m > 0
  {
    Euclid(1, 0, a % m, m) % m
  }

  lemma CoprimeStep(a: int, b: int, r: int)
    requires Coprime(a, b)
    ensures Coprime(b - a * r, a)
  {
    forall d | d > 1 && Divides(d, b - a * r) ensures !Divides(d, a) {
      if Divides(d, a) {
        assert (b - a * r) - a * (-r) == b;
        DividesLinear(d, b - a * r, a, -r);
      }
    }
  }

  lemma {:induction false} EuclidInvariant(a: int, m: int, lm: int, hm: int, low: nat, high: nat)
    requires m > 0 && high > 0
    requires high > 1 || low == 1
    requires Coprime(low, high)
    requires Cong(lm * a, low, m) && Cong(hm * a, high, m)
    ensures Cong(Euclid(lm, hm, low, high) * a, 1, m)
    decreases low
  {
    if low == 0 {
      DividesSelf(high);
      assert false;
    } else if low > 1 {
      var r := high / low;
      assert high - low * r == high % low;
      CoprimeStep(low, high, r);
      CongRefl(r, m);
      CongMul(lm * a, low, r, r, m);
      CongSub(hm * a, high, lm * a * r, low * r, m);
      assert hm * a - lm * a * r == (hm - lm * r) * a;
      EuclidInvariant(a, m, hm - lm * r, lm, high - low * r, low);
    }
  }

  lemma CoprimeMod(a: int, m: int)
    requires m > 0 && Coprime(a, m)
    ensures Coprime(a % m, m)
  {
    var q := a / m;
    assert a % m - m * (-q) == a;
    forall d | d > 1 && Divides(d, a % m) ensures !Divides(d, m) {
      if Divides(d, m) {
        DividesLinear(d, a % m, m, -q);
      }
    }
  }

  /** The extended-Euclid loop computes a true inverse whenever gcd(a, m) = 1. */
  lemma InverseCorrect(a: int, m: int)
    requires m > 1 && Coprime(a, m)
    ensures 0 <= Inverse(a, m) < m && Cong(Inverse(a, m) * a, 1, m)
  {
    var e := Euclid(1, 0, a % m, m);
    CongMod(a, m);
    assert Cong(1 * a, a % m, m);
    CongIntro(0 * a, m, -1, m);
    CoprimeMod(a, m);
    EuclidInvariant(a, m, 1, 0, a % m, m);
    CongMod(e, m);
    CongRefl(a, m);
    CongMul(e % m, e, a, a, m);
    CongTrans(e % m * a, e * a, 1, m);
  }

  /** Inverses modulo m are unique in [0, m). */
  lemma InverseUnique(a: int, x: int, y: int, m: int)
    requires m > 1 && 0 <= x < m && 0 <= y < m
    requires Cong(x * a, 1, m) && Cong(y * a, 1, m)
    ensures x == y
  {
    CongRefl(x, m);
    CongRefl(y, m);
    CongMul(x, x, y * a, 1, m);
    CongMul(y, y, x * a, 1, m);
    assert x * (y * a) == y * (x * a);
    CongSym(x * (y * a), x * 1, m);
    CongTrans(x * 1, y * (x * a), y * 1, m);
    CongSmall(x, y, m);
  }

  /** Cancellation modulo a prime. */
  lemma CancelPrime(p: int, a: int, b: int, c: int)
    requires Prime(p) && a % p != 0 && Cong(a * b, a * c, p)
    ensures Cong(b, c, p)
  {
    PrimeCoprime(p, a);
    InverseCorrect(a, p);
    var i := Inverse(a, p);
    CongRefl(i, p);
    CongMul(i, i, a * b, a * c, p);
    InverseCancels(i, a, b, p);
    InverseCancels(i, a, c, p);
    CongSym(i * (a * b), b, p);
    CongTrans(b, i * (a * b), i * (a * c), p);
    CongTrans(b, i * (a * c), c, p);
  }

  lemma InverseCancels(i: int, a: int, b: int, m: int)
    requires m > 0 && Cong(i * a, 1, m)
    ensures Cong(i * (a * b), b, m)
  {
    CongRefl(b, m);
    CongMul(i * a, 1, b, b, m);
    MulAssoc(i, a, b);
  }

  lemma MulAssoc(x: int, y: int, z: int)
    ensures x * (y * z) == x * y * z
  {
  }

  /** Euclid's lemma. */
  lemma PrimeNoZeroDivisors(p: int, a: int, b: int)
    requires Prime(p) && a % p != 0 && b % p != 0
    ensures (a * b) % p != 0
  {
    if (a * b) % p == 0 {
      assert 0 % p == 0;
      CongIffMod(a * b, a * 0, p);
      CancelPrime(p, a, b, 0);
      CongIffMod(b, 0, p);
      assert false;
    }
  }

  // ---- powers -------------------------------------------------------------

  lemma {:induction false} PowAdd(b: int, e: nat, f: nat)
    ensures Pow(b, e + f) == Pow(b, e) * Pow(b, f)
  {
    if e > 0 {
      PowAdd(b, e - 1, f);
      assert b * (Pow(b, e - 1) * Pow(b, f)) == b * Pow(b, e - 1) * Pow(b, f);
    }
  }

  lemma {:induction false} PowMul(a: int, b: int, e: nat)
    ensures Pow(a * b, e) == Pow(a, e) * Pow(b, e)
  {
    if e > 0 {
      PowMul(a, b, e - 1);
      calc {
        Pow(a * b, e);
        a * b * (Pow(a, e - 1) * Pow(b, e - 1));
        a * Pow(a, e - 1) * (b * Pow(b, e - 1));
      }
    }
  }

  lemma {:induction false} CongPow(a: int, b: int, e: nat, m: int)
    requires m > 0 && Cong(a, b, m)
    ensures Cong(Pow(a, e), Pow(b, e), m)
  {
    if e == 0 {
      CongRefl(1, m);
    } else {
      CongPow(a, b, e - 1, m);
      CongMul(a, b, Pow(a, e - 1), Pow(b, e - 1), m);
    }
  }

  // ---- Fermat's little theorem --------------------------------------------

  ghost predicate Distinct(s: seq<int>) {
    forall i, j :: 0 <= i < j < |s| ==> s[i] != s[j]
  }

  ghost predicate Within(s: seq<int>, n: int) {
    forall i :: 0 <= i < |s| ==> 1 <= s[i] <= n
  }

  lemma {:induction false} ProductConcat(s: seq<int>, t: seq<int>)
    ensures Product(s + t) == Product(s) * Product(t)
  {
    if s == [] {
      assert s + t == t;
    } else {
      assert (s + t)[1..] == s[1..] + t;
      ProductConcat(s[1..], t);
      assert s[0] * (Product(s[1..]) * Product(t)) == s[0] * Product(s[1..]) * Product(t);
    }
  }

  lemma ProductSingle(x: int)
    ensures Product([x]) == x
  {
    assert [x][1..] == [];
  }

  lemma {:induction false} DistinctTooMany(s: seq<int>, n: nat)
    requires Distinct(s) && Within(s, n)
    ensures |s| <= n
  {
    RangeSize(n);
    var used := SeqElements(s);
    forall x | x in used ensures x in UpTo(n) {
      var i :| 0 <= i < |s| && s[i] == x;
    }
    SubsetSize(used, UpTo(n));
  }

  lemma {:induction false} SeqElements(s: seq<int>) returns (r: set<int>)
    requires Distinct(s)
    ensures |r| == |s| && forall x :: x in r <==> x in s
  {
    if s == [] {
      r := {};
    } else {
      var q := SeqElements(s[1..]);
      assert s[0] !in s[1..];
      assert forall x :: x in s <==> x == s[0] || x in s[1..];
      r := q + {s[0]};
    }
  }

  /** {1, ..., n} */
  ghost function UpTo(n: nat): set<int> {
    if n == 0 then {} else UpTo(n - 1) + {n as int}
  }

  lemma {:induction false} RangeSize(n: nat)
    ensures |UpTo(n)| == n && forall x: int :: x in UpTo(n) <==> 1 <= x <= n
  {
    if n > 0 {
      RangeSize(n - 1);
    }
  }

  lemma {:induction false} SubsetSize<T>(a: set<T>, b: set<T>)
    requires a <= b
    ensures |a| <= |b|
    ensures |a| == |b| ==> a == b
  {
    assert b == a + (b - a);
    assert |b| == |a| + |b - a|;
  }

  lemma RemoveFromRange(s: seq<int>, t: nat)
    requires t < |s| && Distinct(s) && s[t] == |s| && Within(s, |s|)
    ensures Distinct(s[..t] + s[t + 1..]) && Within(s[..t] + s[t + 1..], |s| - 1)
  {
    var r := s[..t] + s[t + 1..];
    assert forall i :: 0 <= i < |r| ==> r[i] == s[if i < t then i else i + 1];
  }

  /** A rearrangement of 1..n multiplies to n!. */
  lemma {:induction false} PermutationProduct(s: seq<int>)
    requires Distinct(s) && Within(s, |s|)
    ensures Product(s) == Factorial(|s|)
    decreases |s|
  {
    var n := |s|;
    if n > 0 {
      if forall i :: 0 <= i < n ==> s[i] != n {
        DistinctTooMany(s, n - 1);
        assert false;
      } else {
        var t :| 0 <= t < n && s[t] == n;
        RemoveFromRange(s, t);
        PermutationProduct(s[..t] + s[t + 1..]);
        ProductWithout(s, t);
      }
    }
  }

  lemma ProductWithout(s: seq<int>, t: nat)
    requires t < |s|
    ensures Product(s) == s[t] * Product(s[..t] + s[t + 1..])
  {
    var a, b, x := s[..t], s[t + 1..], s[t];
    assert s == a + ([x] + b);
    ProductConcat(a, [x] + b);
    ProductConcat([x], b);
    ProductSingle(x);
    ProductConcat(a, b);
    MulSwap(Product(a), x, Product(b));
  }

  lemma MulSwap(x: int, y: int, z: int)
    ensures x * (y * z) == y * (x * z)
  {
  }

  function Multiples(a: int, n: nat, p: int): (s: seq<int>)
    requires p > 0
    ensures |s| == n && forall i :: 0 <= i < n ==> s[i] == (a * (i + 1)) % p
  {
    seq(n, i => (a * (i + 1)) % p)
  }

  lemma {:induction false} MultiplesProduct(a: int, n: nat, p: int)
    requires p > 0
    ensures Cong(Product(Multiples(a, n, p)), Pow(a, n) * Factorial(n), p)
  {
    if n == 0 {
      CongRefl(1, p);
    } else {
      var s := Multiples(a, n - 1, p);
      var x := (a * n) % p;
      assert Multiples(a, n, p) == s + [x];
      ProductConcat(s, [x]);
      ProductSingle(x);
      MultiplesProduct(a, n - 1, p);
      CongMod(a * n, p);
      CongMul(Product(s), Pow(a, n - 1) * Factorial(n - 1), x, a * n, p);
      PairUp(Pow(a, n - 1), Factorial(n - 1), a, n);
    }
  }

  lemma PairUp(x: int, y: int, a: int, n: int)
    ensures x * y * (a * n) == (a * x) * (n * y)
  {
    assert x * y * (a * n) == x * (y * (a * n)) == x * (a * (n * y)) == (a * x) * (n * y);
  }

  lemma {:induction false} FactorialNotMultiple(p: int, n: nat)
    requires Prime(p) && n < p
    ensures Factorial(n) % p != 0
  {
    if n == 0 {
      RemainderUnique(1, 0, 1, p);
    } else {
      FactorialNotMultiple(p, n - 1);
      RemainderUnique(n, 0, n, p);
      PrimeNoZeroDivisors(p, n, Factorial(n - 1));
    }
  }

  lemma MultiplesDiffer(a: int, p: int, x: int, y: int)
    requires Prime(p) && a % p != 0 && 0 <= x < y < p
    ensures (a * x) % p != (a * y) % p
  {
    if (a * x) % p == (a * y) % p {
      CongIffMod(a * x, a * y, p);
      CancelPrime(p, a, x, y);
      CongSmall(x, y, p);
    }
  }

  lemma MultipleNonzero(a: int, p: int, x: int)
    requires Prime(p) && a % p != 0 && 0 < x < p
    ensures 1 <= (a * x) % p <= p - 1
  {
    RemainderUnique(x, 0, x, p);
    PrimeNoZeroDivisors(p, a, x);
  }

  lemma MultiplesDistinct(a: int, p: int)
    requires p >= 2 && Prime(p) && a % p != 0
    ensures Distinct(Multiples(a, p - 1, p))
  {
    hide Prime, Multiples;
    var s := Multiples(a, p - 1, p);
    forall i, j | 0 <= i < j < |s| ensures s[i] != s[j] {
      MultiplesDiffer(a, p, i + 1, j + 1);
    }
  }

  lemma MultiplesWithin(a: int, p: int)
    requires p >= 2 && Prime(p) && a % p != 0
    ensures Within(Multiples(a, p - 1, p), p - 1)
  {
    hide Prime, Multiples;
    var s := Multiples(a, p - 1, p);
    forall i | 0 <= i < p - 1 ensures 1 <= s[i] <= p - 1 {
      MultipleNonzero(a, p, i + 1);
    }
  }

  /** Fermat's little theorem. */
  lemma Fermat(a: int, p: int)
    requires Prime(p) && a % p != 0
    ensures Cong(Pow(a, p - 1), 1, p)
  {
    MultiplesDistinct(a, p);
    MultiplesWithin(a, p);
    PermutationProduct(Multiples(a, p - 1, p));
    MultiplesProduct(a, p - 1, p);
    FactorialNotMultiple(p, p - 1);
    var f := Factorial(p - 1);
    CongSym(f, Pow(a, p - 1) * f, p);
    assert Pow(a, p - 1) * f == f * Pow(a, p - 1);
    CancelPrime(p, f, Pow(a, p - 1), 1);
  }

  /** The Fermat inverse a^(p-2) mod p. */
  lemma FermatInverse(a: int, p: int)
    requires Prime(p) && a % p != 0
    ensures Cong(Pow(a, p - 2) * a, 1, p)
  {
    Fermat(a, p);
    assert Pow(a, p - 1) == a * Pow(a, p - 2) == Pow(a, p - 2) * a;
  }
}
