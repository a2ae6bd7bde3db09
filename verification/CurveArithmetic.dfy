/** The curve arithmetic of backend/privacy/ring_sig.js on y^2 = x^3 + b over a prime field. The
    field, the coefficient, the order and the base point are parameters; secp256k1 fixes them. */
module CurveArithmetic {
  import opened NumberTheory

  datatype Point = Infinity | Affine(x: int, y: int)
  datatype Curve = Curve(p: int, n: int, b: int, g: Point)

  // ---- remainders ---------------------------------------------------------

  /** JavaScript's % on BigInt: the sign follows the dividend. */
  function Rem(a: int, m: int): int
    requires m > 0
  {
    if a >= 0 then a % m else -((-a) % m)
  }

  /** mod(a, m) = ((a % m) + m) % m. */
  function Mod(a: int, m: int): int
    requires m > 0
  {
    Rem(Rem(a, m) + m, m)
  }

  /** The double remainder always lands on the remainder in [0, m). */
  lemma ModIsEuclidean(a: int, m: int)
    requires m > 0
    ensures Mod(a, m) == a % m
  {
    if a >= 0 {
      AddModulus(a % m, m);
      RemainderUnique(a % m, 0, a % m, m);
    } else {
      var r := (-a) % m;
      var q := (-a) / m;
      assert -a == m * q + r;
      if r == 0 {
        assert a == (-q) * m + 0;
        RemainderUnique(a, -q, 0, m);
        RemainderUnique(m, 1, 0, m);
      } else {
        assert a == (-q - 1) * m + (m - r);
        RemainderUnique(a, -q - 1, m - r, m);
        RemainderUnique(m - r, 0, m - r, m);
      }
    }
  }

  lemma AddModulus(a: int, m: int)
    requires m > 0
    ensures (a + m) % m == a % m
  {
    assert (a + m) - a == 1 * m;
    CongIntro(a + m, a, 1, m);
    CongIffMod(a + m, a, m);
  }

  // ---- the number-theoretic loops -----------------------------------------

  /** modInv: the extended-Euclid loop on (lm, hm, low, high). */
  method ModInv(a: int, m: int) returns (r: int)
    requires m > 0
    ensures r == Inverse(a, m)
    ensures m > 1 && Coprime(a, m) ==> 0 <= r < m && Cong(r * a, 1, m)
  {
    hide Mod;
    ModIsEuclidean(a, m);
    var lm, hm, low, high := 1, 0, Mod(a, m), m;
    while low > 1
      invariant 0 <= low && 0 < high
      invariant Euclid(lm, hm, low, high) == Euclid(1, 0, a % m, m)
    {
      var q := high / low;
      assert high - low * q == high % low;
      lm, hm := hm - lm * q, lm;
      low, high := high - low * q, low;
    }
    ModIsEuclidean(lm, m);
    r := Mod(lm, m);
    if m > 1 && Coprime(a, m) {
      InverseCorrect(a, m);
    }
  }

  lemma PowSquare(b: int, e: nat)
    ensures Pow(b * b, e) == Pow(b, 2 * e)
  {
    PowMul(b, b, e);
    PowAdd(b, e, e);
  }

  lemma PowStep(r: int, b: int, e: nat, target: int, m: int)
    requires m > 0 && e > 0 && Cong(r * Pow(b, e), target, m)
    ensures Cong((if e % 2 == 1 then (r * b) % m else r) * Pow((b * b) % m, e / 2), target, m)
  {
    var h := e / 2;
    CongMod(b * b, m);
    CongPow((b * b) % m, b * b, h, m);
    PowSquare(b, h);
    var r' := if e % 2 == 1 then (r * b) % m else r;
    var q := if e % 2 == 1 then r * b else r;
    CongMod(r * b, m);
    CongRefl(r, m);
    CongMul(r', q, Pow((b * b) % m, h), Pow(b, 2 * h), m);
    if e % 2 == 1 {
      assert Pow(b, e) == b * Pow(b, 2 * h);
      MulAssoc(r, b, Pow(b, 2 * h));
    }
    CongTrans(r' * Pow((b * b) % m, h), q * Pow(b, 2 * h), target, m);
  }

  /** modPow: square and multiply. */
  method ModPow(base: int, exp: nat, m: int) returns (r: int)
    requires m > 1
    ensures r == Pow(base, exp) % m
  {
    hide Mod;
    var target := PowOf(base, exp);
    ModIsEuclidean(base, m);
    CongMod(base, m);
    CongPow(base % m, base, exp, m);
    var b, e := Mod(base, m), exp;
    r := 1;
    while e > 0
      invariant e >= 0 && 0 <= r < m
      invariant Cong(r * Pow(b, e), target, m)
    {
      PowStep(r, b, e, target, m);
      ModIsEuclidean(r * b, m);
      ModIsEuclidean(b * b, m);
      if e % 2 == 1 {
        r := Mod(r * b, m);
      }
      b := Mod(b * b, m);
      e := e / 2;
    }
    CongMod(target, m);
    CongTrans(r, target, target % m, m);
    CongSmall(r, target % m, m);
  }

  ghost function PowOf(base: int, exp: nat): int { Pow(base, exp) }

  // ---- points -------------------------------------------------------------

  /** The slope of the chord through two points, or of the tangent at one. */
  function Slope(p: int, x1: int, y1: int, x2: int, y2: int): int
    requires p > 0
  {
    if x1 == x2 then Mod(3 * x1 * x1 * Inverse(2 * y1, p), p)
    else Mod((y2 - y1) * Inverse(x2 - x1, p), p)
  }

  /** The point with abscissa s^2 - x1 - x2 on the line through (x1, y1). */
  function Third(p: int, s: int, x1: int, y1: int, x2: int): Point
    requires p > 0
  {
    var x3 := Mod(s * s - x1 - x2, p);
    Affine(x3, Mod(s * (x1 - x3) - y1, p))
  }

  function PointAdd(c: Curve, u: Point, v: Point): Point
    requires c.p > 0
  {
    if u == Infinity then v
    else if v == Infinity then u
    else if u.x == v.x && Mod(u.y + v.y, c.p) == 0 then Infinity
    else Third(c.p, Slope(c.p, u.x, u.y, v.x, v.y), u.x, u.y, v.x)
  }

  /** What double-and-add leaves, started with these values. */
  function DoubleAdd(c: Curve, k: nat, result: Point, addend: Point): Point
    requires c.p > 0
  {
    if k == 0 then result
    else DoubleAdd(c, k / 2, if k % 2 == 1 then PointAdd(c, result, addend) else result, PointAdd(c, addend, addend))
  }

  function PointMul(c: Curve, k: int, point: Point): Point
    requires c.p > 0 && c.n > 0
  {
    DoubleAdd(c, k % c.n, Infinity, point)
  }

  /** pointMul. */
  method MultiplyPoint(c: Curve, k: int, point: Point) returns (result: Point)
    requires c.p > 0 && c.n > 0
    ensures result == PointMul(c, k, point)
    ensures Known(c) && OnCurve(c, point) ==> result == Times(c, k % c.n, point)
  {
    result := Infinity;
    var addend := point;
    ModIsEuclidean(k, c.n);
    var j := Mod(k, c.n);
    while j > 0
      invariant j >= 0 && DoubleAdd(c, j, result, addend) == PointMul(c, k, point)
    {
      if j % 2 == 1 {
        result := PointAdd(c, result, addend);
      }
      addend := PointAdd(c, addend, addend);
      j := j / 2;
    }
    if Known(c) && OnCurve(c, point) {
      PointMulIsTimes(c, k, point);
    }
  }

  // ---- the curve is closed under addition ---------------------------------

  ghost predicate Zero(a: int, p: int)
    requires p > 0
  {
    Cong(a, 0, p)
  }

  ghost predicate OnCurve(c: Curve, u: Point)
    requires c.p > 0
  {
    u.Affine? ==> 0 <= u.x < c.p && 0 <= u.y < c.p && Zero(u.x * u.x * u.x + c.b - u.y * u.y, c.p)
  }

  lemma ZeroAdd(a: int, b: int, p: int)
    requires p > 0 && Zero(a, p) && Zero(b, p)
    ensures Zero(a + b, p) && Zero(a - b, p)
  {
    CongAdd(a, 0, b, 0, p);
    CongSub(a, 0, b, 0, p);
  }

  lemma ZeroMul(a: int, b: int, p: int)
    requires p > 0 && Zero(a, p)
    ensures Zero(a * b, p) && Zero(b * a, p)
  {
    CongRefl(b, p);
    CongMul(a, 0, b, b, p);
    assert 0 * b == 0 && b * a == a * b;
  }

  lemma ZeroCancel(a: int, b: int, p: int)
    requires Prime(p) && a % p != 0 && Zero(a * b, p)
    ensures Zero(b, p)
  {
    assert a * 0 == 0;
    CancelPrime(p, a, b, 0);
  }

  lemma ZeroIsMod(a: int, p: int)
    requires p > 0
    ensures Zero(a, p) <==> a % p == 0
  {
    CongIffMod(a, 0, p);
    RemainderUnique(0, 0, 0, p);
  }

  /** Mod(a, p) differs from a by a multiple of p. */
  lemma ZeroMod(a: int, p: int)
    requires p > 0
    ensures Zero(Mod(a, p) - a, p) && 0 <= Mod(a, p) < p
  {
    ModIsEuclidean(a, p);
    CongMod(a, p);
    CongRefl(a, p);
    CongSub(a % p, a, a, a, p);
  }

  /** The cubic along the line of slope s through (x1, y1), without its constant and linear factor. */
  function Quotient(x1: int, y1: int, s: int, e: int): int {
    3 * x1 * x1 - 2 * s * y1 + (3 * x1 - s * s) * e + e * e
  }

  lemma Square(a: int, b: int)
    ensures (a + b) * (a + b) == a * a + 2 * a * b + b * b
  {
    calc {
      (a + b) * (a + b);
      a * (a + b) + b * (a + b);
      a * a + a * b + (b * a + b * b);
    }
  }

  lemma Cube(a: int, e: int)
    ensures (a + e) * (a + e) * (a + e) == a * a * a + 3 * a * a * e + 3 * a * e * e + e * e * e
  {
    Square(a, e);
    var q := a * a + 2 * a * e + e * e;
    assert (a + e) * (a + e) * (a + e) == q * a + q * e;
    assert q * a == a * a * a + 2 * a * a * e + a * e * e;
    assert q * e == a * a * e + 2 * a * e * e + e * e * e;
  }

  lemma SubTimes(a: int, b: int, e: int)
    ensures (a - b) * e == a * e - b * e && e * (a - b) == a * e - b * e
  {
  }

  lemma AddTimes(a: int, b: int, c: int, e: int)
    ensures e * (a + b + c) == e * a + e * b + e * c
  {
  }

  lemma TimesSquare(a: int, e: int)
    ensures e * (a * e) == a * (e * e) == a * e * e
  {
  }

  lemma ExpandQuotient(x1: int, y1: int, s: int, e: int)
    ensures e * Quotient(x1, y1, s, e)
         == 3 * x1 * x1 * e - 2 * s * y1 * e + 3 * x1 * e * e - s * s * (e * e) + e * e * e
  {
    var a, b, g, h := 3 * x1 * x1, 2 * s * y1, 3 * x1, s * s;
    AddTimes(a - b, (g - h) * e, e * e, e);
    SubTimes(a, b, e);
    SubTimes(g, h, e);
    SubTimes(g * e, h * e, e);
    TimesSquare(g, e);
    TimesSquare(h, e);
    TimesSquare(e, e);
  }

  lemma SquareLine(s: int, e: int, y1: int)
    ensures (s * e + y1) * (s * e + y1) == s * s * (e * e) + 2 * s * y1 * e + y1 * y1
  {
    Square(s * e, y1);
    assert (s * e) * (s * e) == s * s * (e * e);
    assert 2 * (s * e) * y1 == 2 * s * y1 * e;
  }

  /** Taylor expansion of x^3 + b - (line)^2 around x1. */
  lemma LineMeetsCubic(x1: int, y1: int, s: int, e: int, b: int)
    ensures (x1 + e) * (x1 + e) * (x1 + e) + b - (s * e + y1) * (s * e + y1)
         == (x1 * x1 * x1 + b - y1 * y1) + e * Quotient(x1, y1, s, e)
  {
    Cube(x1, e);
    SquareLine(s, e, y1);
    ExpandQuotient(x1, y1, s, e);
    hide Quotient;
  }

  /** Two roots of a monic quadratic factor: the quotient at d and at e differ by this product. */
  lemma QuotientDifference(x1: int, y1: int, s: int, d: int, e: int)
    ensures Quotient(x1, y1, s, e) - Quotient(x1, y1, s, d) == (e - d) * (3 * x1 - s * s + e + d)
  {
    var t := 3 * x1 - s * s;
    assert (e - d) * (t + (e + d)) == (e - d) * t + (e - d) * (e + d);
    assert (e - d) * t == t * e - t * d;
    assert (e - d) * (e + d) == e * e - d * d;
  }

  lemma OtherRoot(x1: int, y1: int, s: int, x2: int, x3: int, p: int)
    requires p > 0 && Zero(Quotient(x1, y1, s, x2 - x1), p) && Zero(x3 - (s * s - x1 - x2), p)
    ensures Zero(Quotient(x1, y1, s, x3 - x1), p)
  {
    hide Quotient, Zero;
    var d, e := x2 - x1, x3 - x1;
    QuotientDifference(x1, y1, s, d, e);
    var t := 3 * x1 - s * s + e + d;
    assert t == x3 - (s * s - x1 - x2);
    ZeroMul(t, e - d, p);
    ZeroAdd((e - d) * t, Quotient(x1, y1, s, d), p);
  }

  lemma PointOnLine(x1: int, y1: int, s: int, x3: int, y3: int, b: int, p: int)
    requires p > 0 && Zero(x1 * x1 * x1 + b - y1 * y1, p) && Zero(Quotient(x1, y1, s, x3 - x1), p)
    requires Zero(y3 - (-(s * (x3 - x1) + y1)), p)
    ensures Zero(x3 * x3 * x3 + b - y3 * y3, p)
  {
    hide Quotient, Zero;
    var e := x3 - x1;
    var line, f := s * e + y1, x3 * x3 * x3 + b;
    LineMeetsCubic(x1, y1, s, e, b);
    assert x1 + e == x3;
    ZeroMul(Quotient(x1, y1, s, e), e, p);
    ZeroAdd(x1 * x1 * x1 + b - y1 * y1, e * Quotient(x1, y1, s, e), p);
    NegatedSquare(line, y3, p);
    var square := line * line;
    ZeroAdd(f - square, square - y3 * y3, p);
  }

  /** A line that meets the cubic at x1 (on the curve) and at x2 meets it at s^2 - x1 - x2. */
  lemma ThirdOnCurve(c: Curve, u: Point, x2: int, s: int)
    requires c.p > 0 && u.Affine? && OnCurve(c, u) && Zero(Quotient(u.x, u.y, s, x2 - u.x), c.p)
    ensures OnCurve(c, Third(c.p, s, u.x, u.y, x2))
  {
    hide Quotient, Mod, Zero;
    var w := Third(c.p, s, u.x, u.y, x2);
    ZeroMod(s * s - u.x - x2, c.p);
    ZeroMod(s * (u.x - w.x) - u.y, c.p);
    OtherRoot(u.x, u.y, s, x2, w.x, c.p);
    assert s * (u.x - w.x) - u.y == -(s * (w.x - u.x) + u.y);
    PointOnLine(u.x, u.y, s, w.x, w.y, c.b, c.p);
  }

  lemma NegatedSquare(a: int, y: int, p: int)
    requires p > 0 && Zero(y - (-a), p)
    ensures Zero(a * a - y * y, p)
  {
    ZeroMul(y - (-a), a - y, p);
    assert (y - (-a)) * (a - y) == a * a - y * y;
  }

  lemma NotMultiple(d: int, p: int)
    requires p > 0 && -p < d < p && d != 0
    ensures d % p != 0
  {
    if d > 0 {
      RemainderUnique(d, 0, d, p);
    } else {
      RemainderUnique(d, -1, d + p, p);
    }
  }

  /** A fraction computed with modInv times its denominator is the numerator. */
  lemma FractionTimes(a: int, d: int, p: int)
    requires Prime(p) && d % p != 0
    ensures Zero(Mod(a * Inverse(d, p), p) * d - a, p)
  {
    hide Mod;
    PrimeCoprime(p, d);
    InverseCorrect(d, p);
    var i := Inverse(d, p);
    ZeroMod(a * i, p);
    var f := Mod(a * i, p);
    ZeroMul(f - a * i, d, p);
    CongRefl(1, p);
    CongSub(i * d, 1, 1, 1, p);
    ZeroMul(i * d - 1, a, p);
    ZeroAdd((f - a * i) * d, a * (i * d - 1), p);
    SubTimes(f, a * i, d);
    SubTimes(i * d, 1, a);
    MulAssoc(a, i, d);
  }

  /** The sum of two points of the curve is a point of the curve. */
  lemma AddOnCurve(c: Curve, u: Point, v: Point)
    requires Prime(c.p) && c.p > 2 && OnCurve(c, u) && OnCurve(c, v)
    ensures OnCurve(c, PointAdd(c, u, v))
  {
    hide Mod, Inverse, Quotient, Third;
    if u.Affine? && v.Affine? && PointAdd(c, u, v).Affine? {
      var s := Slope(c.p, u.x, u.y, v.x, v.y);
      if u.x == v.x {
        TangentQuotient(c, u, v);
      } else {
        ChordQuotient(c, u, v);
      }
      ThirdOnCurve(c, u, v.x, s);
    }
  }

  /** Two points over one abscissa that are not opposite are equal, and the tangent is not vertical. */
  lemma DoubledOrdinate(c: Curve, u: Point, v: Point)
    requires Prime(c.p) && u.Affine? && v.Affine? && OnCurve(c, u) && OnCurve(c, v)
    requires u.x == v.x && Mod(u.y + v.y, c.p) != 0
    ensures u.y == v.y && (2 * u.y) % c.p != 0
  {
    var p, f := c.p, u.x * u.x * u.x + c.b;
    hide Mod, Prime;
    ModIsEuclidean(u.y + v.y, p);
    ZeroAdd(f - v.y * v.y, f - u.y * u.y, p);
    DifferenceOfSquares(u.y, v.y);
    ZeroCancel(u.y + v.y, u.y - v.y, p);
    ZeroIsMod(u.y - v.y, p);
    if u.y != v.y {
      NotMultiple(u.y - v.y, p);
    }
  }

  lemma ChordQuotient(c: Curve, u: Point, v: Point)
    requires Prime(c.p) && u.Affine? && v.Affine? && OnCurve(c, u) && OnCurve(c, v) && u.x != v.x
    ensures Zero(Quotient(u.x, u.y, Slope(c.p, u.x, u.y, v.x, v.y), v.x - u.x), c.p)
  {
    hide Inverse, Mod, Quotient, Zero;
    var p, s, d := c.p, Slope(c.p, u.x, u.y, v.x, v.y), v.x - u.x;
    NotMultiple(d, p);
    FractionTimes(v.y - u.y, d, p);
    assert s * d - (v.y - u.y) == (s * d + u.y) - v.y;
    NegatedSquare(s * d + u.y, -v.y, p) by {
      ZeroMul((s * d + u.y) - v.y, -1, p);
    }
    assert (-v.y) * (-v.y) == v.y * v.y;
    LineMeetsCubic(u.x, u.y, s, d, c.b);
    assert u.x + d == v.x;
    var line := (s * d + u.y) * (s * d + u.y);
    ZeroAdd(v.x * v.x * v.x + c.b - v.y * v.y, line - v.y * v.y, p);
    ZeroAdd(v.x * v.x * v.x + c.b - line, u.x * u.x * u.x + c.b - u.y * u.y, p);
    ZeroCancel(d, Quotient(u.x, u.y, s, d), p);
  }

  lemma QuotientAtZero(x1: int, y1: int, s: int)
    ensures Quotient(x1, y1, s, 0) == (s * (2 * y1) - 3 * x1 * x1) * -1
  {
    assert (3 * x1 - s * s) * 0 == 0;
    assert s * (2 * y1) == 2 * s * y1;
  }

  lemma DifferenceOfSquares(a: int, b: int)
    ensures (a + b) * (a - b) == a * a - b * b
  {
  }

  lemma TangentQuotient(c: Curve, u: Point, v: Point)
    requires Prime(c.p) && c.p > 2 && u.Affine? && v.Affine? && OnCurve(c, u) && OnCurve(c, v)
    requires u.x == v.x && Mod(u.y + v.y, c.p) != 0
    ensures Zero(Quotient(u.x, u.y, Slope(c.p, u.x, u.y, v.x, v.y), v.x - u.x), c.p)
  {
    hide Inverse, Quotient, Mod, Zero;
    var p, s := c.p, Slope(c.p, u.x, u.y, v.x, v.y);
    DoubledOrdinate(c, u, v);
    FractionTimes(3 * u.x * u.x, 2 * u.y, p);
    ZeroMul(s * (2 * u.y) - 3 * u.x * u.x, -1, p);
    QuotientAtZero(u.x, u.y, s);
  }

  /** The line of slope s through u and v, the tangent if they are one point, meets the curve in u, v and the
      reflection of w. */
  ghost predicate Collinear(c: Curve, u: Point, v: Point, w: Point, s: int)
    requires c.p > 0 && u.Affine? && v.Affine? && w.Affine?
  {
    && Zero(s * (v.x - u.x) - (v.y - u.y), c.p) && (u == v ==> Zero(s * (2 * u.y) - 3 * u.x * u.x, c.p))
    && Zero(w.x - (s * s - u.x - v.x), c.p) && Zero(w.y - (-(s * (w.x - u.x) + u.y)), c.p)
  }

  /** What addition is: infinity for opposite points, and otherwise the reflection of the third point on the
      line through both. */
  lemma SumIsReflected(c: Curve, u: Point, v: Point)
    requires Prime(c.p) && c.p > 2 && u.Affine? && v.Affine? && OnCurve(c, u) && OnCurve(c, v)
    ensures PointAdd(c, u, v) == Infinity <==> u.x == v.x && (u.y + v.y) % c.p == 0
    ensures PointAdd(c, u, v).Affine? ==> exists s :: Collinear(c, u, v, PointAdd(c, u, v), s)
  {
    hide Mod, Inverse, Zero, OnCurve, Prime;
    ModIsEuclidean(u.y + v.y, c.p);
    var w := PointAdd(c, u, v);
    if w.Affine? {
      var s := Slope(c.p, u.x, u.y, v.x, v.y);
      if u.x == v.x {
        DoubledOrdinate(c, u, v);
        FractionTimes(3 * u.x * u.x, 2 * u.y, c.p);
        ZeroIsMod(0, c.p);
        RemainderUnique(0, 0, 0, c.p);
      } else {
        ReducedDiffer(c, u, v);
        FractionTimes(v.y - u.y, v.x - u.x, c.p);
      }
      ZeroMod(s * s - u.x - v.x, c.p);
      ZeroMod(s * (u.x - w.x) - u.y, c.p);
      assert s * (u.x - w.x) - u.y == -(s * (w.x - u.x) + u.y);
      assert Collinear(c, u, v, w, s);
    }
  }

  lemma ReducedDiffer(c: Curve, u: Point, v: Point)
    requires c.p > 0 && u.Affine? && v.Affine? && OnCurve(c, u) && OnCurve(c, v) && u.x != v.x
    ensures (v.x - u.x) % c.p != 0
  {
    NotMultiple(v.x - u.x, c.p);
  }

  // ---- the group ----------------------------------------------------------

  ghost predicate AssociativeAt(c: Curve, u: Point, v: Point, w: Point)
    requires c.p > 0
  {
    PointAdd(c, PointAdd(c, u, v), w) == PointAdd(c, u, PointAdd(c, v, w))
  }

  /** The k-fold sum of a point. */
  function Times(c: Curve, k: nat, u: Point): Point
    requires c.p > 0
  {
    if k == 0 then Infinity else PointAdd(c, Times(c, k - 1, u), u)
  }

  ghost predicate OrderAt(c: Curve, u: Point)
    requires c.p > 0 && c.n > 0
  {
    Times(c, c.n, u) == Infinity
  }

  /** What is taken as known about the constants: the field is prime and 3 modulo 4, the base point
      is on the curve, addition is associative there and every point's order divides n. */
  ghost predicate Known(c: Curve) {
    && Prime(c.p) && c.p > 3 && c.p % 4 == 3 && c.n > 1
    && c.g.Affine? && OnCurve(c, c.g)
    && (forall u, v, w :: OnCurve(c, u) && OnCurve(c, v) && OnCurve(c, w) ==> AssociativeAt(c, u, v, w))
    && (forall u :: OnCurve(c, u) ==> OrderAt(c, u))
  }

  lemma {:induction false} TimesOnCurve(c: Curve, k: nat, u: Point)
    requires Prime(c.p) && c.p > 2 && OnCurve(c, u)
    ensures OnCurve(c, Times(c, k, u))
  {
    hide PointAdd;
    if k > 0 {
      TimesOnCurve(c, k - 1, u);
      AddOnCurve(c, Times(c, k - 1, u), u);
    }
  }

  lemma AddInfinity(c: Curve, u: Point)
    requires c.p > 0
    ensures PointAdd(c, Infinity, u) == u && PointAdd(c, u, Infinity) == u
  {
  }

  lemma {:induction false} TimesAdd(c: Curve, j: nat, k: nat, u: Point)
    requires Known(c) && OnCurve(c, u)
    ensures PointAdd(c, Times(c, j, u), Times(c, k, u)) == Times(c, j + k, u)
  {
    hide PointAdd, OnCurve;
    if k == 0 {
      AddInfinity(c, Times(c, j, u));
    } else {
      TimesAdd(c, j, k - 1, u);
      TimesOnCurve(c, j, u);
      TimesOnCurve(c, k - 1, u);
      assert AssociativeAt(c, Times(c, j, u), Times(c, k - 1, u), u);
    }
  }

  function Mul(j: nat, k: nat): (r: nat)
    ensures r == j * k
  {
    MulLeftMono(j + 1, -1, k);
    j * k
  }

  lemma {:induction false} TimesTimes(c: Curve, j: nat, k: nat, u: Point)
    requires Known(c) && OnCurve(c, u)
    ensures Times(c, j, Times(c, k, u)) == Times(c, Mul(j, k), u)
  {
    hide Known, PointAdd, OnCurve;
    if j > 0 {
      TimesTimes(c, j - 1, k, u);
      assert Mul(j - 1, k) + k == Mul(j, k);
      TimesAdd(c, Mul(j - 1, k), k, u);
    }
  }

  lemma {:induction false} TimesOrder(c: Curve, j: nat, u: Point)
    requires Known(c) && OnCurve(c, u)
    ensures Times(c, Mul(j, c.n), u) == Infinity
  {
    hide PointAdd, OnCurve;
    if j > 0 {
      TimesOrder(c, j - 1, u);
      assert Mul(j - 1, c.n) + c.n == Mul(j, c.n);
      TimesAdd(c, Mul(j - 1, c.n), c.n, u);
      assert OrderAt(c, u);
      AddInfinity(c, Infinity);
    }
  }

  /** Scalars count modulo the order. */
  lemma TimesMod(c: Curve, k: nat, u: Point)
    requires Known(c) && OnCurve(c, u)
    ensures Times(c, k, u) == Times(c, k % c.n, u)
  {
    hide Known, PointAdd, OnCurve;
    KnownBounds(c);
    var q := k / c.n;
    assert k == q * c.n + k % c.n;
    TimesOrder(c, q, u);
    TimesAdd(c, Mul(q, c.n), k % c.n, u);
    AddInfinity(c, Times(c, k % c.n, u));
  }

  lemma KnownBounds(c: Curve)
    requires Known(c)
    ensures c.p > 3 && c.n > 1 && Prime(c.p) && c.g.Affine? && OnCurve(c, c.g)
  {
  }

  lemma {:induction false} DoubleAddIsSum(c: Curve, k: nat, r: nat, s: nat, u: Point)
    requires Known(c) && OnCurve(c, u)
    ensures DoubleAdd(c, k, Times(c, r, u), Times(c, s, u)) == Times(c, r + Mul(k, s), u)
    decreases k
  {
    hide Known, PointAdd, OnCurve, Times;
    KnownBounds(c);
    if k > 0 {
      var h := k / 2;
      TimesAdd(c, r, s, u);
      TimesAdd(c, s, s, u);
      var r' := if k % 2 == 1 then r + s else r;
      DoubleAddIsSum(c, h, r', s + s, u);
      assert Mul(h, s + s) == Mul(h, s) + Mul(h, s);
      assert Mul(k, s) == Mul(h, s) + Mul(h, s) + Mul(k % 2, s);
    }
  }

  /** Double-and-add computes the k-fold sum of a point of the curve, k taken modulo the order. */
  lemma PointMulIsTimes(c: Curve, k: int, u: Point)
    requires Known(c) && OnCurve(c, u)
    ensures PointMul(c, k, u) == Times(c, k % c.n, u)
  {
    hide Known, OnCurve, DoubleAdd;
    KnownBounds(c);
    TimesOne(c, u);
    DoubleAddIsSum(c, k % c.n, 0, 1, u);
    assert Mul(k % c.n, 1) == k % c.n;
  }

  lemma TimesOne(c: Curve, u: Point)
    requires c.p > 0
    ensures Times(c, 0, u) == Infinity && Times(c, 1, u) == u
  {
    assert Times(c, 1, u) == PointAdd(c, Times(c, 0, u), u);
  }

  lemma {:induction false} TimesInfinity(c: Curve, k: nat)
    requires c.p > 0
    ensures Times(c, k, Infinity) == Infinity
  {
    if k > 0 {
      TimesInfinity(c, k - 1);
    }
  }

  /** With a prime order only multiples of it take a point of the curve to infinity. */
  lemma PrimeOrder(c: Curve, d: nat, u: Point)
    requires Known(c) && Prime(c.n) && OnCurve(c, u) && u != Infinity && Times(c, d, u) == Infinity
    ensures d % c.n == 0
  {
    hide Known, Times, OnCurve;
    KnownBounds(c);
    if d % c.n != 0 {
      FermatInverse(d, c.n);
      var i := Pow(d, c.n - 2) % c.n;
      CongMod(Pow(d, c.n - 2), c.n);
      CongRefl(d, c.n);
      CongMul(i, Pow(d, c.n - 2), d, d, c.n);
      CongTrans(i * d, Pow(d, c.n - 2) * d, 1, c.n);
      CongIffMod(i * d, 1, c.n);
      RemainderUnique(1, 0, 1, c.n);
      TimesTimes(c, i, d, u);
      TimesInfinity(c, i);
      TimesMod(c, Mul(i, d), u);
      TimesOne(c, u);
    }
  }

  /** With a prime order a multiple of a point determines the scalar modulo the order. */
  lemma TimesInjective(c: Curve, j: nat, k: nat, u: Point)
    requires Known(c) && Prime(c.n) && OnCurve(c, u) && u != Infinity && Times(c, j, u) == Times(c, k, u)
    ensures j % c.n == k % c.n
  {
    hide Known, Times, OnCurve, PointAdd, Mul;
    KnownBounds(c);
    var k' := c.n - k % c.n;
    TimesAdd(c, j, k', u);
    TimesAdd(c, k, k', u);
    Complement(k, c.n);
    TimesOrder(c, k / c.n + 1, u);
    PrimeOrder(c, j + k', u);
    SameRemainder(j, k, c.n);
  }

  lemma Complement(k: nat, n: nat)
    requires n > 0
    ensures k + (n - k % n) == Mul(k / n + 1, n)
  {
    assert k == k / n * n + k % n;
    assert (k / n + 1) * n == k / n * n + n;
  }

  lemma SameRemainder(j: nat, k: nat, n: nat)
    requires n > 0 && (j + (n - k % n)) % n == 0
    ensures j % n == k % n
  {
    var t := (j + (n - k % n)) / n;
    assert j == (t - 1) * n + k % n;
    RemainderUnique(j, t - 1, k % n, n);
  }

  /** The identity behind the closing step: (a - k x)G + k(xG) = aG. */
  lemma ResponseCancels(c: Curve, a: int, k: int, x: int, u: Point)
    requires Known(c) && OnCurve(c, u)
    ensures PointAdd(c, PointMul(c, (a - k * x) % c.n, u), PointMul(c, k, PointMul(c, x, u))) == PointMul(c, a, u)
  {
    hide Known, OnCurve, Times, PointMul, PointAdd;
    KnownBounds(c);
    var n := c.n;
    var r, k', x' := (a - k * x) % n, k % n, x % n;
    PointMulIsTimes(c, r, u);
    RemainderUnique(r, 0, r, n);
    PointMulIsTimes(c, x, u);
    TimesOnCurve(c, x', u);
    PointMulIsTimes(c, k, Times(c, x', u));
    TimesTimes(c, k', x', u);
    TimesAdd(c, r, Mul(k', x'), u);
    TimesMod(c, r + Mul(k', x'), u);
    PointMulIsTimes(c, a, u);
    ResponseCongruence(a, k, x, n);
  }

  lemma ResponseCongruence(a: int, k: int, x: int, n: int)
    requires n > 0
    ensures ((a - k * x) % n + (k % n) * (x % n)) % n == a % n
  {
    CongMod(a - k * x, n);
    CongMod(k, n);
    CongMod(x, n);
    CongMul(k % n, k, x % n, x, n);
    CongAdd((a - k * x) % n, a - k * x, (k % n) * (x % n), k * x, n);
    CongIffMod((a - k * x) % n + (k % n) * (x % n), a, n);
  }

  // ---- a curve where all of this holds ------------------------------------

  /** y^2 = x^3 + 4 modulo 7: two points and infinity. */
  const SMALL: Curve := Curve(7, 3, 4, Affine(0, 2))

  lemma SmallPoints(u: Point)
    requires OnCurve(SMALL, u)
    ensures u == Infinity || u == Affine(0, 2) || u == Affine(0, 5)
  {
    if u.Affine? {
      ZeroIsMod(u.x * u.x * u.x + 4 - u.y * u.y, 7);
      SmallSolutions(u.x, u.y);
    }
  }

  lemma SmallSolutions(x: int, y: int)
    requires 0 <= x < 7 && 0 <= y < 7 && (x * x * x + 4 - y * y) % 7 == 0
    ensures x == 0 && (y == 2 || y == 5)
  {
    assert x == 0 || x == 1 || x == 2 || x == 3 || x == 4 || x == 5 || x == 6;
    assert y == 0 || y == 1 || y == 2 || y == 3 || y == 4 || y == 5 || y == 6;
  }

  lemma SmallSums()
    ensures PointAdd(SMALL, Affine(0, 2), Affine(0, 2)) == Affine(0, 5)
    ensures PointAdd(SMALL, Affine(0, 5), Affine(0, 5)) == Affine(0, 2)
    ensures PointAdd(SMALL, Affine(0, 2), Affine(0, 5)) == Infinity == PointAdd(SMALL, Affine(0, 5), Affine(0, 2))
  {
    hide PointAdd;
    SmallDouble(2);
    SmallDouble(5);
    SmallOpposite(2);
    SmallOpposite(5);
  }

  lemma SmallOpposite(y: int)
    ensures PointAdd(SMALL, Affine(0, y), Affine(0, 7 - y)) == Infinity
  {
    hide Inverse, Mod, Slope, Third;
    ModIsEuclidean(7, 7);
  }

  lemma SmallDouble(y: int)
    requires y == 2 || y == 5
    ensures PointAdd(SMALL, Affine(0, y), Affine(0, y)) == Affine(0, 7 - y)
  {
    hide Inverse, Mod;
    ModIsEuclidean(y + y, 7);
    ModIsEuclidean(0, 7);
    ModIsEuclidean(-y, 7);
    assert 3 * 0 * 0 * Inverse(2 * y, 7) == 0;
  }

  /** The hypotheses about the constants can be met together. */
  lemma KnownIsPossible()
    ensures Known(SMALL)
  {
    hide PointAdd, OnCurve, Zero;
    SmallSums();
    assert OnCurve(SMALL, SMALL.g) by { SmallBase(); }
    forall u, v, w | OnCurve(SMALL, u) && OnCurve(SMALL, v) && OnCurve(SMALL, w) ensures AssociativeAt(SMALL, u, v, w) {
      SmallPoints(u);
      SmallPoints(v);
      SmallPoints(w);
      SmallAssociative(u, v, w);
    }
    forall u | OnCurve(SMALL, u) ensures OrderAt(SMALL, u) {
      SmallPoints(u);
      AddInfinity(SMALL, u);
      assert Times(SMALL, 1, u) == u && Times(SMALL, 2, u) == PointAdd(SMALL, u, u);
    }
  }

  lemma SmallBase()
    ensures OnCurve(SMALL, Affine(0, 2))
  {
    ZeroIsMod(0 * 0 * 0 + 4 - 2 * 2, 7);
  }

  lemma SmallAssociative(u: Point, v: Point, w: Point)
    requires u == Infinity || u == Affine(0, 2) || u == Affine(0, 5)
    requires v == Infinity || v == Affine(0, 2) || v == Affine(0, 5)
    requires w == Infinity || w == Affine(0, 2) || w == Affine(0, 5)
    ensures AssociativeAt(SMALL, u, v, w)
  {
    hide PointAdd;
    SmallSums();
    AddInfinity(SMALL, u);
    AddInfinity(SMALL, v);
    AddInfinity(SMALL, w);
    AddInfinity(SMALL, Affine(0, 2));
    AddInfinity(SMALL, Affine(0, 5));
  }
}
