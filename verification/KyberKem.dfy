/** The lattice key encapsulation of backend/pqc/kyber.py: rounding, negacyclic products,
    key generation, encapsulation, decapsulation, and exactly when decapsulation is right. */
module KyberKem {
  import opened Sums
  import opened Negacyclic
  import opened NumberTheory
  import opened ModuleLattice

  type Poly = seq<int>

  // ---- rounding -----------------------------------------------------------

  /** numpy's round of num / den: to nearest, ties to the even neighbour. */
  function RoundHalfEven(num: int, den: int): (w: int)
    requires den > 0
    ensures -den <= 2 * (w * den - num) <= den
    ensures 2 * (w * den - num) == den || 2 * (w * den - num) == -den ==> w % 2 == 0
  {
    var q, r := num / den, num % den;
    assert num == den * q + r;
    assert q * den == den * q && (q + 1) * den == den * q + den;
    if 2 * r < den then q else if 2 * r > den then q + 1 else if q % 2 == 0 then q else q + 1
  }

  function TwoTo(d: nat): (r: int)
    ensures r > 0
  {
    if d == 0 then 1 else 2 * TwoTo(d - 1)
  }

  function Compress(x: int, d: nat): int {
    RoundHalfEven(x * TwoTo(d), Q) % TwoTo(d)
  }

  function Decompress(y: int, d: nat): int {
    RoundHalfEven(y * Q, TwoTo(d))
  }

  /** The representative of z modulo q in [-1664, 1664]. */
  function Center(z: int): (r: int)
    ensures -1664 <= r <= 1664
  {
    (z + 1664) % Q - 1664
  }

  lemma CenterCong(z: int)
    ensures Cong(Center(z), z, Q)
  {
    var k := (z + 1664) / Q;
    CongIntro(Center(z), z, -k, Q);
  }

  lemma TwoToValues()
    ensures TwoTo(4) == 16 && TwoTo(10) == 1024
  {
    assert TwoTo(2) == 4 && TwoTo(4) == 4 * TwoTo(2);
    assert TwoTo(6) == 4 * TwoTo(4) && TwoTo(8) == 4 * TwoTo(6) && TwoTo(10) == 4 * TwoTo(8);
  }

  lemma RoundingError10(x: int, w: int, y: int, z: int)
    requires 0 <= x < Q && y == w % 1024
    requires -Q <= 2 * (w * Q - x * 1024) <= Q
    requires -1024 <= 2 * (z * 1024 - y * Q) <= 1024
    ensures -2 <= Center(z - x) <= 2
  {
    hide Center;
    assert 0 <= w <= 1024;
    assert y == if w == 1024 then 0 else w;
    if w == 1024 {
      assert z == 0 && x == 3328;
    } else {
      assert -2 <= z - x <= 2;
    }
    CenterSmall(z - x);
  }

  lemma CenterSmall(v: int)
    ensures -2 <= v <= 2 ==> Center(v) == v
    ensures v == -3328 ==> Center(v) == 1
  {
  }

  lemma RoundingError4(x: int, w: int, y: int, z: int)
    requires 0 <= x < Q && y == w % 16
    requires -Q <= 2 * (w * Q - x * 16) <= Q
    requires -16 <= 2 * (z * 16 - y * Q) <= 16
    ensures -104 <= Center(z - x) <= 104
  {
    assert 0 <= w <= 16;
    assert y == if w == 16 then 0 else w;
  }

  /** Compressing to 10 bits and back moves a coefficient by at most 2 modulo q. */
  lemma CompressError10(x: int)
    requires 0 <= x < Q
    ensures -2 <= Center(Decompress(Compress(x, 10), 10) - x) <= 2
  {
    TwoToValues();
    var y := Compress(x, 10);
    RoundingError10(x, RoundHalfEven(x * 1024, Q), y, Decompress(y, 10));
  }

  /** Compressing to 4 bits and back moves a coefficient by at most 104 modulo q. */
  lemma CompressError4(x: int)
    requires 0 <= x < Q
    ensures -104 <= Center(Decompress(Compress(x, 4), 4) - x) <= 104
  {
    TwoToValues();
    var y := Compress(x, 4);
    RoundingError4(x, RoundHalfEven(x * 16, Q), y, Decompress(y, 4));
  }

  /** y + k levels is a whole number nearest to x levels / 3329. */
  predicate NearestAt(y: int, x: int, levels: int, k: int) {
    -3329 <= 2 * ((y + k * levels) * 3329 - x * levels) <= 3329
  }

  /** y is a field of that many levels, and nearest to x levels / 3329 modulo the levels. */
  ghost predicate IsField(y: int, x: int, levels: int) { 0 <= y < levels && exists k :: NearestAt(y, x, levels, k) }

  lemma CompressIsField(x: int, d: nat)
    ensures IsField(Compress(x, d), x, TwoTo(d))
  {
    var m := TwoTo(d);
    var w := RoundHalfEven(x * m, Q);
    assert w == m * (w / m) + w % m;
    assert NearestAt(w % m, x, m, w / m) by {
      assert w % m + (w / m) * m == w;
    }
  }

  lemma MultipleWithin(a: int, b: int, k: int, levels: int)
    requires 0 <= a < levels && 0 <= b < levels && a - b == k * levels
    ensures a == b
  {
    assert k >= 1 ==> k * levels >= levels;
    assert k <= -1 ==> k * levels <= -levels;
  }

  lemma SameNearest(a: int, b: int, t: int)
    requires -3329 <= 2 * (a * 3329 - t) <= 3329 && -3329 <= 2 * (b * 3329 - t) <= 3329
    ensures a == b
  {
  }

  /** There is only one such field, because 3329 is odd: no coefficient lies in the middle. */
  lemma FieldUnique(y: int, z: int, x: int, levels: int)
    requires IsField(y, x, levels) && IsField(z, x, levels)
    ensures y == z
  {
    var k :| NearestAt(y, x, levels, k);
    var l :| NearestAt(z, x, levels, l);
    SameNearest(y + k * levels, z + l * levels, x * levels);
    assert z - y == (k - l) * levels;
    hide *;
    MultipleWithin(z, y, k - l, levels);
  }

  /** Decompression rounds y 3329 / 2^d to nearest, ties to even. */
  lemma DecompressNearest(y: int)
    ensures -512 <= Decompress(y, 10) * 1024 - y * 3329 <= 512 && -8 <= Decompress(y, 4) * 16 - y * 3329 <= 8
    ensures Decompress(y, 10) * 1024 - y * 3329 == 512 || Decompress(y, 10) * 1024 - y * 3329 == -512 ==> Decompress(y, 10) % 2 == 0
    ensures Decompress(y, 4) * 16 - y * 3329 == 8 || Decompress(y, 4) * 16 - y * 3329 == -8 ==> Decompress(y, 4) % 2 == 0
  {
    TwoToValues();
  }

  // ---- polynomials as sequences -------------------------------------------

  function Coeff(a: Poly, i: int): int {
    if 0 <= i < |a| then a[i] else 0
  }

  function ConvolveTerm(a: Poly, b: Poly, k: int): Fn {
    i => Coeff(a, i) * Coeff(b, k - i)
  }

  function ConvolveAt(a: Poly, b: Poly, k: int): int {
    Sum(ConvolveTerm(a, b, k), 0, |a|)
  }

  /** numpy.convolve in its default, full mode. */
  function Convolve(a: Poly, b: Poly): (c: Poly)
    requires |a| > 0 && |b| > 0
  {
    seq(|a| + |b| - 1, k => ConvolveAt(a, b, k))
  }

  function NegacyclicConvolve(a: Poly, b: Poly, n: nat): (r: Poly)
    requires |a| == |b| == n > 0
    ensures |r| == n && InRange(r)
  {
    var c := Convolve(a, b);
    var padded := c + seq(2 * n - |c|, _ => 0);
    seq(n, k requires 0 <= k < n => (padded[k] - padded[n + k]) % Q)
  }

  /** The antiperiodic extension of a coefficient list. */
  function ExtAt(a: Poly, t: int): int {
    if |a| == 0 then 0 else if (t / |a|) % 2 == 0 then a[t % |a|] else -a[t % |a|]
  }

  function Ext(a: Poly): Fn {
    t => ExtAt(a, t)
  }

  lemma ExtNear(a: Poly, t: int)
    requires |a| > 0 && -|a| <= t < |a|
    ensures Ext(a)(t) == if t >= 0 then a[t] else -a[t + |a|]
  {
    if t >= 0 {
      RemainderUnique(t, 0, t, |a|);
    } else {
      RemainderUnique(t, -1, t + |a|, |a|);
    }
  }

  lemma NextPeriod(t: int, n: nat)
    requires n > 0
    ensures (t + n) / n == t / n + 1 && (t + n) % n == t % n
  {
    var q := t / n;
    assert t == n * q + t % n;
    assert (q + 1) * n == n * q + n;
    RemainderUnique(t + n, q + 1, t % n, n);
  }

  lemma ExtParts(a: Poly, t: int, q: int, r: nat)
    requires r < |a| && t / |a| == q && t % |a| == r
    ensures ExtAt(a, t) == if q % 2 == 0 then a[r] else -a[r]
  {
  }

  lemma ExtAnti(a: Poly)
    requires |a| > 0
    ensures Anti(Ext(a), |a|)
  {
    hide ExtAt;
    forall t ensures AntiAt(Ext(a), |a|, t) {
      var q, r := t / |a|, t % |a|;
      NextPeriod(t, |a|);
      ExtParts(a, t, q, r);
      ExtParts(a, t + |a|, q + 1, r);
    }
  }

  lemma ConvolveTermSplits(a: Poly, b: Poly, n: nat, k: int, i: int)
    requires |a| == |b| == n > 0 && 0 <= k < n && 0 <= i < n
    ensures ConvolveTerm(a, b, k)(i) == Term(Ext(a), Ext(b), k)(i) + ConvolveTerm(a, b, n + k)(i)
  {
    ExtNear(a, i);
    ExtNear(b, k - i);
    if k - i < 0 {
      assert n + k - i == k - i + n;
      assert Coeff(b, k - i) == 0 && Coeff(b, n + k - i) == -Ext(b)(k - i);
      NegRight(a[i], Ext(b)(k - i));
    } else {
      assert Coeff(b, n + k - i) == 0 && Coeff(b, k - i) == Ext(b)(k - i);
    }
  }

  lemma ConvolveFolds(a: Poly, b: Poly, n: nat, k: int)
    requires |a| == |b| == n > 0 && 0 <= k < n
    ensures ConvolveAt(a, b, k) - ConvolveAt(a, b, n + k) == Conv(Ext(a), Ext(b), n, k)
  {
    forall i | 0 <= i < n
      ensures ConvolveTerm(a, b, k)(i) == Term(Ext(a), Ext(b), k)(i) + ConvolveTerm(a, b, n + k)(i)
    {
      ConvolveTermSplits(a, b, n, k, i);
    }
    SumAdd(Term(Ext(a), Ext(b), k), ConvolveTerm(a, b, n + k), ConvolveTerm(a, b, k), 0, n);
  }

  /** The padded difference of the full convolution is multiplication modulo x^n + 1. */
  lemma NegacyclicMeaning(a: Poly, b: Poly, n: nat, k: int)
    requires |a| == |b| == n > 0 && 0 <= k < n
    ensures Cong(NegacyclicConvolve(a, b, n)[k], Conv(Ext(a), Ext(b), n, k), Q)
  {
    ConvolveFolds(a, b, n, k);
    LastConvolveAt(a, b, n);
    CongMod(ConvolveAt(a, b, k) - ConvolveAt(a, b, n + k), Q);
  }

  lemma LastConvolveAt(a: Poly, b: Poly, n: nat)
    requires |a| == |b| == n > 0
    ensures ConvolveAt(a, b, 2 * n - 1) == 0
  {
    var f := ConvolveTerm(a, b, 2 * n - 1);
    forall i | 0 <= i < n ensures f(i) == 0 {
      assert Coeff(b, 2 * n - 1 - i) == 0;
    }
    SumZero(f, 0, n);
  }

  // ---- vectors and matrices of polynomials --------------------------------

  ghost predicate VecShape(s: seq<Poly>, dim: nat, n: nat) {
    |s| == dim && forall i :: 0 <= i < dim ==> |s[i]| == n
  }

  ghost predicate MatShape(a: seq<seq<Poly>>, dim: nat, n: nat) {
    |a| == dim && forall i :: 0 <= i < dim ==> VecShape(a[i], dim, n)
  }

  function ZeroFn(): Fn { _ => 0 }

  function EntryFn(s: seq<Poly>, i: int): Fn {
    if 0 <= i < |s| then Ext(s[i]) else ZeroFn()
  }

  function VecOf(s: seq<Poly>): Vec {
    i => EntryFn(s, i)
  }

  function CellFn(a: seq<seq<Poly>>, i: int, j: int): Fn {
    if 0 <= i < |a| then EntryFn(a[i], j) else ZeroFn()
  }

  function MatOf(a: seq<seq<Poly>>): Mat {
    (i, j) => CellFn(a, i, j)
  }

  lemma VecOfAnti(s: seq<Poly>, dim: nat, n: nat)
    requires VecShape(s, dim, n) && n > 0
    ensures AntiVec(VecOf(s), dim, n)
  {
    forall i | 0 <= i < dim ensures Anti(VecOf(s)(i), n) { ExtAnti(s[i]); }
  }

  lemma MatOfAnti(a: seq<seq<Poly>>, dim: nat, n: nat)
    requires MatShape(a, dim, n) && n > 0
    ensures AntiMat(MatOf(a), dim, n)
  {
    forall i, j | 0 <= i < dim && 0 <= j < dim ensures Anti(MatOf(a)(i, j), n) {
      assert VecShape(a[i], dim, n);
      ExtAnti(a[i][j]);
    }
  }

  // ---- what the operations compute ----------------------------------------

  /** The polynomial whose coefficients are f(0), ..., f(n-1) modulo q. */
  function Reduce(f: Fn, n: nat): (p: Poly)
    ensures |p| == n && InRange(p) && forall c :: 0 <= c < n ==> p[c] == f(c) % Q
  {
    seq(n, c => f(c) % Q)
  }

  /** Every coefficient is a residue modulo q. */
  ghost predicate InRange(p: Poly) {
    forall c :: 0 <= c < |p| ==> 0 <= p[c] < Q
  }

  /** A x + err, as in the key (matrix A) and in the first ciphertext part (its transpose). */
  function NoisyProduct(a: Mat, x: seq<Poly>, err: seq<Poly>, dim: nat, n: nat): (t: seq<Poly>)
    ensures VecShape(t, dim, n) && forall i :: 0 <= i < dim ==> InRange(t[i])
  {
    seq(dim, i => NoisyEntry(a, x, err, dim, n, i))
  }

  function NoisyEntry(a: Mat, x: seq<Poly>, err: seq<Poly>, dim: nat, n: nat, i: int): (p: Poly)
    ensures |p| == n && InRange(p)
  {
    Reduce(Plus(MatVec(a, VecOf(x), dim, n)(i), EntryFn(err, i)), n)
  }

  function Times(z: int, f: Fn): Fn {
    c => z * f(c)
  }

  function DotFn(x: Vec, y: Vec, dim: nat, n: nat): Fn {
    c => Dot(x, y, dim, n, c)
  }

  /** t . r + e2 + message * (q / 2) */
  function Masked(t: seq<Poly>, r: seq<Poly>, e2: Poly, message: Poly, dim: nat, n: nat): (v: Poly)
    ensures |v| == n && InRange(v)
  {
    Reduce(Plus(Plus(DotFn(VecOf(t), VecOf(r), dim, n), Ext(e2)), Times(Q / 2, Ext(message))), n)
  }

  /** v - s . u */
  function Unmasked(v: Poly, s: seq<Poly>, u: seq<Poly>, dim: nat, n: nat): (w: Poly)
    ensures |w| == n && InRange(w)
  {
    Reduce(Plus(Ext(v), Times(-1, DotFn(VecOf(s), VecOf(u), dim, n))), n)
  }

  function DecodeBit(w: int): int {
    if (if w <= Q - w then w else Q - w) > Q / 4 then 1 else 0
  }

  function CompressPoly(p: Poly, d: nat): (r: Poly)
    ensures |r| == |p| && forall c :: 0 <= c < |p| ==> r[c] == Compress(p[c], d)
  {
    seq(|p|, c requires 0 <= c < |p| => Compress(p[c], d))
  }

  function DecompressPoly(p: Poly, d: nat): (r: Poly)
    ensures |r| == |p| && forall c :: 0 <= c < |p| ==> r[c] == Decompress(p[c], d)
  {
    seq(|p|, c requires 0 <= c < |p| => Decompress(p[c], d))
  }

  /** A compressed polynomial: every coefficient is a field of that many levels. */
  ghost predicate IsCompressed(y: Poly, x: Poly, levels: int) {
    |y| == |x| && forall c :: 0 <= c < |x| ==> IsField(y[c], x[c], levels)
  }

  lemma CompressedIs(p: Poly, d: nat)
    ensures IsCompressed(CompressPoly(p, d), p, TwoTo(d))
  {
    hide Compress, IsField;
    forall c | 0 <= c < |p| ensures IsField(CompressPoly(p, d)[c], p[c], TwoTo(d)) {
      CompressIsField(p[c], d);
    }
  }

  lemma CompressedVecIs(s: seq<Poly>)
    ensures forall i :: 0 <= i < |s| ==> IsCompressed(CompressVec(s, 10)[i], s[i], 1024)
  {
    hide CompressPoly, IsCompressed;
    TwoToValues();
    forall i | 0 <= i < |s| ensures IsCompressed(CompressVec(s, 10)[i], s[i], 1024) {
      CompressedIs(s[i], 10);
    }
  }

  function CompressVec(s: seq<Poly>, d: nat): (r: seq<Poly>)
    ensures |r| == |s| && forall i :: 0 <= i < |s| ==> r[i] == CompressPoly(s[i], d)
  {
    seq(|s|, i requires 0 <= i < |s| => CompressPoly(s[i], d))
  }

  function DecompressVec(s: seq<Poly>, d: nat): (r: seq<Poly>)
    ensures |r| == |s| && forall i :: 0 <= i < |s| ==> r[i] == DecompressPoly(s[i], d)
  {
    seq(|s|, i requires 0 <= i < |s| => DecompressPoly(s[i], d))
  }

  // ---- noise --------------------------------------------------------------

  /** What compression changes, coefficient by coefficient, centred modulo q. */
  function Loss(p: Poly, d: nat): (r: Poly)
    ensures |r| == |p|
    ensures forall c :: 0 <= c < |p| ==> r[c] == Center(Decompress(Compress(p[c], d), d) - p[c])
  {
    seq(|p|, c requires 0 <= c < |p| => Center(Decompress(Compress(p[c], d), d) - p[c]))
  }

  function LossVec(s: seq<Poly>, d: nat): (r: seq<Poly>)
    ensures |r| == |s| && forall i :: 0 <= i < |s| ==> r[i] == Loss(s[i], d)
  {
    seq(|s|, i requires 0 <= i < |s| => Loss(s[i], d))
  }

  datatype Draws = Draws(a: seq<seq<Poly>>, s: seq<Poly>, e: seq<Poly>,
                         r: seq<Poly>, e1: seq<Poly>, e2: Poly, message: Poly)
  {
    ghost predicate Valid(dim: nat, n: nat) {
      && MatShape(a, dim, n)
      && VecShape(s, dim, n) && VecShape(e, dim, n)
      && VecShape(r, dim, n) && VecShape(e1, dim, n)
      && |e2| == n && |message| == n
      && forall c :: 0 <= c < n ==> message[c] == 0 || message[c] == 1
    }

    function T(dim: nat, n: nat): seq<Poly> { NoisyProduct(MatOf(a), s, e, dim, n) }

    function U(dim: nat, n: nat): seq<Poly> { NoisyProduct(Transpose(MatOf(a)), r, e1, dim, n) }

    function V(dim: nat, n: nat): Poly {
      Masked(DecompressVec(CompressVec(T(dim, n), 10), 10), r, e2, message, dim, n)
    }

    /** e.r + lossT.r + e2 + lossV - s.e1 - s.lossU, coefficient c */
    function Noise(dim: nat, n: nat, c: int): int {
      Dot(VecOf(e), VecOf(r), dim, n, c) + Dot(VecOf(LossVec(T(dim, n), 10)), VecOf(r), dim, n, c)
      + ExtAt(e2, c) + ExtAt(Loss(V(dim, n), 4), c)
      - Dot(VecOf(s), VecOf(e1), dim, n, c) - Dot(VecOf(s), VecOf(LossVec(U(dim, n), 10)), dim, n, c)
    }

    /** The polynomial decapsulation looks at before it decodes bits. */
    function Recovered(dim: nat, n: nat): (w: Poly)
      ensures |w| == n && InRange(w)
    {
      Unmasked(DecompressPoly(CompressPoly(V(dim, n), 4), 4), s,
               DecompressVec(CompressVec(U(dim, n), 10), 10), dim, n)
    }
  }

  lemma PlusAnti(f: Fn, g: Fn, n: int)
    requires Anti(f, n) && Anti(g, n)
    ensures Anti(Plus(f, g), n)
  {
    forall t ensures AntiAt(Plus(f, g), n, t) {
      assert AntiAt(f, n, t) && AntiAt(g, n, t);
    }
  }

  ghost predicate PolyIsSum(back: Poly, m: Fn, err: Poly, loss: Poly) {
    forall u :: Eq(Ext(back)(u), Plus(Plus(m, Ext(err)), Ext(loss))(u))
  }

  /** `loss` records what turned p into `back`. */
  ghost predicate IsLoss(p: Poly, back: Poly, loss: Poly) {
    |p| == |back| == |loss| && forall c :: 0 <= c < |p| ==> loss[c] == Center(back[c] - p[c])
  }

  lemma LossIsLoss(p: Poly, d: nat)
    ensures IsLoss(p, DecompressPoly(CompressPoly(p, d), d), Loss(p, d))
  {
  }

  /** Compressing a reduced polynomial moves each coefficient by at most 2 (10 bits) or 104 (4 bits). */
  lemma LossBounds(p: Poly)
    requires InRange(p)
    ensures forall c :: 0 <= c < |p| ==> -2 <= Loss(p, 10)[c] <= 2
    ensures forall c :: 0 <= c < |p| ==> -104 <= Loss(p, 4)[c] <= 104
  {
    hide Compress, Decompress, Center;
    forall c | 0 <= c < |p|
      ensures -2 <= Loss(p, 10)[c] <= 2 && -104 <= Loss(p, 4)[c] <= 104
    {
      CompressError10(p[c]);
      CompressError4(p[c]);
    }
  }

  lemma CoefficientSplits(z: int, p: int, back: int)
    requires p == z % Q
    ensures Cong(back, z + Center(back - p), Q)
  {
    CenterCong(back - p);
    CongMod(z, Q);
    CongSym(Center(back - p), back - p, Q);
    CongAdd(p, z, back - p, Center(back - p), Q);
  }

  lemma PolySplitsNear(m: Fn, err: Poly, back: Poly, loss: Poly, n: nat, c: int)
    requires |err| == n && 0 <= c < n && IsLoss(Reduce(Plus(m, Ext(err)), n), back, loss)
    ensures Eq(Ext(back)(c), Plus(Plus(m, Ext(err)), Ext(loss))(c))
  {
    hide Ext, ExtAt, Cong;
    ExtNear(back, c);
    ExtNear(loss, c);
    CoefficientSplits(Plus(m, Ext(err))(c), Reduce(Plus(m, Ext(err)), n)[c], back[c]);
  }

  /** One polynomial after reduction, compression and decompression. */
  lemma PolySplits(m: Fn, err: Poly, back: Poly, loss: Poly, n: nat)
    requires n > 0 && |err| == n && Anti(m, n) && IsLoss(Reduce(Plus(m, Ext(err)), n), back, loss)
    ensures PolyIsSum(back, m, err, loss)
  {
    var sum := Plus(Plus(m, Ext(err)), Ext(loss));
    forall c | 0 <= c < n ensures Eq(Ext(back)(c), sum(c)) { PolySplitsNear(m, err, back, loss, n, c); }
    assert Anti(Ext(back), n) by { ExtAnti(back); }
    assert Anti(sum, n) by {
      ExtAnti(err);
      ExtAnti(loss);
      PlusAnti(m, Ext(err), n);
      PlusAnti(Plus(m, Ext(err)), Ext(loss), n);
    }
    forall u { AntiCong(Ext(back), sum, n, u); }
  }

  lemma LiftSplit(back: seq<Poly>, m: Vec, err: seq<Poly>, loss: seq<Poly>, i: int)
    requires 0 <= i < |back| && |back| == |err| == |loss|
    requires PolyIsSum(back[i], m(i), err[i], loss[i])
    ensures SplitsAt(VecOf(back), m, VecOf(err), VecOf(loss), i)
  {
    forall u ensures Eq(VecOf(back)(i)(u), m(i)(u) + VecOf(err)(i)(u) + VecOf(loss)(i)(u)) {
      assert Eq(Ext(back[i])(u), Plus(Plus(m(i), Ext(err[i])), Ext(loss[i]))(u));
    }
  }

  /** After compression, a vector A x + err is congruent to A x + err + loss. */
  lemma ProductSplits(a: Mat, x: seq<Poly>, err: seq<Poly>, dim: nat, n: nat, i: int)
    requires n > 0 && 0 <= i < dim && VecShape(x, dim, n) && VecShape(err, dim, n)
    ensures var t := NoisyProduct(a, x, err, dim, n);
            SplitsAt(VecOf(DecompressVec(CompressVec(t, 10), 10)),
                     MatVec(a, VecOf(x), dim, n), VecOf(err), VecOf(LossVec(t, 10)), i)
  {
    var m := MatVec(a, VecOf(x), dim, n);
    var t := NoisyProduct(a, x, err, dim, n);
    assert Anti(m(i), n) by {
      VecOfAnti(x, dim, n);
      MatVecAnti(a, VecOf(x), dim, n);
    }
    var back, loss := DecompressPoly(CompressPoly(t[i], 10), 10), Loss(t[i], 10);
    LossIsLoss(t[i], 10);
    PolySplits(m(i), err[i], back, loss, n);
    LiftSplit(DecompressVec(CompressVec(t, 10), 10), m, err, LossVec(t, 10), i);
  }

  // ---- correctness of decapsulation ---------------------------------------

  /** Adding up the congruences of one coefficient; `mask` is what key and ciphertext share. */
  lemma Combine(rec: int, vb: int, v: int, lossV: int, tr: int, su: int, mask: int,
                er: int, lr: int, e1s: int, lus: int, e2: int, m: int)
    requires Cong(rec, vb - su, Q)
    requires Cong(vb, v + lossV, Q)
    requires Cong(v, tr + e2 + 1664 * m, Q)
    requires Cong(tr, mask + er + lr, Q)
    requires Cong(su, mask + e1s + lus, Q)
    ensures Cong(rec, 1664 * m + (er + lr + e2 + lossV - e1s - lus), Q)
  {
    var k1 := CongWitness(rec, vb - su, Q);
    var k2 := CongWitness(vb, v + lossV, Q);
    var k3 := CongWitness(v, tr + e2 + 1664 * m, Q);
    var k4 := CongWitness(tr, mask + er + lr, Q);
    var k5 := CongWitness(su, mask + e1s + lus, Q);
    CongIntro(rec, 1664 * m + (er + lr + e2 + lossV - e1s - lus), k1 + k2 + k3 + k4 - k5, Q);
  }

  /** t . r, with t compressed and decompressed, is A s . r + e . r + loss . r. */
  lemma KeySide(d: Draws, dim: nat, n: nat, c: int)
    requires n > 0 && d.Valid(dim, n)
    ensures Eq(Dot(VecOf(DecompressVec(CompressVec(d.T(dim, n), 10), 10)), VecOf(d.r), dim, n, c),
               Dot(MatVec(MatOf(d.a), VecOf(d.s), dim, n), VecOf(d.r), dim, n, c)
               + Dot(VecOf(d.e), VecOf(d.r), dim, n, c) + Dot(VecOf(LossVec(d.T(dim, n), 10)), VecOf(d.r), dim, n, c))
  {
    hide Sum, Conv, ExtAt, Compress, Decompress;
    forall i | 0 <= i < dim { ProductSplits(MatOf(d.a), d.s, d.e, dim, n, i); }
    DotSplit(VecOf(DecompressVec(CompressVec(d.T(dim, n), 10), 10)), MatVec(MatOf(d.a), VecOf(d.s), dim, n),
             VecOf(d.e), VecOf(LossVec(d.T(dim, n), 10)), VecOf(d.r), dim, n, c);
  }

  /** s . u, with u compressed and decompressed, is A s . r + s . e1 + s . loss. */
  lemma CipherSide(d: Draws, dim: nat, n: nat, c: int)
    requires n > 0 && d.Valid(dim, n)
    ensures Eq(Dot(VecOf(d.s), VecOf(DecompressVec(CompressVec(d.U(dim, n), 10), 10)), dim, n, c),
               Dot(MatVec(MatOf(d.a), VecOf(d.s), dim, n), VecOf(d.r), dim, n, c)
               + Dot(VecOf(d.s), VecOf(d.e1), dim, n, c) + Dot(VecOf(d.s), VecOf(LossVec(d.U(dim, n), 10)), dim, n, c))
  {
    hide Sum, Conv, ExtAt, Compress, Decompress;
    var u, at := d.U(dim, n), Transpose(MatOf(d.a));
    var ub, loss := DecompressVec(CompressVec(u, 10), 10), LossVec(u, 10);
    forall i | 0 <= i < dim { ProductSplits(at, d.r, d.e1, dim, n, i); }
    DotSplit(VecOf(ub), MatVec(at, VecOf(d.r), dim, n), VecOf(d.e1), VecOf(loss), VecOf(d.s), dim, n, c);
    VecOfAnti(d.s, dim, n);
    VecOfAnti(d.r, dim, n);
    VecOfAnti(d.e1, dim, n);
    VecOfAnti(ub, dim, n);
    VecOfAnti(loss, dim, n);
    MatOfAnti(d.a, dim, n);
    DotComm(VecOf(ub), VecOf(d.s), dim, n, c);
    DotComm(VecOf(d.e1), VecOf(d.s), dim, n, c);
    DotComm(VecOf(loss), VecOf(d.s), dim, n, c);
    Adjoint(MatOf(d.a), VecOf(d.s), VecOf(d.r), dim, n, c);
  }

  /** What decapsulation decodes is message * (q / 2) plus the noise, modulo q. */
  lemma RecoveredIsMessagePlusNoise(d: Draws, dim: nat, n: nat, c: int)
    requires n > 0 && d.Valid(dim, n) && 0 <= c < n
    ensures Cong(d.Recovered(dim, n)[c], 1664 * d.message[c] + d.Noise(dim, n, c), Q)
  {
    hide Dot, MatVec, ExtAt, Center, Compress, Decompress, Masked, Unmasked, NoisyProduct;
    hide CompressPoly, DecompressPoly, CompressVec, DecompressVec, Loss, LossVec, IsLoss, Cong;
    var v, u, t := d.V(dim, n), d.U(dim, n), d.T(dim, n);
    var vb := DecompressPoly(CompressPoly(v, 4), 4);
    var tb, ub := DecompressVec(CompressVec(t, 10), 10), DecompressVec(CompressVec(u, 10), 10);
    var tr, su := Dot(VecOf(tb), VecOf(d.r), dim, n, c), Dot(VecOf(d.s), VecOf(ub), dim, n, c);
    KeySide(d, dim, n, c);
    CipherSide(d, dim, n, c);
    UnmaskedAt(vb, d.s, ub, dim, n, c);
    MaskedAt(tb, d.r, d.e2, d.message, dim, n, c);
    LossIsLoss(v, 4);
    LossAt(v, vb, Loss(v, 4), n, c);
    Combine(d.Recovered(dim, n)[c], vb[c], v[c], ExtAt(Loss(v, 4), c), tr, su,
            Dot(MatVec(MatOf(d.a), VecOf(d.s), dim, n), VecOf(d.r), dim, n, c),
            Dot(VecOf(d.e), VecOf(d.r), dim, n, c), Dot(VecOf(LossVec(t, 10)), VecOf(d.r), dim, n, c),
            Dot(VecOf(d.s), VecOf(d.e1), dim, n, c), Dot(VecOf(d.s), VecOf(LossVec(u, 10)), dim, n, c),
            ExtAt(d.e2, c), d.message[c]);
  }

  lemma LossAt(p: Poly, back: Poly, loss: Poly, n: nat, c: int)
    requires |p| == n && 0 <= c < n && IsLoss(p, back, loss)
    ensures Cong(back[c], p[c] + ExtAt(loss, c), Q)
  {
    ExtNear(loss, c);
    CenterCong(back[c] - p[c]);
    CongSym(Center(back[c] - p[c]), back[c] - p[c], Q);
    CongRefl(p[c], Q);
    CongAdd(p[c], p[c], back[c] - p[c], loss[c], Q);
  }

  lemma MaskedAt(t: seq<Poly>, r: seq<Poly>, e2: Poly, message: Poly, dim: nat, n: nat, c: int)
    requires |message| == n && 0 <= c < n
    ensures Cong(Masked(t, r, e2, message, dim, n)[c],
                 Dot(VecOf(t), VecOf(r), dim, n, c) + ExtAt(e2, c) + 1664 * message[c], Q)
  {
    hide Dot, Cong, Center, VecOf;
    ExtNear(message, c);
    CongMod(Dot(VecOf(t), VecOf(r), dim, n, c) + ExtAt(e2, c) + 1664 * message[c], Q);
  }

  lemma UnmaskedAt(v: Poly, s: seq<Poly>, u: seq<Poly>, dim: nat, n: nat, c: int)
    requires |v| == n && 0 <= c < n
    ensures Cong(Unmasked(v, s, u, dim, n)[c], v[c] - Dot(VecOf(s), VecOf(u), dim, n, c), Q)
  {
    ExtNear(v, c);
    CongMod(v[c] - Dot(VecOf(s), VecOf(u), dim, n, c), Q);
  }

  /** The noise window of a bit: [-832, 832] for 0 and [-831, 832] for 1. */
  ghost predicate InWindow(bit: int, noise: int) {
    if bit == 0 then -832 <= noise <= 832 else -831 <= noise <= 832
  }

  lemma DecodeExact(w: int, bit: int, z: int)
    requires 0 <= w < Q && (bit == 0 || bit == 1) && Cong(w, 1664 * bit + z, Q)
    ensures DecodeBit(w) == bit <==> InWindow(bit, Center(z))
  {
    CenterCong(z);
    var k := CongWitness(w, 1664 * bit + z, Q);
    var l := CongWitness(Center(z), z, Q);
    assert w - 1664 * bit - Center(z) == (k - l) * Q;
  }

  /** A message bit is recovered exactly when the centred noise of its coefficient is in the window. */
  lemma BitRecoveredIff(d: Draws, dim: nat, n: nat, c: int)
    requires n > 0 && d.Valid(dim, n) && 0 <= c < n
    ensures DecodeBit(d.Recovered(dim, n)[c]) == d.message[c]
       <==> InWindow(d.message[c], Center(d.Noise(dim, n, c)))
  {
    hide Dot, ExtAt, Cong, Center, Masked, Unmasked, DecodeBit, InWindow;
    RecoveredIsMessagePlusNoise(d, dim, n, c);
    DecodeExact(d.Recovered(dim, n)[c], d.message[c], d.Noise(dim, n, c));
  }

  function Decode(w: Poly): (m: Poly)
    ensures |m| == |w| && forall c :: 0 <= c < |w| ==> m[c] == DecodeBit(w[c])
  {
    seq(|w|, c requires 0 <= c < |w| => DecodeBit(w[c]))
  }

  /** The whole message comes back exactly when every coefficient's noise is in its window. */
  lemma DecapsulationCorrectIff(d: Draws, dim: nat, n: nat)
    requires n > 0 && d.Valid(dim, n)
    ensures Decode(d.Recovered(dim, n)) == d.message
       <==> forall c :: 0 <= c < n ==> InWindow(d.message[c], Center(d.Noise(dim, n, c)))
  {
    forall c | 0 <= c < n { BitRecoveredIff(d, dim, n, c); }
    var m := Decode(d.Recovered(dim, n));
    if m == d.message {
      forall c | 0 <= c < n ensures InWindow(d.message[c], Center(d.Noise(dim, n, c))) {
        assert m[c] == d.message[c];
      }
    }
  }

  // ---- the loops ----------------------------------------------------------

  function AddMod(a: Poly, b: Poly): (r: Poly)
    requires |a| == |b|
    ensures |r| == |a| && InRange(r) && forall c :: 0 <= c < |a| ==> r[c] == (a[c] + b[c]) % Q
  {
    seq(|a|, c requires 0 <= c < |a| => (a[c] + b[c]) % Q)
  }

  function SubMod(a: Poly, b: Poly): (r: Poly)
    requires |a| == |b|
    ensures |r| == |a| && InRange(r) && forall c :: 0 <= c < |a| ==> r[c] == (a[c] - b[c]) % Q
  {
    seq(|a|, c requires 0 <= c < |a| => (a[c] - b[c]) % Q)
  }

  function Zeros(n: nat): (r: Poly)
    ensures |r| == n && forall c :: 0 <= c < n ==> r[c] == 0
  {
    seq(n, _ => 0)
  }

  /** acc is congruent to f, coefficient by coefficient. */
  ghost predicate Holds(acc: Poly, f: Fn, n: nat) {
    |acc| == n && forall c :: 0 <= c < n ==> Cong(acc[c], f(c), Q)
  }

  lemma ReduceUnique(acc: Poly, f: Fn, n: nat)
    requires Holds(acc, f, n) && InRange(acc)
    ensures acc == Reduce(f, n)
  {
    forall c | 0 <= c < n ensures acc[c] == f(c) % Q {
      CongIffMod(acc[c], f(c), Q);
    }
  }

  lemma AddModHolds(a: Poly, f: Fn, b: Poly, g: Fn, h: Fn, n: nat)
    requires Holds(a, f, n) && Holds(b, g, n)
    requires forall c :: 0 <= c < n ==> h(c) == f(c) + g(c)
    ensures Holds(AddMod(a, b), h, n)
  {
    forall c | 0 <= c < n ensures Cong(AddMod(a, b)[c], h(c), Q) {
      CongAdd(a[c], f(c), b[c], g(c), Q);
      CongMod(a[c] + b[c], Q);
      CongTrans(AddMod(a, b)[c], a[c] + b[c], h(c), Q);
    }
  }

  lemma SubModHolds(a: Poly, f: Fn, b: Poly, g: Fn, h: Fn, n: nat)
    requires Holds(a, f, n) && Holds(b, g, n)
    requires forall c :: 0 <= c < n ==> h(c) == f(c) - g(c)
    ensures Holds(SubMod(a, b), h, n)
  {
    forall c | 0 <= c < n ensures Cong(SubMod(a, b)[c], h(c), Q) {
      CongSub(a[c], f(c), b[c], g(c), Q);
      CongMod(a[c] - b[c], Q);
      CongTrans(SubMod(a, b)[c], a[c] - b[c], h(c), Q);
    }
  }

  lemma ExtHolds(p: Poly, n: nat)
    requires |p| == n
    ensures Holds(p, Ext(p), n)
  {
    forall c | 0 <= c < n ensures Cong(p[c], Ext(p)(c), Q) {
      ExtNear(p, c);
      CongRefl(p[c], Q);
    }
  }

  lemma ZerosHold(f: Fn, n: nat)
    requires forall c :: 0 <= c < n ==> f(c) == 0
    ensures Holds(Zeros(n), f, n)
  {
    CongRefl(0, Q);
  }

  lemma RowStart(a: Mat, x: Vec, n: nat, i: int)
    ensures Holds(Zeros(n), SumFn(Row(a, x, n, i), 0), n)
  {
    ZerosHold(SumFn(Row(a, x, n, i), 0), n);
  }

  /** Adding one more product to a running row sum. */
  lemma RowStep(acc: Poly, a: Mat, x: seq<Poly>, p: Poly, n: nat, i: int, j: nat)
    requires n > 0 && j < |x| && |p| == n && |x[j]| == n && a(i, j) == Ext(p)
    requires Holds(acc, SumFn(Row(a, VecOf(x), n, i), j), n)
    ensures Holds(AddMod(acc, NegacyclicConvolve(p, x[j], n)), SumFn(Row(a, VecOf(x), n, i), j + 1), n)
  {
    var f := Row(a, VecOf(x), n, i);
    assert Holds(NegacyclicConvolve(p, x[j], n), f(j), n) by {
      forall c | 0 <= c < n { NegacyclicMeaning(p, x[j], n, c); }
    }
    forall c ensures SumFn(f, j + 1)(c) == SumFn(f, j)(c) + f(j)(c) {}
    hide Cong, NegacyclicConvolve, Row, SumFn;
    AddModHolds(acc, SumFn(f, j), NegacyclicConvolve(p, x[j], n), f(j), SumFn(f, j + 1), n);
  }

  lemma RowDone(acc: Poly, a: Mat, x: seq<Poly>, err: seq<Poly>, dim: nat, n: nat, i: nat)
    requires Holds(acc, SumFn(Row(a, VecOf(x), n, i), dim), n)
    requires i < |err| && |err[i]| == n
    ensures AddMod(acc, err[i]) == NoisyEntry(a, x, err, dim, n, i)
  {
    var m := MatVec(a, VecOf(x), dim, n)(i);
    ExtHolds(err[i], n);
    AddModHolds(acc, m, err[i], Ext(err[i]), Plus(m, Ext(err[i])), n);
    ReduceUnique(AddMod(acc, err[i]), Plus(m, Ext(err[i])), n);
  }

  lemma DotStepFn(x: Vec, y: Vec, j: nat, n: nat, c: int)
    ensures DotFn(x, y, j + 1, n)(c) == DotFn(x, y, j, n)(c) + Conv(x(j), y(j), n, c)
  {
  }

  lemma ConvolveHolds(p: Poly, q: Poly, n: nat)
    requires n > 0 && |p| == |q| == n
    ensures Holds(NegacyclicConvolve(p, q, n), ConvFn(Ext(p), Ext(q), n), n)
  {
    forall c | 0 <= c < n { NegacyclicMeaning(p, q, n, c); }
  }

  lemma DotStart(x: Vec, y: Vec, n: nat)
    ensures Holds(Zeros(n), DotFn(x, y, 0, n), n)
  {
    ZerosHold(DotFn(x, y, 0, n), n);
  }

  lemma MinusStart(v: Poly, x: Vec, y: Vec, n: nat)
    requires |v| == n
    ensures Holds(v, Plus(Ext(v), Times(-1, DotFn(x, y, 0, n))), n)
  {
    ExtHolds(v, n);
    forall c ensures Plus(Ext(v), Times(-1, DotFn(x, y, 0, n)))(c) == Ext(v)(c) {}
  }

  /** Adding one more product to a running inner product. */
  lemma DotPlusStep(acc: Poly, x: seq<Poly>, y: seq<Poly>, n: nat, j: nat)
    requires n > 0 && j < |x| && j < |y| && |x[j]| == |y[j]| == n
    requires Holds(acc, DotFn(VecOf(x), VecOf(y), j, n), n)
    ensures Holds(AddMod(acc, NegacyclicConvolve(x[j], y[j], n)), DotFn(VecOf(x), VecOf(y), j + 1, n), n)
  {
    ConvolveHolds(x[j], y[j], n);
    forall c { DotStepFn(VecOf(x), VecOf(y), j, n, c); }
    hide Cong, NegacyclicConvolve, Dot;
    AddModHolds(acc, DotFn(VecOf(x), VecOf(y), j, n), NegacyclicConvolve(x[j], y[j], n),
                ConvFn(Ext(x[j]), Ext(y[j]), n), DotFn(VecOf(x), VecOf(y), j + 1, n), n);
  }

  /** Subtracting one more product from v minus a running inner product. */
  lemma DotMinusStep(acc: Poly, v: Poly, x: seq<Poly>, y: seq<Poly>, n: nat, j: nat)
    requires n > 0 && j < |x| && j < |y| && |x[j]| == |y[j]| == |v| == n
    requires Holds(acc, Plus(Ext(v), Times(-1, DotFn(VecOf(x), VecOf(y), j, n))), n)
    ensures Holds(SubMod(acc, NegacyclicConvolve(x[j], y[j], n)),
                  Plus(Ext(v), Times(-1, DotFn(VecOf(x), VecOf(y), j + 1, n))), n)
  {
    ConvolveHolds(x[j], y[j], n);
    forall c { DotStepFn(VecOf(x), VecOf(y), j, n, c); }
    hide Cong, NegacyclicConvolve, Dot, ExtAt;
    SubModHolds(acc, Plus(Ext(v), Times(-1, DotFn(VecOf(x), VecOf(y), j, n))), NegacyclicConvolve(x[j], y[j], n),
                ConvFn(Ext(x[j]), Ext(y[j]), n), Plus(Ext(v), Times(-1, DotFn(VecOf(x), VecOf(y), j + 1, n))), n);
  }

  function Scale(p: Poly, z: int): (r: Poly)
    ensures |r| == |p| && forall c :: 0 <= c < |p| ==> r[c] == p[c] * z
  {
    seq(|p|, c requires 0 <= c < |p| => p[c] * z)
  }

  lemma ScaleHolds(p: Poly, n: nat)
    requires |p| == n
    ensures Holds(Scale(p, Q / 2), Times(Q / 2, Ext(p)), n)
  {
    forall c | 0 <= c < n ensures Cong(Scale(p, Q / 2)[c], Times(Q / 2, Ext(p))(c), Q) {
      ExtNear(p, c);
      CongRefl(Scale(p, Q / 2)[c], Q);
    }
  }

  /** The last two additions of encapsulate: the error and the encoded message. */
  lemma MaskedDone(w: Poly, t: seq<Poly>, r: seq<Poly>, e2: Poly, message: Poly, dim: nat, n: nat)
    requires Holds(w, DotFn(VecOf(t), VecOf(r), dim, n), n) && |e2| == |message| == n
    ensures AddMod(AddMod(w, e2), Scale(message, Q / 2)) == Masked(t, r, e2, message, dim, n)
  {
    hide Dot, Cong, ExtAt;
    var f, g := DotFn(VecOf(t), VecOf(r), dim, n), Times(Q / 2, Ext(message));
    ExtHolds(e2, n);
    AddModHolds(w, f, e2, Ext(e2), Plus(f, Ext(e2)), n);
    ScaleHolds(message, n);
    AddModHolds(AddMod(w, e2), Plus(f, Ext(e2)), Scale(message, Q / 2), g, Plus(Plus(f, Ext(e2)), g), n);
    ReduceUnique(AddMod(AddMod(w, e2), Scale(message, Q / 2)), Plus(Plus(f, Ext(e2)), g), n);
  }

  /** keygen: the public key is the compressed t, the secret key s. */
  method Keygen(a: seq<seq<Poly>>, s: seq<Poly>, e: seq<Poly>, dim: nat, n: nat)
    returns (tCompressed: seq<Poly>, t: seq<Poly>)
    requires n > 0 && MatShape(a, dim, n) && VecShape(s, dim, n) && VecShape(e, dim, n)
    ensures t == NoisyProduct(MatOf(a), s, e, dim, n)
    ensures tCompressed == CompressVec(t, 10)
    ensures |tCompressed| == dim && forall i :: 0 <= i < dim ==> IsCompressed(tCompressed[i], t[i], 1024)
  {
    hide NegacyclicConvolve, NoisyEntry, Cong, Ext, ExtAt, Compress, SumFn, Row, AddMod;
    var acc := new Poly[dim](_ => Zeros(n));
    for i := 0 to dim
      invariant forall k :: 0 <= k < i ==> acc[k] == NoisyEntry(MatOf(a), s, e, dim, n, k)
      invariant forall k :: i <= k < dim ==> acc[k] == Zeros(n)
    {
      RowStart(MatOf(a), VecOf(s), n, i);
      for j := 0 to dim
        invariant forall k :: 0 <= k < i ==> acc[k] == NoisyEntry(MatOf(a), s, e, dim, n, k)
        invariant forall k :: i < k < dim ==> acc[k] == Zeros(n)
        invariant Holds(acc[i], SumFn(Row(MatOf(a), VecOf(s), n, i), j), n)
      {
        assert VecShape(a[i], dim, n);
        RowStep(acc[i], MatOf(a), s, a[i][j], n, i, j);
        acc[i] := AddMod(acc[i], NegacyclicConvolve(a[i][j], s[j], n));
      }
      RowDone(acc[i], MatOf(a), s, e, dim, n, i);
      acc[i] := AddMod(acc[i], e[i]);
    }
    t := acc[..];
    assert t == NoisyProduct(MatOf(a), s, e, dim, n);
    tCompressed := CompressVec(t, 10);
    CompressedVecIs(t);
  }

  /** encapsulate: u = A^T r + e1 and v = t^T r + e2 + message (q / 2), both compressed. */
  method Encapsulate<S>(tCompressed: seq<Poly>, a: seq<seq<Poly>>, r: seq<Poly>, e1: seq<Poly>, e2: Poly,
                        message: Poly, dim: nat, n: nat, sha256: Poly -> S)
    returns (u: seq<Poly>, v: Poly, secret: S)
    requires n > 0 && MatShape(a, dim, n) && VecShape(tCompressed, dim, n)
    requires VecShape(r, dim, n) && VecShape(e1, dim, n) && |e2| == |message| == n
    ensures u == CompressVec(NoisyProduct(Transpose(MatOf(a)), r, e1, dim, n), 10)
    ensures v == CompressPoly(Masked(DecompressVec(tCompressed, 10), r, e2, message, dim, n), 4)
    ensures |u| == dim && forall i :: 0 <= i < dim ==>
      IsCompressed(u[i], NoisyProduct(Transpose(MatOf(a)), r, e1, dim, n)[i], 1024)
    ensures IsCompressed(v, Masked(DecompressVec(tCompressed, 10), r, e2, message, dim, n), 16)
    ensures secret == sha256(message)
  {
    hide IsCompressed, NoisyEntry, Masked, CompressPoly;
    var t := DecompressVec(tCompressed, 10);
    var rows := MultiplyTransposed(a, r, e1, dim, n);
    u := CompressVec(rows, 10);
    var w := MaskMessage(t, r, e2, message, dim, n);
    v := CompressPoly(w, 4);
    CompressedVecIs(rows);
    CompressedIs(w, 4);
    TwoToValues();
    secret := sha256(message);
  }

  /** The first half of encapsulate: u before compression. */
  method MultiplyTransposed(a: seq<seq<Poly>>, r: seq<Poly>, e1: seq<Poly>, dim: nat, n: nat) returns (u: seq<Poly>)
    requires n > 0 && MatShape(a, dim, n) && VecShape(r, dim, n) && VecShape(e1, dim, n)
    ensures u == NoisyProduct(Transpose(MatOf(a)), r, e1, dim, n)
  {
    hide NegacyclicConvolve, NoisyEntry, Dot, DotFn, Cong, Ext, ExtAt, SumFn, Row, AddMod;
    var acc := new Poly[dim](_ => Zeros(n));
    var at := Transpose(MatOf(a));
    for i := 0 to dim
      invariant forall k :: 0 <= k < i ==> acc[k] == NoisyEntry(at, r, e1, dim, n, k)
      invariant forall k :: i <= k < dim ==> acc[k] == Zeros(n)
    {
      RowStart(at, VecOf(r), n, i);
      for j := 0 to dim
        invariant forall k :: 0 <= k < i ==> acc[k] == NoisyEntry(at, r, e1, dim, n, k)
        invariant forall k :: i < k < dim ==> acc[k] == Zeros(n)
        invariant Holds(acc[i], SumFn(Row(at, VecOf(r), n, i), j), n)
      {
        assert VecShape(a[j], dim, n);
        RowStep(acc[i], at, r, a[j][i], n, i, j);
        acc[i] := AddMod(acc[i], NegacyclicConvolve(a[j][i], r[j], n));
      }
      RowDone(acc[i], at, r, e1, dim, n, i);
      acc[i] := AddMod(acc[i], e1[i]);
    }
    u := acc[..];
    assert u == NoisyProduct(at, r, e1, dim, n);
  }

  /** The second half of encapsulate: v before compression. */
  method MaskMessage(t: seq<Poly>, r: seq<Poly>, e2: Poly, message: Poly, dim: nat, n: nat) returns (v: Poly)
    requires n > 0 && VecShape(t, dim, n) && VecShape(r, dim, n) && |e2| == |message| == n
    ensures v == Masked(t, r, e2, message, dim, n)
  {
    hide NegacyclicConvolve, Masked, Dot, DotFn, Cong, Ext, ExtAt, AddMod;
    v := Zeros(n);
    DotStart(VecOf(t), VecOf(r), n);
    for i := 0 to dim
      invariant Holds(v, DotFn(VecOf(t), VecOf(r), i, n), n)
    {
      DotPlusStep(v, t, r, n, i);
      v := AddMod(v, NegacyclicConvolve(t[i], r[i], n));
    }
    MaskedDone(v, t, r, e2, message, dim, n);
    v := AddMod(v, e2);
    v := AddMod(v, Scale(message, Q / 2));
  }

  /** decapsulate: decode v - s . u bit by bit. */
  method Decapsulate<S>(u: seq<Poly>, v: Poly, s: seq<Poly>, dim: nat, n: nat, sha256: Poly -> S)
    returns (message: Poly, secret: S)
    requires n > 0 && dim > 0 && VecShape(u, dim, n) && VecShape(s, dim, n) && |v| == n
    ensures message == Decode(Unmasked(DecompressPoly(v, 4), s, DecompressVec(u, 10), dim, n))
    ensures secret == sha256(message)
  {
    hide NegacyclicConvolve, Dot, DotFn, Cong, Decompress, DecodeBit, ExtAt, Ext;
    var uBack, vBack := DecompressVec(u, 10), DecompressPoly(v, 4);
    var result := vBack;
    MinusStart(vBack, VecOf(s), VecOf(uBack), n);
    for i := 0 to dim
      invariant Holds(result, Plus(Ext(vBack), Times(-1, DotFn(VecOf(s), VecOf(uBack), i, n))), n)
      invariant i > 0 ==> InRange(result)
    {
      DotMinusStep(result, vBack, s, uBack, n, i);
      result := SubMod(result, NegacyclicConvolve(s[i], uBack[i], n));
    }
    ReduceUnique(result, Plus(Ext(vBack), Times(-1, DotFn(VecOf(s), VecOf(uBack), dim, n))), n);
    assert result == Unmasked(vBack, s, uBack, dim, n);
    message := Decode(result);
    secret := sha256(message);
  }

  /** One key generation, encapsulation and decapsulation: both sides derive the same secret
      whenever every coefficient's noise is in [-831, 832]; the decoded message itself is right
      exactly when each noise is in the window of its bit. */
  method Exchange<S>(d: Draws, dim: nat, n: nat, sha256: Poly -> S)
    returns (sent: S, received: S, message: Poly)
    requires n > 0 && dim > 0 && d.Valid(dim, n)
    ensures message == d.message
       <==> forall c :: 0 <= c < n ==> InWindow(d.message[c], Center(d.Noise(dim, n, c)))
    ensures (forall c :: 0 <= c < n ==> -831 <= Center(d.Noise(dim, n, c)) <= 832) ==> received == sent
    ensures sent == sha256(d.message) && received == sha256(message)
  {
    hide NegacyclicConvolve, Dot, MatVec, Masked, Unmasked, NoisyEntry, Compress, Decompress, Center;
    DecapsulationCorrectIff(d, dim, n);
    var tc, t := Keygen(d.a, d.s, d.e, dim, n);
    var u, v, secret := Encapsulate(tc, d.a, d.r, d.e1, d.e2, d.message, dim, n, sha256);
    message, received := Decapsulate(u, v, d.s, dim, n, sha256);
    assert message == Decode(d.Recovered(dim, n));
    sent := secret;
  }
}
