/** Vectors and matrices over Z[x]/(x^n + 1), and congruence modulo q = 3329. */
module ModuleLattice {
  import opened Sums
  import opened Negacyclic
  import opened NumberTheory

  const Q := 3329

  type Vec = int -> Fn
  type Mat = (int, int) -> Fn

  // ---- congruence ---------------------------------------------------------

  ghost predicate Eq(a: int, b: int) { Cong(a, b, Q) }

  lemma ConvCong(f: Fn, f': Fn, g: Fn, n: nat, c: int)
    requires forall t :: Eq(f(t), f'(t))
    ensures Eq(Conv(f, g, n, c), Conv(f', g, n, c))
  {
    forall i ensures Eq(Term(f, g, c)(i), Term(f', g, c)(i)) {
      CongRefl(g(c - i), Q);
      CongMul(f(i), f'(i), g(c - i), g(c - i), Q);
    }
    SumCong(Term(f, g, c), Term(f', g, c), 0, n, Q);
  }

  lemma {:induction false} AntiCong(f: Fn, g: Fn, n: nat, t: int)
    requires n > 0 && Anti(f, n) && Anti(g, n)
    requires forall c :: 0 <= c < n ==> Eq(f(c), g(c))
    ensures Eq(f(t), g(t))
    decreases if t < 0 then n - t else t
  {
    if t < 0 {
      AntiCong(f, g, n, t + n);
      assert AntiAt(f, n, t) && AntiAt(g, n, t);
      CongRefl(0, Q);
      CongSub(0, 0, f(t + n), g(t + n), Q);
    } else if t >= n {
      AntiCong(f, g, n, t - n);
      assert AntiAt(f, n, t - n) && AntiAt(g, n, t - n);
      CongRefl(0, Q);
      CongSub(0, 0, f(t - n), g(t - n), Q);
    }
  }

  // ---- inner products and matrix products ---------------------------------

  function DotTerms(x: Vec, y: Vec, n: nat, c: int): Fn {
    i => Conv(x(i), y(i), n, c)
  }

  /** Coefficient c of x . y, both vectors having `dim` entries. */
  function Dot(x: Vec, y: Vec, dim: nat, n: nat, c: int): int {
    Sum(DotTerms(x, y, n, c), 0, dim)
  }

  /** The products a[i][j] x[j] that make up entry i of A x. */
  function Row(a: Mat, x: Vec, n: nat, i: int): Vec {
    j => ConvFn(a(i, j), x(j), n)
  }

  function At(f: Vec, t: int): Fn {
    j => f(j)(t)
  }

  function SumFn(f: Vec, dim: nat): Fn {
    t => Sum(At(f, t), 0, dim)
  }

  function MatVec(a: Mat, x: Vec, dim: nat, n: nat): Vec {
    i => SumFn(Row(a, x, n, i), dim)
  }

  function Transpose(a: Mat): Mat {
    (i, j) => a(j, i)
  }

  ghost predicate AntiVec(x: Vec, dim: nat, n: nat) {
    forall i :: 0 <= i < dim ==> Anti(x(i), n)
  }

  ghost predicate AntiMat(a: Mat, dim: nat, n: nat) {
    forall i, j :: 0 <= i < dim && 0 <= j < dim ==> Anti(a(i, j), n)
  }

  function ConvAll(f: Vec, g: Fn, n: nat, c: int): Fn {
    j => Conv(f(j), g, n, c)
  }

  lemma {:induction false} ConvSumLeft(f: Vec, g: Fn, dim: nat, n: nat, c: int)
    ensures Conv(SumFn(f, dim), g, n, c) == Sum(ConvAll(f, g, n, c), 0, dim)
  {
    if dim == 0 {
      SumZero(Term(SumFn(f, dim), g, c), 0, n);
    } else {
      ConvSumLeft(f, g, dim - 1, n, c);
      ConvAddLeft(SumFn(f, dim - 1), f(dim - 1), SumFn(f, dim), g, n, c);
    }
  }

  lemma SumAnti(f: Vec, dim: nat, n: nat)
    requires AntiVec(f, dim, n)
    ensures Anti(SumFn(f, dim), n)
  {
    forall t ensures AntiAt(SumFn(f, dim), n, t) {
      forall j | 0 <= j < dim ensures At(f, t + n)(j) == -1 * At(f, t)(j) {
        assert AntiAt(f(j), n, t);
      }
      SumScale(-1, At(f, t), At(f, t + n), 0, dim);
    }
  }

  lemma MatVecAnti(a: Mat, x: Vec, dim: nat, n: nat)
    requires AntiVec(x, dim, n)
    ensures forall i :: Anti(MatVec(a, x, dim, n)(i), n)
  {
    forall i ensures Anti(MatVec(a, x, dim, n)(i), n) {
      forall j | 0 <= j < dim ensures Anti(Row(a, x, n, i)(j), n) {
        ConvAnti(a(i, j), x(j), n);
      }
      SumAnti(Row(a, x, n, i), dim, n);
    }
  }

  /** a x y = a y x. */
  lemma SwapFactors(a: Fn, x: Fn, y: Fn, n: nat, c: int)
    requires Anti(a, n) && Anti(x, n) && Anti(y, n)
    ensures Conv(ConvFn(a, x, n), y, n, c) == Conv(ConvFn(a, y, n), x, n, c)
  {
    ConvAssoc(a, x, y, n, c);
    ConvAssoc(a, y, x, n, c);
    forall t ensures ConvFn(x, y, n)(t) == ConvFn(y, x, n)(t) { ConvComm(x, y, n, t); }
    ConvEq(a, a, ConvFn(x, y, n), ConvFn(y, x, n), n, c);
  }

  function Products(a: Mat, x: Vec, y: Vec, n: nat, c: int): Grid {
    (i, j) => Conv(ConvFn(a(i, j), x(j), n), y(i), n, c)
  }

  /** (A x) . y as a double sum of products of three factors. */
  lemma DotExpand(a: Mat, x: Vec, y: Vec, dim: nat, n: nat, c: int)
    ensures Dot(MatVec(a, x, dim, n), y, dim, n, c) == Sum(RowSums(Products(a, x, y, n, c), dim), 0, dim)
  {
    var w := Products(a, x, y, n, c);
    forall i ensures DotTerms(MatVec(a, x, dim, n), y, n, c)(i) == RowSums(w, dim)(i) {
      ConvSumLeft(Row(a, x, n, i), y(i), dim, n, c);
      SumEq(ConvAll(Row(a, x, n, i), y(i), n, c), RowOf(w, i), 0, dim);
    }
    SumEq(DotTerms(MatVec(a, x, dim, n), y, n, c), RowSums(w, dim), 0, dim);
  }

  /** (A x) . y = (A^T y) . x. */
  lemma Adjoint(a: Mat, x: Vec, y: Vec, dim: nat, n: nat, c: int)
    requires AntiMat(a, dim, n) && AntiVec(x, dim, n) && AntiVec(y, dim, n)
    ensures Dot(MatVec(a, x, dim, n), y, dim, n, c)
         == Dot(MatVec(Transpose(a), y, dim, n), x, dim, n, c)
  {
    var p, p' := Products(a, x, y, n, c), Products(Transpose(a), y, x, n, c);
    DotExpand(a, x, y, dim, n, c);
    DotExpand(Transpose(a), y, x, dim, n, c);
    SumSwap(p, dim, dim);
    forall j | 0 <= j < dim ensures ColSums(p, dim)(j) == RowSums(p', dim)(j) {
      AdjointColumn(a, x, y, dim, n, c, j);
    }
    SumEq(ColSums(p, dim), RowSums(p', dim), 0, dim);
  }

  lemma AdjointColumn(a: Mat, x: Vec, y: Vec, dim: nat, n: nat, c: int, j: int)
    requires AntiMat(a, dim, n) && AntiVec(x, dim, n) && AntiVec(y, dim, n) && 0 <= j < dim
    ensures ColSums(Products(a, x, y, n, c), dim)(j) == RowSums(Products(Transpose(a), y, x, n, c), dim)(j)
  {
    var p, p' := ColOf(Products(a, x, y, n, c), j), RowOf(Products(Transpose(a), y, x, n, c), j);
    forall i | 0 <= i < dim ensures p(i) == p'(i) {
      SwapFactors(a(i, j), x(j), y(i), n, c);
    }
    SumEq(p, p', 0, dim);
  }

  lemma DotComm(x: Vec, y: Vec, dim: nat, n: nat, c: int)
    requires AntiVec(x, dim, n) && AntiVec(y, dim, n)
    ensures Dot(x, y, dim, n, c) == Dot(y, x, dim, n, c)
  {
    forall i | 0 <= i < dim ensures DotTerms(x, y, n, c)(i) == DotTerms(y, x, n, c)(i) {
      ConvComm(x(i), y(i), n, c);
    }
    SumEq(DotTerms(x, y, n, c), DotTerms(y, x, n, c), 0, dim);
  }

  function Plus(f: Fn, g: Fn): Fn {
    t => f(t) + g(t)
  }

  lemma ConvSplit(x: Fn, f: Fn, g: Fn, h: Fn, y: Fn, n: nat, c: int)
    requires forall t :: Eq(x(t), f(t) + g(t) + h(t))
    ensures Eq(Conv(x, y, n, c), Conv(f, y, n, c) + Conv(g, y, n, c) + Conv(h, y, n, c))
  {
    ConvCong(x, Plus(Plus(f, g), h), y, n, c);
    ConvAddLeft(Plus(f, g), h, Plus(Plus(f, g), h), y, n, c);
    ConvAddLeft(f, g, Plus(f, g), y, n, c);
  }

  ghost predicate SplitsAt(x: Vec, f: Vec, g: Vec, h: Vec, i: int) {
    forall t :: Eq(x(i)(t), f(i)(t) + g(i)(t) + h(i)(t))
  }

  lemma DotTermSplit(x: Vec, f: Vec, g: Vec, h: Vec, y: Vec, n: nat, c: int, i: int)
    requires SplitsAt(x, f, g, h, i)
    ensures Eq(DotTerms(x, y, n, c)(i), DotTerms(f, y, n, c)(i) + DotTerms(g, y, n, c)(i) + DotTerms(h, y, n, c)(i))
  {
    ConvSplit(x(i), f(i), g(i), h(i), y(i), n, c);
  }

  /** An inner product with a vector that is congruent to a sum of three. */
  lemma DotSplit(x: Vec, f: Vec, g: Vec, h: Vec, y: Vec, dim: nat, n: nat, c: int)
    requires forall i :: 0 <= i < dim ==> SplitsAt(x, f, g, h, i)
    ensures Eq(Dot(x, y, dim, n, c), Dot(f, y, dim, n, c) + Dot(g, y, dim, n, c) + Dot(h, y, dim, n, c))
  {
    hide Conv;
    forall i | 0 <= i < dim
      ensures Eq(DotTerms(x, y, n, c)(i), DotTerms(f, y, n, c)(i) + DotTerms(g, y, n, c)(i) + DotTerms(h, y, n, c)(i))
    {
      DotTermSplit(x, f, g, h, y, n, c, i);
    }
    SumSplitCong(DotTerms(x, y, n, c), DotTerms(f, y, n, c), DotTerms(g, y, n, c), DotTerms(h, y, n, c), dim);
  }

  lemma {:induction false} SumSplitCong(x: Fn, f: Fn, g: Fn, h: Fn, dim: nat)
    requires forall i :: 0 <= i < dim ==> Eq(x(i), f(i) + g(i) + h(i))
    ensures Eq(Sum(x, 0, dim), Sum(f, 0, dim) + Sum(g, 0, dim) + Sum(h, 0, dim))
  {
    SumCong(x, Plus(Plus(f, g), h), 0, dim, Q);
    SumAdd(Plus(f, g), h, Plus(Plus(f, g), h), 0, dim);
    SumAdd(f, g, Plus(f, g), 0, dim);
  }
}
