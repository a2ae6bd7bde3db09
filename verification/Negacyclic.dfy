/** The ring Z[x]/(x^n + 1). A polynomial is used through its antiperiodic extension to all
    integer indices, so that multiplication is a plain convolution over one period. */
module Negacyclic {
  import opened Sums

  ghost predicate AntiAt(f: Fn, n: int, t: int) { f(t + n) == -f(t) }

  ghost predicate Anti(f: Fn, n: int) { forall t :: AntiAt(f, n, t) }

  function Term(f: Fn, g: Fn, k: int): Fn {
    i => f(i) * g(k - i)
  }

  /** Coefficient k of the product of f and g. */
  function Conv(f: Fn, g: Fn, n: nat, k: int): int {
    Sum(Term(f, g, k), 0, n)
  }

  function ConvFn(f: Fn, g: Fn, n: nat): Fn {
    k => Conv(f, g, n, k)
  }

  lemma NegRight(x: int, y: int)
    ensures x * (-y) == -1 * (x * y)
  {
  }

  lemma TermAnti(f: Fn, g: Fn, n: nat, t: int, i: int)
    requires Anti(g, n)
    ensures Term(f, g, t + n)(i) == -1 * Term(f, g, t)(i)
  {
    assert AntiAt(g, n, t - i);
    assert t - i + n == t + n - i;
    NegRight(f(i), g(t - i));
  }

  lemma ConvAnti(f: Fn, g: Fn, n: nat)
    requires Anti(g, n)
    ensures Anti(ConvFn(f, g, n), n)
  {
    forall t ensures AntiAt(ConvFn(f, g, n), n, t) {
      hide Term, Anti;
      forall i ensures Term(f, g, t + n)(i) == -1 * Term(f, g, t)(i) {
        TermAnti(f, g, n, t, i);
      }
      SumScale(-1, Term(f, g, t), Term(f, g, t + n), 0, n);
    }
  }

  /** The product of two antiperiodic sequences has period n. */
  lemma TermPeriodic(f: Fn, g: Fn, n: nat, k: int)
    requires Anti(f, n) && Anti(g, n)
    ensures forall t :: PeriodicAt(Term(f, g, k), n, t)
  {
    forall t ensures PeriodicAt(Term(f, g, k), n, t) {
      assert AntiAt(f, n, t);
      assert AntiAt(g, n, k - t - n);
      assert k - t - n + n == k - t && k - (t + n) == k - t - n;
      assert (-f(t)) * g(k - t - n) == f(t) * (-g(k - t - n));
    }
  }

  lemma ConvComm(f: Fn, g: Fn, n: nat, k: int)
    requires Anti(f, n) && Anti(g, n)
    ensures Conv(f, g, n, k) == Conv(g, f, n, k)
  {
    TermPeriodic(f, g, n, k);
    forall i ensures Term(g, f, k)(i) == Term(f, g, k)(k - i) {
      MulComm(f(k - i), g(k - (k - i)));
    }
    SumMirror(Term(f, g, k), Term(g, f, k), n, k);
  }

  lemma ConvEq(f: Fn, f': Fn, g: Fn, g': Fn, n: nat, k: int)
    requires forall i :: f(i) == f'(i)
    requires forall i :: g(i) == g'(i)
    ensures Conv(f, g, n, k) == Conv(f', g', n, k)
  {
    SumEq(Term(f, g, k), Term(f', g', k), 0, n);
  }

  lemma ConvAddLeft(f: Fn, f': Fn, h: Fn, g: Fn, n: nat, k: int)
    requires forall i :: h(i) == f(i) + f'(i)
    ensures Conv(h, g, n, k) == Conv(f, g, n, k) + Conv(f', g, n, k)
  {
    SumAdd(Term(f, g, k), Term(f', g, k), Term(h, g, k), 0, n);
  }

  lemma MulRotate(x: int, y: int, z: int)
    ensures (x * y) * z == x * (y * z) == z * (x * y)
  {
  }

  /** The summand of the triple product, l being the index of the left factor of the outer sum. */
  function Triple(f: Fn, g: Fn, h: Fn, k: int): Grid {
    (l, i) => f(i) * (g(l - i) * h(k - l))
  }

  lemma LeftNested(f: Fn, g: Fn, h: Fn, n: nat, k: int, l: int)
    ensures Conv(f, g, n, l) * h(k - l) == RowSums(Triple(f, g, h, k), n)(l)
  {
    forall i ensures RowOf(Triple(f, g, h, k), l)(i) == h(k - l) * Term(f, g, l)(i) {
      MulRotate(f(i), g(l - i), h(k - l));
    }
    SumScale(h(k - l), Term(f, g, l), RowOf(Triple(f, g, h, k), l), 0, n);
    MulComm(h(k - l), Conv(f, g, n, l));
  }

  lemma MulComm(x: int, y: int)
    ensures x * y == y * x
  {
  }

  function Shifted(g: Fn, h: Fn, k: int, i: int): Fn {
    l => g(l - i) * h(k - l)
  }

  lemma ShiftedTerm(g: Fn, h: Fn, k: int, i: int, l: int)
    ensures Shifted(g, h, k, i)(l) == Term(g, h, k - i)(l + -i)
  {
    assert k - i - (l + -i) == k - l && l + -i == l - i;
  }

  /** A whole period of the inner product, read from index i on. */
  lemma ShiftedConv(g: Fn, h: Fn, n: nat, k: int, i: int)
    requires Anti(g, n) && Anti(h, n)
    ensures Conv(g, h, n, k - i) == Sum(Shifted(g, h, k, i), 0, n)
  {
    TermPeriodic(g, h, n, k - i);
    forall l { ShiftedTerm(g, h, k, i, l); }
    SumWindow(Term(g, h, k - i), Shifted(g, h, k, i), n, -i);
  }

  lemma TripleShifted(f: Fn, g: Fn, h: Fn, k: int, i: int, l: int)
    ensures Triple(f, g, h, k)(l, i) == f(i) * Shifted(g, h, k, i)(l)
  {
  }

  lemma RightNested(f: Fn, g: Fn, h: Fn, n: nat, k: int, i: int)
    requires Anti(g, n) && Anti(h, n)
    ensures f(i) * Conv(g, h, n, k - i) == ColSums(Triple(f, g, h, k), n)(i)
  {
    ShiftedConv(g, h, n, k, i);
    forall l ensures ColOf(Triple(f, g, h, k), i)(l) == f(i) * Shifted(g, h, k, i)(l) {
      TripleShifted(f, g, h, k, i, l);
    }
    SumScale(f(i), Shifted(g, h, k, i), ColOf(Triple(f, g, h, k), i), 0, n);
  }

  lemma RowsFirst(f: Fn, g: Fn, h: Fn, n: nat, k: int)
    ensures Conv(ConvFn(f, g, n), h, n, k) == Sum(RowSums(Triple(f, g, h, k), n), 0, n)
  {
    forall l ensures Term(ConvFn(f, g, n), h, k)(l) == RowSums(Triple(f, g, h, k), n)(l) {
      LeftNested(f, g, h, n, k, l);
    }
    SumEq(Term(ConvFn(f, g, n), h, k), RowSums(Triple(f, g, h, k), n), 0, n);
  }

  lemma ColumnsFirst(f: Fn, g: Fn, h: Fn, n: nat, k: int)
    requires Anti(g, n) && Anti(h, n)
    ensures Conv(f, ConvFn(g, h, n), n, k) == Sum(ColSums(Triple(f, g, h, k), n), 0, n)
  {
    forall i ensures Term(f, ConvFn(g, h, n), k)(i) == ColSums(Triple(f, g, h, k), n)(i) {
      RightNested(f, g, h, n, k, i);
    }
    SumEq(Term(f, ConvFn(g, h, n), k), ColSums(Triple(f, g, h, k), n), 0, n);
  }

  lemma ConvAssoc(f: Fn, g: Fn, h: Fn, n: nat, k: int)
    requires Anti(g, n) && Anti(h, n)
    ensures Conv(ConvFn(f, g, n), h, n, k) == Conv(f, ConvFn(g, h, n), n, k)
  {
    RowsFirst(f, g, h, n, k);
    ColumnsFirst(f, g, h, n, k);
    SumSwap(Triple(f, g, h, k), n, n);
  }
}
