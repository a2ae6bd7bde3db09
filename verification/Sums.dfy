/** Finite sums of integer functions. */
module Sums {
  import opened NumberTheory

  type Fn = int -> int

  function Sum(f: Fn, lo: int, hi: int): int
    decreases hi - lo
  {
    if hi <= lo then 0 else Sum(f, lo, hi - 1) + f(hi - 1)
  }

  lemma {:induction false} SumEq(f: Fn, g: Fn, lo: int, hi: int)
    requires forall i :: lo <= i < hi ==> f(i) == g(i)
    ensures Sum(f, lo, hi) == Sum(g, lo, hi)
    decreases hi - lo
  {
    if lo < hi {
      SumEq(f, g, lo, hi - 1);
    }
  }

  lemma {:induction false} SumZero(f: Fn, lo: int, hi: int)
    requires forall i :: lo <= i < hi ==> f(i) == 0
    ensures Sum(f, lo, hi) == 0
    decreases hi - lo
  {
    if lo < hi {
      SumZero(f, lo, hi - 1);
    }
  }

  lemma {:induction false} SumCong(f: Fn, g: Fn, lo: int, hi: int, m: int)
    requires m > 0 && forall i :: lo <= i < hi ==> Cong(f(i), g(i), m)
    ensures Cong(Sum(f, lo, hi), Sum(g, lo, hi), m)
    decreases hi - lo
  {
    if lo < hi {
      SumCong(f, g, lo, hi - 1, m);
      CongAdd(Sum(f, lo, hi - 1), Sum(g, lo, hi - 1), f(hi - 1), g(hi - 1), m);
    } else {
      CongRefl(0, m);
    }
  }

  lemma {:induction false} SumAdd(f: Fn, g: Fn, h: Fn, lo: int, hi: int)
    requires forall i :: lo <= i < hi ==> h(i) == f(i) + g(i)
    ensures Sum(h, lo, hi) == Sum(f, lo, hi) + Sum(g, lo, hi)
    decreases hi - lo
  {
    if lo < hi {
      SumAdd(f, g, h, lo, hi - 1);
    }
  }

  lemma {:induction false} SumScale(c: int, f: Fn, h: Fn, lo: int, hi: int)
    requires forall i :: lo <= i < hi ==> h(i) == c * f(i)
    ensures Sum(h, lo, hi) == c * Sum(f, lo, hi)
    decreases hi - lo
  {
    if lo < hi {
      SumScale(c, f, h, lo, hi - 1);
      assert c * (Sum(f, lo, hi - 1) + f(hi - 1)) == c * Sum(f, lo, hi - 1) + c * f(hi - 1);
    }
  }

  lemma {:induction false} SumFirst(f: Fn, lo: int, hi: int)
    requires lo < hi
    ensures Sum(f, lo, hi) == f(lo) + Sum(f, lo + 1, hi)
    decreases hi - lo
  {
    if lo + 1 < hi {
      SumFirst(f, lo, hi - 1);
    }
  }

  lemma {:induction false} SumShift(f: Fn, g: Fn, lo: int, hi: int, d: int)
    requires forall i :: lo <= i < hi ==> f(i) == g(i + d)
    ensures Sum(g, lo + d, hi + d) == Sum(f, lo, hi)
    decreases hi - lo
  {
    if lo < hi {
      SumShift(f, g, lo, hi - 1, d);
      assert f(hi - 1) == g(hi - 1 + d);
    }
  }

  /** Reading the terms in the opposite order: f(i) == g(c - i). */
  lemma {:induction false} SumReverse(f: Fn, g: Fn, lo: int, hi: int, c: int)
    requires forall i :: lo <= i < hi ==> f(i) == g(c - i)
    ensures Sum(g, c - hi + 1, c - lo + 1) == Sum(f, lo, hi)
    decreases hi - lo
  {
    if lo < hi {
      SumReverse(f, g, lo, hi - 1, c);
      SumFirst(g, c - hi + 1, c - lo + 1);
      assert f(hi - 1) == g(c - (hi - 1));
    }
  }

  ghost predicate PeriodicAt(f: Fn, n: int, t: int) { f(t + n) == f(t) }

  /** Every window of one period sums to the same value. */
  lemma {:induction false} SumPeriodic(f: Fn, n: nat, d: int)
    requires forall t :: PeriodicAt(f, n, t)
    ensures Sum(f, d, d + n) == Sum(f, 0, n)
    decreases if d < 0 then -d else d
  {
    if n == 0 || d == 0 {
    } else if d > 0 {
      SumPeriodic(f, n, d - 1);
      SumFirst(f, d - 1, d - 1 + n);
      assert PeriodicAt(f, n, d - 1);
    } else {
      SumPeriodic(f, n, d + 1);
      SumFirst(f, d, d + n);
      assert PeriodicAt(f, n, d);
    }
  }

  /** Summing a periodic function over a shifted window of one period. */
  lemma SumWindow(p: Fn, q: Fn, n: nat, d: int)
    requires forall t :: PeriodicAt(p, n, t)
    requires forall l :: q(l) == p(l + d)
    ensures Sum(q, 0, n) == Sum(p, 0, n)
  {
    SumPeriodic(p, n, d);
    SumShift(q, p, 0, n, d);
  }

  /** Summing a periodic function over one period backwards. */
  lemma SumMirror(p: Fn, q: Fn, n: nat, k: int)
    requires forall t :: PeriodicAt(p, n, t)
    requires forall l :: q(l) == p(k - l)
    ensures Sum(q, 0, n) == Sum(p, 0, n)
  {
    SumReverse(q, p, 0, n, k);
    SumPeriodic(p, n, k - n + 1);
  }

  type Grid = (int, int) -> int

  function RowOf(w: Grid, i: int): Fn { j => w(i, j) }

  function ColOf(w: Grid, j: int): Fn { i => w(i, j) }

  function RowSums(w: Grid, cols: int): Fn { i => Sum(RowOf(w, i), 0, cols) }

  function ColSums(w: Grid, rows: int): Fn { j => Sum(ColOf(w, j), 0, rows) }

  /** Exchanging two finite sums. */
  lemma {:induction false} SumSwap(w: Grid, rows: nat, cols: nat)
    ensures Sum(RowSums(w, cols), 0, rows) == Sum(ColSums(w, rows), 0, cols)
  {
    if rows == 0 {
      SumZero(ColSums(w, rows), 0, cols);
    } else {
      SumSwap(w, rows - 1, cols);
      SumAdd(ColSums(w, rows - 1), RowOf(w, rows - 1), ColSums(w, rows), 0, cols);
    }
  }
}
