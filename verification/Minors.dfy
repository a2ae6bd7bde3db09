/** The square pieces of the parity block of backend/storage/reed_solomon.js: alpha^(p c) for some
    parity rows p and some columns c. Which of them are singular decides what can be recovered. */
module Minors {
  import opened GF256
  import opened GFMatrix
  import opened GFTranspose

  ghost predicate Increasing(sel: seq<nat>) {
    forall s, t :: 0 <= s < t < |sel| ==> sel[s] < sel[t]
  }

  function PowerRow(cols: seq<nat>, p: nat): (r: Vec)
    ensures |r| == |cols| && forall j :: 0 <= j < |cols| ==> r[j] == Exp(p * cols[j])
  {
    seq(|cols|, j requires 0 <= j < |cols| => Exp(p * cols[j]))
  }

  function Minor(rows: seq<nat>, cols: seq<nat>): (m: Mat)
    ensures |m| == |rows| && forall i :: 0 <= i < |rows| ==> m[i] == PowerRow(cols, rows[i])
    ensures |rows| == |cols| ==> Square(m, |rows|)
  {
    seq(|rows|, i requires 0 <= i < |rows| => PowerRow(cols, rows[i]))
  }

  ghost predicate Regular(rows: seq<nat>, cols: seq<nat>)
    requires |rows| == |cols|
  {
    !Singular(Minor(rows, cols), |rows|)
  }

  /** Exchanging rows and columns transposes the piece, so it stays regular. */
  lemma Exchange(rows: seq<nat>, cols: seq<nat>)
    requires |rows| == |cols|
    ensures Regular(rows, cols) <==> Regular(cols, rows)
  {
    hide Exp, Singular;
    var n := |rows|;
    if Regular(rows, cols) {
      TransposeRegular(Minor(rows, cols), n);
      assert Transposed(Minor(rows, cols), n) == Minor(cols, rows) by { IsTranspose(rows, cols); }
    }
    if Regular(cols, rows) {
      TransposeRegular(Minor(cols, rows), n);
      assert Transposed(Minor(cols, rows), n) == Minor(rows, cols) by { IsTranspose(cols, rows); }
    }
  }

  lemma IsTranspose(rows: seq<nat>, cols: seq<nat>)
    requires |rows| == |cols|
    ensures Transposed(Minor(rows, cols), |rows|) == Minor(cols, rows)
  {
    hide Exp;
    var n, t, m := |rows|, Transposed(Minor(rows, cols), |rows|), Minor(cols, rows);
    forall i | 0 <= i < n ensures t[i] == m[i] {
      forall j | 0 <= j < n ensures t[i][j] == m[i][j] {
        assert rows[j] * cols[i] == cols[i] * rows[j];
      }
    }
  }

  // ---- power sums ---------------------------------------------------------

  /** The sum of alpha^(p c) u over the columns c and their weights u: one entry of a product. */
  function PowerSum(cols: seq<nat>, u: Vec, p: nat): Byte
    requires |u| == |cols|
  {
    Dot(PowerRow(cols, p), u)
  }

  lemma {:induction false} DotToPrefix(a: Vec, b: Vec, n: nat, k: nat)
    requires k <= n <= |a| && n <= |b|
    ensures DotTo(a[..n], b[..n], k) == DotTo(a, b, k)
  {
    hide Mul, Add;
    if k > 0 {
      DotToPrefix(a, b, n, k - 1);
    }
  }

  lemma PowerSumLast(cols: seq<nat>, u: Vec, p: nat)
    requires |u| == |cols| > 0
    ensures
      var n := |cols| - 1;
      PowerSum(cols, u, p) == Add(PowerSum(cols[..n], u[..n], p), Mul(Exp(p * cols[n]), u[n]))
  {
    hide Mul, Add, Exp;
    var n := |cols| - 1;
    DotToPrefix(PowerRow(cols, p), u, n, n);
    assert PowerRow(cols, p)[..n] == PowerRow(cols[..n], p);
  }

  /** Weights multiplied by alpha^(d c_j) + alpha^(d c). */
  function Damped(cols: seq<nat>, u: Vec, d: nat, c: nat): (r: Vec)
    requires |u| == |cols|
    ensures |r| == |cols| && forall j :: 0 <= j < |cols| ==> r[j] == Mul(Add(Exp(d * cols[j]), Exp(d * c)), u[j])
  {
    seq(|cols|, j requires 0 <= j < |cols| => Mul(Add(Exp(d * cols[j]), Exp(d * c)), u[j]))
  }

  lemma DampedTerm(i: nat, d: nat, a: nat, c: nat, u: Byte)
    ensures Add(Mul(Exp((i + d) * a), u), Mul(Exp(d * c), Mul(Exp(i * a), u)))
         == Mul(Exp(i * a), Mul(Add(Exp(d * a), Exp(d * c)), u))
  {
    hide Mul, Add, Exp;
    var x, y, z := Exp(i * a), Exp(d * a), Exp(d * c);
    assert (i + d) * a == i * a + d * a;
    ExpAdd(i * a, d * a);
    MulAssoc(x, y, u);
    MulAssoc(z, x, u);
    MulComm(z, x);
    MulAssoc(x, z, u);
    MulAddRight(x, Mul(y, u), Mul(z, u));
    MulAddLeft(y, z, u);
  }

  /** Two power sums d apart combine to a power sum in which column c has weight zero. */
  lemma {:induction false} Combined(cols: seq<nat>, u: Vec, i: nat, d: nat, c: nat)
    requires |u| == |cols|
    ensures Add(PowerSum(cols, u, i + d), Mul(Exp(d * c), PowerSum(cols, u, i))) == PowerSum(cols, Damped(cols, u, d, c), i)
  {
    hide Mul, Add, Exp, PowerSum, Damped;
    if cols == [] {
      EmptySum(u, i);
      EmptySum(u, i + d);
      EmptySum(Damped(cols, u, d, c), i);
      MulZero(Exp(d * c));
      AddZero(Zero);
    } else {
      var n := |cols| - 1;
      var w := Damped(cols, u, d, c);
      Combined(cols[..n], u[..n], i, d, c);
      PowerSumLast(cols, u, i + d);
      PowerSumLast(cols, u, i);
      PowerSumLast(cols, w, i);
      assert w[..n] == Damped(cols[..n], u[..n], d, c);
      DampedTerm(i, d, cols[n], c, u[n]);
      var z, s, t := Exp(d * c), PowerSum(cols[..n], u[..n], i), Mul(Exp(i * cols[n]), u[n]);
      MulAddRight(z, s, t);
      AddExchange(PowerSum(cols[..n], u[..n], i + d), Mul(Exp((i + d) * cols[n]), u[n]), Mul(z, s), Mul(z, t));
    }
  }

  lemma EmptySum(u: Vec, i: nat)
    requires |u| == 0
    ensures PowerSum([], u, i) == Zero
  {
  }

  /** With c the last column, that column drops out. */
  lemma Eliminated(cols: seq<nat>, u: Vec, i: nat, d: nat)
    requires |u| == |cols| > 0
    ensures
      var n := |cols| - 1;
      Add(PowerSum(cols, u, i + d), Mul(Exp(d * cols[n]), PowerSum(cols, u, i)))
      == PowerSum(cols[..n], Damped(cols[..n], u[..n], d, cols[n]), i)
  {
    hide Mul, Add, Exp, PowerSum, Damped;
    var n := |cols| - 1;
    Combined(cols, u, i, d, cols[n]);
    var w := Damped(cols, u, d, cols[n]);
    PowerSumLast(cols, w, i);
    assert w[..n] == Damped(cols[..n], u[..n], d, cols[n]);
    AddZero(Exp(d * cols[n]));
    MulZero(u[n]);
    MulZero(Exp(i * cols[n]));
    AddZero(PowerSum(cols[..n], w[..n], i));
  }

  // ---- rows at equal distances --------------------------------------------

  ghost predicate Apart(cols: seq<nat>, d: nat) {
    forall j, l :: 0 <= j < l < |cols| ==> Exp(d * cols[j]) != Exp(d * cols[l])
  }

  ghost predicate AllZero(u: Vec) { forall j :: 0 <= j < |u| ==> u[j] == Zero }

  function Nth(p: nat, d: nat, i: nat): nat { p + d * i }

  /** As many vanishing power sums at equal distances as there are columns leave only zero weights. */
  lemma {:induction false} EvenlySpaced(cols: seq<nat>, u: Vec, p: nat, d: nat)
    requires |u| == |cols| && Apart(cols, d)
    requires forall i :: 0 <= i < |cols| ==> PowerSum(cols, u, Nth(p, d, i)) == Zero
    ensures AllZero(u)
    decreases |cols|
  {
    hide Mul, Add, Exp, PowerSum, Damped;
    if cols != [] {
      var n := |cols| - 1;
      var w := Damped(cols[..n], u[..n], d, cols[n]);
      forall i | 0 <= i < n ensures PowerSum(cols[..n], w, Nth(p, d, i)) == Zero {
        assert PowerSum(cols, u, Nth(p, d, i + 1)) == Zero && PowerSum(cols, u, Nth(p, d, i)) == Zero;
        assert Nth(p, d, i + 1) == Nth(p, d, i) + d;
        Eliminated(cols, u, Nth(p, d, i), d);
        MulZero(Exp(d * cols[n]));
        AddZero(Zero);
      }
      EvenlySpaced(cols[..n], w, p, d);
      forall j | 0 <= j < n ensures u[j] == Zero {
        assert w[j] == Zero;
        UndampedZero(Exp(d * cols[j]), Exp(d * cols[n]), u[j]);
      }
      assert AllZero(u[..n]);
      assert PowerSum(cols, u, Nth(p, d, 0)) == Zero && Nth(p, d, 0) == p;
      LastWeight(cols, u, p);
    }
  }

  lemma UndampedZero(x: Byte, y: Byte, u: Byte)
    requires x != y && Mul(Add(x, y), u) == Zero
    ensures u == Zero
  {
    hide Mul, Add;
    NoZeroDivisors(Add(x, y), u);
    if Add(x, y) == Zero {
      AddCancels(x, y);
    }
  }

  lemma {:induction false} ZeroSum(cols: seq<nat>, u: Vec, p: nat)
    requires |u| == |cols| && AllZero(u)
    ensures PowerSum(cols, u, p) == Zero
  {
    hide Mul, Add, Exp, PowerSum;
    if cols == [] {
      EmptySum(u, p);
    } else {
      var n := |cols| - 1;
      ZeroSum(cols[..n], u[..n], p);
      PowerSumLast(cols, u, p);
      MulZero(Exp(p * cols[n]));
      AddZero(Zero);
    }
  }

  lemma LastWeight(cols: seq<nat>, u: Vec, p: nat)
    requires |u| == |cols| > 0 && AllZero(u[..|cols| - 1]) && PowerSum(cols, u, p) == Zero
    ensures AllZero(u)
  {
    hide Mul, Add, Exp, PowerSum;
    var n := |cols| - 1;
    ZeroSum(cols[..n], u[..n], p);
    PowerSumLast(cols, u, p);
    AddZero(Mul(Exp(p * cols[n]), u[n]));
    ExpNonzero(p * cols[n]);
    NoZeroDivisors(Exp(p * cols[n]), u[n]);
    forall j | 0 <= j < |u| ensures u[j] == Zero {
      assert j < n ==> u[..n][j] == Zero;
    }
  }

  // ---- rows with gaps -----------------------------------------------------

  /** g times (X + alpha^c), lowest coefficient first. */
  function TimesRoot(g: Vec, c: nat): (r: Vec)
    ensures |r| == |g| + 1
    ensures forall n :: 0 <= n <= |g| ==>
      r[n] == Add(if n > 0 then g[n - 1] else Zero, if n < |g| then Mul(Exp(c), g[n]) else Zero)
  {
    seq(|g| + 1, n requires 0 <= n <= |g| =>
      Add(if n > 0 then g[n - 1] else Zero, if n < |g| then Mul(Exp(c), g[n]) else Zero))
  }

  /** The polynomial whose roots are alpha^c for the columns c. */
  function Locator(cols: seq<nat>): (g: Vec)
    ensures |g| == |cols| + 1
  {
    if cols == [] then [One] else TimesRoot(Locator(cols[..|cols| - 1]), cols[|cols| - 1])
  }

  /** The first n coefficients applied to consecutive power sums from i on. */
  function Filter(g: Vec, cols: seq<nat>, u: Vec, i: nat, n: nat): Byte
    requires |u| == |cols| && n <= |g|
  {
    if n == 0 then Zero else Add(Filter(g, cols, u, i, n - 1), Mul(g[n - 1], PowerSum(cols, u, i + n - 1)))
  }

  lemma {:induction false} FilterRoot(g: Vec, cols: seq<nat>, u: Vec, i: nat, c: nat, n: nat)
    requires |u| == |cols| && n <= |g|
    ensures Filter(g, cols, Damped(cols, u, 1, c), i, n)
         == Add(Filter(TimesRoot(g, c), cols, u, i, n), if n > 0 then Mul(g[n - 1], PowerSum(cols, u, i + n)) else Zero)
  {
    hide Mul, Add, Exp, PowerSum, Damped, TimesRoot;
    if n == 0 {
      AddZero(Zero);
    } else {
      FilterRoot(g, cols, u, i, c, n - 1);
      var w, h := Damped(cols, u, 1, c), TimesRoot(g, c);
      Combined(cols, u, i + n - 1, 1, c);
      var s, s', z := PowerSum(cols, u, i + n - 1), PowerSum(cols, u, i + n), Exp(c);
      assert 1 * c == c && i + n - 1 + 1 == i + n;
      var b := if n > 1 then g[n - 2] else Zero;
      assert h[n - 1] == Add(b, Mul(z, g[n - 1]));
      assert PowerSum(cols, w, i + n - 1) == Add(s', Mul(z, s));
      FilterStep(Filter(h, cols, u, i, n - 1), b, g[n - 1], s, s', z);
      MulZero(s);
      assert Filter(g, cols, w, i, n - 1) == Add(Filter(h, cols, u, i, n - 1), Mul(b, s));
    }
  }

  lemma FilterStep(f: Byte, b: Byte, g: Byte, s: Byte, s': Byte, z: Byte)
    ensures Add(Add(f, Mul(b, s)), Mul(g, Add(s', Mul(z, s)))) == Add(Add(f, Mul(Add(b, Mul(z, g)), s)), Mul(g, s'))
  {
    hide Mul, Add;
    MulAddRight(g, s', Mul(z, s));
    MulAddLeft(b, Mul(z, g), s);
    MulAssoc(g, z, s);
    MulComm(g, z);
    Regroup(f, Mul(b, s), Mul(g, s'), Mul(Mul(z, g), s));
  }

  lemma Regroup(f: Byte, a: Byte, b: Byte, c: Byte)
    ensures Add(Add(f, a), Add(b, c)) == Add(Add(f, Add(a, c)), b)
  {
  }

  /** The locator sends every window of power sums to zero. */
  lemma {:induction false} LocatorVanishes(cols: seq<nat>, u: Vec, i: nat)
    requires |u| == |cols|
    ensures Filter(Locator(cols), cols, u, i, |cols| + 1) == Zero
    decreases |cols|
  {
    hide Mul, Add, Exp, PowerSum, Damped, TimesRoot;
    if cols == [] {
      EmptySum(u, i);
      MulZero(One);
      AddZero(Zero);
    } else {
      var n := |cols| - 1;
      var c, g := cols[n], Locator(cols[..n]);
      var w := Damped(cols, u, 1, c);
      LocatorVanishes(cols[..n], w[..n], i);
      FilterRoot(g, cols, u, i, c, n + 1);
      assert TimesRoot(g, c)[n + 1] == Add(g[n], Zero);
      AddZero(g[n]);
      assert Filter(Locator(cols), cols, u, i, n + 2) == Filter(g, cols, w, i, n + 1);
      assert w[n] == Mul(Add(Exp(1 * c), Exp(1 * c)), u[n]);
      AddZero(Exp(1 * c));
      MulZero(u[n]);
      DropLast(g, cols, w, i, n + 1);
    }
  }

  /** A last column with weight zero does not matter. */
  lemma {:induction false} DropLast(g: Vec, cols: seq<nat>, w: Vec, i: nat, m: nat)
    requires |w| == |cols| > 0 && w[|cols| - 1] == Zero && m <= |g|
    ensures Filter(g, cols, w, i, m) == Filter(g, cols[..|cols| - 1], w[..|cols| - 1], i, m)
  {
    hide Mul, Add, Exp, PowerSum;
    if m > 0 {
      DropLast(g, cols, w, i, m - 1);
      var n, p := |cols| - 1, i + m - 1;
      PowerSumLast(cols, w, p);
      MulZero(Exp(p * cols[n]));
      AddZero(PowerSum(cols[..n], w[..n], p));
    }
  }

  /** If all power sums of a window but one vanish and the locator's coefficient there is not zero, that
      one vanishes too. */
  lemma OneGap(cols: seq<nat>, u: Vec, p: nat, q: nat)
    requires |u| == |cols| && q <= |cols| && Locator(cols)[q] != Zero
    requires forall x :: p <= x <= p + |cols| && x != p + q ==> PowerSum(cols, u, x) == Zero
    ensures PowerSum(cols, u, p + q) == Zero
  {
    hide Mul, PowerSum, Locator;
    LocatorVanishes(cols, u, p);
    FilterSingle(Locator(cols), cols, u, p, q, |cols| + 1);
    NoZeroDivisors(Locator(cols)[q], PowerSum(cols, u, p + q));
  }

  lemma {:induction false} FilterSingle(g: Vec, cols: seq<nat>, u: Vec, p: nat, q: nat, m: nat)
    requires |u| == |cols| && m <= |g| && q < |g|
    requires forall x :: p <= x < p + m && x != p + q ==> PowerSum(cols, u, x) == Zero
    ensures Filter(g, cols, u, p, m) == if m > q then Mul(g[q], PowerSum(cols, u, p + q)) else Zero
  {
    hide Mul, Add, PowerSum;
    if m > 0 {
      FilterSingle(g, cols, u, p, q, m - 1);
      AddZero(Filter(g, cols, u, p, m - 1));
      AddZero(Mul(g[q], PowerSum(cols, u, p + q)));
      MulZero(g[m - 1]);
    }
  }

  // ---- small pieces -------------------------------------------------------

  /** What a kernel vector of a piece means. */
  ghost predicate Kills(rows: seq<nat>, cols: seq<nat>, u: Vec)
    requires |rows| == |cols| == |u|
  {
    forall i :: 0 <= i < |rows| ==> PowerSum(cols, u, rows[i]) == Zero
  }

  lemma KillsMeans(rows: seq<nat>, cols: seq<nat>, u: Vec)
    requires |rows| == |cols| == |u|
    ensures Apply(Minor(rows, cols), u) == ZeroVec(|u|) <==> Kills(rows, cols, u)
  {
    hide Mul, Add, Exp, DotTo;
    var m := Minor(rows, cols);
    forall i | 0 <= i < |rows| ensures Apply(m, u)[i] == PowerSum(cols, u, rows[i]) {
    }
    if Apply(m, u) == ZeroVec(|u|) {
      forall i | 0 <= i < |rows| ensures PowerSum(cols, u, rows[i]) == Zero {
        assert Apply(m, u)[i] == Zero;
      }
    }
    if Kills(rows, cols, u) {
      assert Apply(m, u) == ZeroVec(|u|);
    }
  }

  lemma SingularMeans(rows: seq<nat>, cols: seq<nat>)
    requires |rows| == |cols|
    ensures Regular(rows, cols) <==> forall u: Vec :: |u| == |rows| && Kills(rows, cols, u) ==> AllZero(u)
  {
    hide Minor, Kills, Apply;
    forall u: Vec | |u| == |rows|
      ensures Apply(Minor(rows, cols), u) == ZeroVec(|u|) <==> Kills(rows, cols, u)
    {
      KillsMeans(rows, cols, u);
    }
    if !Regular(rows, cols) {
      var u: Vec :| |u| == |rows| && Nonzero(u) && Apply(Minor(rows, cols), u) == ZeroVec(|rows|);
      assert Kills(rows, cols, u) && !AllZero(u);
    }
    if u: Vec :| |u| == |rows| && Kills(rows, cols, u) && !AllZero(u) {
      assert Nonzero(u) && Apply(Minor(rows, cols), u) == ZeroVec(|rows|);
    }
  }

  /** Rows p, p + d, p + 2 d, ... */
  ghost predicate Steps(rows: seq<nat>, d: nat) {
    forall i :: 0 <= i < |rows| ==> rows[i] == Nth(rows[0], d, i)
  }

  lemma StepsRegular(rows: seq<nat>, cols: seq<nat>, d: nat)
    requires |rows| == |cols| && Steps(rows, d) && Apart(cols, d)
    ensures Regular(rows, cols)
  {
    hide PowerSum, Apart;
    forall u: Vec | |u| == |rows| && Kills(rows, cols, u) ensures AllZero(u) {
      if rows != [] {
        forall i | 0 <= i < |cols| ensures PowerSum(cols, u, Nth(rows[0], d, i)) == Zero {
          assert PowerSum(cols, u, rows[i]) == Zero;
        }
        EvenlySpaced(cols, u, rows[0], d);
      }
    }
    SingularMeans(rows, cols);
  }

  /** A window of consecutive power sums that all vanish. */
  lemma WindowZero(cols: seq<nat>, u: Vec, p: nat)
    requires |u| == |cols| && Apart(cols, 1)
    requires forall x :: p <= x < p + |cols| ==> PowerSum(cols, u, x) == Zero
    ensures AllZero(u)
  {
    hide PowerSum, Apart;
    forall i | 0 <= i < |cols| ensures PowerSum(cols, u, Nth(p, 1, i)) == Zero {
      assert p <= Nth(p, 1, i) < p + |cols|;
    }
    EvenlySpaced(cols, u, p, 1);
  }

  /** Consecutive rows with row p + q left out. */
  ghost predicate Gap(rows: seq<nat>, q: nat) {
    0 < q < |rows| && forall i :: 0 <= i < |rows| ==> rows[i] == rows[0] + (if i < q then i else i + 1)
  }

  lemma GapRegular(rows: seq<nat>, cols: seq<nat>, q: nat)
    requires |rows| == |cols| && Gap(rows, q) && Apart(cols, 1) && Locator(cols)[q] != Zero
    ensures Regular(rows, cols)
  {
    hide PowerSum, Apart, Locator, Regular, AllZero;
    forall u: Vec | |u| == |rows| && Kills(rows, cols, u) ensures AllZero(u) {
      GapZero(rows, cols, u, q);
    }
    SingularMeans(rows, cols);
  }

  lemma GapZero(rows: seq<nat>, cols: seq<nat>, u: Vec, q: nat)
    requires |rows| == |cols| == |u| && Gap(rows, q) && Apart(cols, 1) && Locator(cols)[q] != Zero && Kills(rows, cols, u)
    ensures AllZero(u)
  {
    hide PowerSum, Apart, Locator, AllZero;
    var p := rows[0];
    forall x | p <= x <= p + |cols| && x != p + q ensures PowerSum(cols, u, x) == Zero {
      var i := if x < p + q then x - p else x - p - 1;
      assert rows[i] == x;
    }
    OneGap(cols, u, p, q);
    WindowZero(cols, u, p);
  }

  /** Four coefficients at work. */
  lemma FilterFour(cols: seq<nat>, u: Vec, i: nat)
    requires |u| == |cols| == 3
    ensures
      var g := Locator(cols);
      Add(Add(Add(Mul(g[0], PowerSum(cols, u, i)), Mul(g[1], PowerSum(cols, u, i + 1))),
              Mul(g[2], PowerSum(cols, u, i + 2))), Mul(g[3], PowerSum(cols, u, i + 3))) == Zero
  {
    hide Mul, Add, PowerSum, Locator;
    var g := Locator(cols);
    LocatorVanishes(cols, u, i);
    AddZero(Mul(g[0], PowerSum(cols, u, i)));
    assert Filter(g, cols, u, i, 1) == Add(Zero, Mul(g[0], PowerSum(cols, u, i)));
    assert Filter(g, cols, u, i, 2) == Add(Filter(g, cols, u, i, 1), Mul(g[1], PowerSum(cols, u, i + 1)));
    assert Filter(g, cols, u, i, 3) == Add(Filter(g, cols, u, i, 2), Mul(g[2], PowerSum(cols, u, i + 2)));
    assert Filter(g, cols, u, i, 4) == Add(Filter(g, cols, u, i, 3), Mul(g[3], PowerSum(cols, u, i + 3)));
  }

  ghost predicate EndSolvable(cols: seq<nat>)
    requires |cols| == 3
  {
    Locator(cols)[3] == One && Add(Locator(cols)[1], Mul(Locator(cols)[2], Locator(cols)[2])) != Zero
  }

  ghost predicate StartSolvable(cols: seq<nat>)
    requires |cols| == 3
  {
    Locator(cols)[2] != Zero && Add(Mul(Locator(cols)[1], Locator(cols)[1]), Mul(Locator(cols)[0], Locator(cols)[2])) != Zero
  }

  /** Rows p, p + 1, p + 4: two rows left out. */
  lemma WideEndRegular(rows: seq<nat>, cols: seq<nat>)
    requires |rows| == |cols| == 3 && rows[1] == rows[0] + 1 && rows[2] == rows[0] + 4 && Apart(cols, 1)
    requires EndSolvable(cols)
    ensures Regular(rows, cols)
  {
    hide PowerSum, Apart, EndSolvable, StartSolvable;
    forall u: Vec | |u| == |rows| && Kills(rows, cols, u) ensures AllZero(u) {
      assert PowerSum(cols, u, rows[0]) == Zero && PowerSum(cols, u, rows[1]) == Zero && PowerSum(cols, u, rows[2]) == Zero;
      WideEndZero(cols, u, rows[0]);
    }
    SingularMeans(rows, cols);
  }

  lemma WideEndZero(cols: seq<nat>, u: Vec, p: nat)
    requires |u| == |cols| == 3 && Apart(cols, 1)
    requires PowerSum(cols, u, p) == Zero && PowerSum(cols, u, p + 1) == Zero && PowerSum(cols, u, p + 4) == Zero
    requires EndSolvable(cols)
    ensures AllZero(u)
  {
    hide Mul, Add, PowerSum, Apart, Locator;
    var g := Locator(cols);
    FilterFour(cols, u, p);
    FilterFour(cols, u, p + 1);
    SolveEnd(g[0], g[1], g[2], PowerSum(cols, u, p + 2), PowerSum(cols, u, p + 3));
    WindowZero(cols, u, p);
  }

  lemma SolveEnd(g0: Byte, g1: Byte, g2: Byte, s: Byte, t: Byte)
    requires Add(Add(Add(Mul(g0, Zero), Mul(g1, Zero)), Mul(g2, s)), Mul(One, t)) == Zero
    requires Add(Add(Add(Mul(g0, Zero), Mul(g1, s)), Mul(g2, t)), Mul(One, Zero)) == Zero
    requires Add(g1, Mul(g2, g2)) != Zero
    ensures s == Zero && t == Zero
  {
    hide Mul, Add;
    MulZero(g0);
    MulZero(g1);
    MulZero(g2);
    MulZero(One);
    AddZero(Zero);
    MulOneLeft(t);
    AddZero(Mul(g2, s));
    AddCancels(Mul(g2, s), t);
    AddZero(Mul(g1, s));
    AddZero(Add(Mul(g1, s), Mul(g2, t)));
    MulAssoc(g2, g2, s);
    MulAddLeft(g1, Mul(g2, g2), s);
    NoZeroDivisors(Add(g1, Mul(g2, g2)), s);
  }

  /** Rows p, p + 3, p + 4: two rows left out. */
  lemma WideStartRegular(rows: seq<nat>, cols: seq<nat>)
    requires |rows| == |cols| == 3 && rows[1] == rows[0] + 3 && rows[2] == rows[0] + 4 && Apart(cols, 1)
    requires StartSolvable(cols)
    ensures Regular(rows, cols)
  {
    hide PowerSum, Apart, EndSolvable, StartSolvable;
    forall u: Vec | |u| == |rows| && Kills(rows, cols, u) ensures AllZero(u) {
      assert PowerSum(cols, u, rows[0]) == Zero && PowerSum(cols, u, rows[1]) == Zero && PowerSum(cols, u, rows[2]) == Zero;
      WideStartZero(cols, u, rows[0]);
    }
    SingularMeans(rows, cols);
  }

  lemma WideStartZero(cols: seq<nat>, u: Vec, p: nat)
    requires |u| == |cols| == 3 && Apart(cols, 1)
    requires PowerSum(cols, u, p) == Zero && PowerSum(cols, u, p + 3) == Zero && PowerSum(cols, u, p + 4) == Zero
    requires StartSolvable(cols)
    ensures AllZero(u)
  {
    hide Mul, Add, PowerSum, Apart, Locator;
    var g := Locator(cols);
    FilterFour(cols, u, p);
    FilterFour(cols, u, p + 1);
    SolveStart(g[0], g[1], g[2], g[3], PowerSum(cols, u, p + 1), PowerSum(cols, u, p + 2));
    WindowZero(cols, u, p);
  }

  lemma SolveStart(g0: Byte, g1: Byte, g2: Byte, g3: Byte, s: Byte, t: Byte)
    requires Add(Add(Add(Mul(g0, Zero), Mul(g1, s)), Mul(g2, t)), Mul(g3, Zero)) == Zero
    requires Add(Add(Add(Mul(g0, s), Mul(g1, t)), Mul(g2, Zero)), Mul(g3, Zero)) == Zero
    requires g2 != Zero && Add(Mul(g1, g1), Mul(g0, g2)) != Zero
    ensures s == Zero && t == Zero
  {
    hide Mul, Add;
    MulZero(g0);
    MulZero(g2);
    MulZero(g3);
    AddZero(Mul(g1, s));
    AddZero(Add(Mul(g1, s), Mul(g2, t)));
    AddZero(Add(Mul(g0, s), Mul(g1, t)));
    AddCancels(Mul(g1, s), Mul(g2, t));
    AddCancels(Mul(g0, s), Mul(g1, t));
    MulAssoc(g1, g1, s);
    MulAssoc(g0, g2, s);
    Slide(g1, g2, t);
    Slide(g2, g0, s);
    MulComm(g2, g0);
    MulAssoc(g2, g0, s);
    MulAddLeft(Mul(g1, g1), Mul(g0, g2), s);
    AddZero(Mul(g1, Mul(g1, s)));
    assert Mul(g1, Mul(g1, s)) == Mul(g1, Mul(g2, t)) == Mul(g2, Mul(g1, t)) == Mul(g2, Mul(g0, s)) == Mul(Mul(g0, g2), s);
    NoZeroDivisors(Add(Mul(g1, g1), Mul(g0, g2)), s);
    MulZero(g1);
    NoZeroDivisors(g2, t);
  }

  lemma Slide(s: Byte, x: Byte, v: Byte)
    ensures Mul(s, Mul(x, v)) == Mul(x, Mul(s, v))
  {
    hide Mul;
    MulAssoc(s, x, v);
    MulComm(s, x);
    MulAssoc(x, s, v);
  }
}
