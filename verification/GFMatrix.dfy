/** Square matrices over GF(256) and the Gauss-Jordan inversion of
    backend/storage/reed_solomon.js. */
module GFMatrix {
  import opened GF256
  import opened Wrappers

  type Vec = seq<Byte>
  type Mat = seq<seq<Byte>>

  ghost predicate Square(a: Mat, n: nat) {
    |a| == n && forall i :: 0 <= i < n ==> |a[i]| == n
  }

  // ---- vectors ------------------------------------------------------------

  /** The sum of the first k products a[j] * b[j]. */
  function DotTo(a: Vec, b: Vec, k: nat): Byte
    requires k <= |a| && k <= |b|
  {
    if k == 0 then Zero else Add(DotTo(a, b, k - 1), Mul(a[k - 1], b[k - 1]))
  }

  function Dot(a: Vec, b: Vec): Byte
    requires |a| == |b|
  {
    DotTo(a, b, |a|)
  }

  function Apply(m: Mat, v: Vec): (r: Vec)
    requires forall i :: 0 <= i < |m| ==> |m[i]| == |v|
    ensures |r| == |m| && forall i :: 0 <= i < |m| ==> r[i] == Dot(m[i], v)
  {
    seq(|m|, i requires 0 <= i < |m| => Dot(m[i], v))
  }

  function ZeroVec(n: nat): (v: Vec)
    ensures |v| == n && forall i :: 0 <= i < n ==> v[i] == Zero
  {
    seq(n, _ => Zero)
  }

  function Unit(n: nat, i: int): (v: Vec)
    ensures |v| == n && forall j :: 0 <= j < n ==> v[j] == if j == i then One else Zero
  {
    seq(n, j => if j == i then One else Zero)
  }

  function Identity(n: nat): (m: Mat)
    ensures Square(m, n) && forall i :: 0 <= i < n ==> m[i] == Unit(n, i)
  {
    seq(n, i => Unit(n, i))
  }

  function Scale(c: Byte, a: Vec): (r: Vec)
    ensures |r| == |a| && forall j :: 0 <= j < |a| ==> r[j] == Mul(a[j], c)
  {
    seq(|a|, j requires 0 <= j < |a| => Mul(a[j], c))
  }

  /** a + f * b */
  function AddScaled(a: Vec, f: Byte, b: Vec): (r: Vec)
    requires |a| == |b|
    ensures |r| == |a| && forall j :: 0 <= j < |a| ==> r[j] == Add(a[j], Mul(f, b[j]))
  {
    seq(|a|, j requires 0 <= j < |a| => Add(a[j], Mul(f, b[j])))
  }

  function Plus(a: Vec, b: Vec): (r: Vec)
    requires |a| == |b|
    ensures |r| == |a| && forall j :: 0 <= j < |a| ==> r[j] == Add(a[j], b[j])
  {
    seq(|a|, j requires 0 <= j < |a| => Add(a[j], b[j]))
  }

  lemma {:induction false} DotToScale(c: Byte, a: Vec, v: Vec, k: nat)
    requires k <= |a| == |v|
    ensures DotTo(Scale(c, a), v, k) == Mul(c, DotTo(a, v, k))
  {
    hide Mul, Add;
    if k == 0 {
      MulZero(c);
    } else {
      DotToScale(c, a, v, k - 1);
      MulAddRight(c, DotTo(a, v, k - 1), Mul(a[k - 1], v[k - 1]));
      MulComm(a[k - 1], c);
      MulAssoc(c, a[k - 1], v[k - 1]);
    }
  }

  lemma {:induction false} DotToAddScaled(a: Vec, f: Byte, b: Vec, v: Vec, k: nat)
    requires k <= |a| == |b| == |v|
    ensures DotTo(AddScaled(a, f, b), v, k) == Add(DotTo(a, v, k), Mul(f, DotTo(b, v, k)))
  {
    hide Mul, Add;
    if k == 0 {
      MulZero(f);
      AddZero(Zero);
    } else {
      DotToAddScaled(a, f, b, v, k - 1);
      MulAddRight(f, DotTo(b, v, k - 1), Mul(b[k - 1], v[k - 1]));
      MulAddLeft(a[k - 1], Mul(f, b[k - 1]), v[k - 1]);
      MulAssoc(f, b[k - 1], v[k - 1]);
      AddExchange(DotTo(a, v, k - 1), Mul(f, DotTo(b, v, k - 1)),
                  Mul(a[k - 1], v[k - 1]), Mul(f, Mul(b[k - 1], v[k - 1])));
    }
  }

  lemma {:induction false} DotToPlus(a: Vec, v: Vec, w: Vec, k: nat)
    requires k <= |a| == |v| == |w|
    ensures DotTo(a, Plus(v, w), k) == Add(DotTo(a, v, k), DotTo(a, w, k))
  {
    hide Mul, Add;
    if k == 0 {
      AddZero(Zero);
    } else {
      DotToPlus(a, v, w, k - 1);
      MulAddRight(a[k - 1], v[k - 1], w[k - 1]);
      AddExchange(DotTo(a, v, k - 1), DotTo(a, w, k - 1), Mul(a[k - 1], v[k - 1]), Mul(a[k - 1], w[k - 1]));
    }
  }

  lemma {:induction false} DotToUnit(i: int, n: nat, v: Vec, k: nat)
    requires k <= n == |v|
    ensures DotTo(Unit(n, i), v, k) == if 0 <= i < k then v[i] else Zero
  {
    hide Mul, Add;
    if k > 0 {
      DotToUnit(i, n, v, k - 1);
      MulOneLeft(v[k - 1]);
      MulZero(v[k - 1]);
      AddZero(v[k - 1]);
      AddZero(Zero);
      if 0 <= i < k - 1 { AddZero(v[i]); }
    }
  }

  lemma DotUnit(n: nat, i: nat, v: Vec)
    requires i < n == |v|
    ensures Dot(Unit(n, i), v) == v[i]
  {
    DotToUnit(i, n, v, n);
  }

  lemma ApplyIdentity(n: nat, v: Vec)
    requires |v| == n
    ensures Apply(Identity(n), v) == v
  {
    forall i | 0 <= i < n ensures Apply(Identity(n), v)[i] == v[i] {
      DotUnit(n, i, v);
    }
  }

  lemma ApplyPlus(m: Mat, v: Vec, w: Vec)
    requires |v| == |w| && forall i :: 0 <= i < |m| ==> |m[i]| == |v|
    ensures Apply(m, Plus(v, w)) == Plus(Apply(m, v), Apply(m, w))
  {
    hide Add;
    forall i | 0 <= i < |m| ensures Apply(m, Plus(v, w))[i] == Plus(Apply(m, v), Apply(m, w))[i] {
      DotToPlus(m[i], v, w, |v|);
    }
  }

  // ---- what inversion means -----------------------------------------------

  ghost predicate Nonzero(v: Vec) { exists i :: 0 <= i < |v| && v[i] != Zero }

  /** Some non-zero vector is sent to zero. */
  ghost predicate Singular(a: Mat, n: nat)
    requires Square(a, n)
  {
    exists v: Vec :: |v| == n && Nonzero(v) && Apply(a, v) == ZeroVec(n)
  }

  /** b undoes a on every vector. */
  ghost predicate Undoes(b: Mat, a: Mat, n: nat)
    requires Square(a, n) && Square(b, n)
  {
    forall v: Vec :: |v| == n ==> Apply(b, Apply(a, v)) == v
  }

  /** Every row of m is the same row of inv times a. */
  ghost predicate RowAgrees(mrow: Vec, irow: Vec, a: Mat, n: nat)
    requires Square(a, n) && |mrow| == |irow| == n
  {
    forall v: Vec :: |v| == n ==> Dot(mrow, v) == Dot(irow, Apply(a, v))
  }

  ghost predicate Agrees(m: Mat, inv: Mat, a: Mat, n: nat)
    requires Square(a, n) && Square(m, n) && Square(inv, n)
  {
    forall i :: 0 <= i < n ==> RowAgrees(m[i], inv[i], a, n)
  }

  ghost predicate Injective(inv: Mat, n: nat)
    requires Square(inv, n)
  {
    forall w: Vec :: |w| == n && Apply(inv, w) == ZeroVec(n) ==> w == ZeroVec(n)
  }

  /** Columns before `col` are columns of the identity. */
  ghost predicate Reduced(m: Mat, n: nat, col: nat)
    requires Square(m, n)
  {
    forall i, j :: 0 <= i < n && 0 <= j < col && j < n ==> m[i][j] == if i == j then One else Zero
  }

  // ---- row operations keep the invariant ----------------------------------

  lemma RowAgreesScale(mrow: Vec, irow: Vec, a: Mat, n: nat, c: Byte)
    requires Square(a, n) && |mrow| == |irow| == n && RowAgrees(mrow, irow, a, n)
    ensures RowAgrees(Scale(c, mrow), Scale(c, irow), a, n)
  {
    hide DotTo, Mul, Add;
    forall v: Vec | |v| == n ensures Dot(Scale(c, mrow), v) == Dot(Scale(c, irow), Apply(a, v)) {
      DotToScale(c, mrow, v, n);
      DotToScale(c, irow, Apply(a, v), n);
    }
  }

  lemma RowAgreesAddScaled(mrow: Vec, irow: Vec, f: Byte, mcol: Vec, icol: Vec, a: Mat, n: nat)
    requires Square(a, n) && |mrow| == |irow| == |mcol| == |icol| == n
    requires RowAgrees(mrow, irow, a, n) && RowAgrees(mcol, icol, a, n)
    ensures RowAgrees(AddScaled(mrow, f, mcol), AddScaled(irow, f, icol), a, n)
  {
    hide DotTo, Mul, Add;
    forall v: Vec | |v| == n
      ensures Dot(AddScaled(mrow, f, mcol), v) == Dot(AddScaled(irow, f, icol), Apply(a, v))
    {
      DotToAddScaled(mrow, f, mcol, v, n);
      DotToAddScaled(irow, f, icol, Apply(a, v), n);
    }
  }

  lemma RowAgreesIdentity(a: Mat, n: nat)
    requires Square(a, n)
    ensures Agrees(a, Identity(n), a, n) && Injective(Identity(n), n)
  {
    hide DotTo, Mul, Add;
    forall i | 0 <= i < n ensures RowAgrees(a[i], Identity(n)[i], a, n) {
      forall v: Vec | |v| == n ensures Dot(a[i], v) == Dot(Identity(n)[i], Apply(a, v)) {
        DotUnit(n, i, Apply(a, v));
      }
    }
    forall w: Vec | |w| == n && Apply(Identity(n), w) == ZeroVec(n) ensures w == ZeroVec(n) {
      ApplyIdentity(n, w);
    }
  }

  function SwapRows(m: Mat, p: nat, q: nat): (r: Mat)
    requires p < |m| && q < |m|
    ensures |r| == |m|
    ensures forall i :: 0 <= i < |m| ==> r[i] == m[if i == p then q else if i == q then p else i]
    ensures Square(m, |m|) ==> Square(r, |m|)
  {
    m[p := m[q]][q := m[p]]
  }

  lemma SwapIsZero(inv: Mat, n: nat, p: nat, q: nat, w: Vec)
    requires Square(inv, n) && p < n && q < n && |w| == n
    requires Apply(SwapRows(inv, p, q), w) == ZeroVec(n)
    ensures Apply(inv, w) == ZeroVec(n)
  {
    hide Dot, SwapRows;
    var z := Apply(SwapRows(inv, p, q), w);
    forall i | 0 <= i < n ensures Apply(inv, w)[i] == Zero {
      var k := if i == p then q else if i == q then p else i;
      assert SwapRows(inv, p, q)[k] == inv[i];
      assert z[k] == Zero;
    }
  }

  /** Every vector that `after` sends to zero is sent to zero by `before`. */
  ghost predicate KernelShrinks(before: Mat, after: Mat, n: nat)
    requires Square(before, n) && Square(after, n)
  {
    forall w: Vec :: |w| == n && Apply(after, w) == ZeroVec(n) ==> Apply(before, w) == ZeroVec(n)
  }

  lemma InjectiveKept(before: Mat, after: Mat, n: nat)
    requires Square(before, n) && Square(after, n) && Injective(before, n) && KernelShrinks(before, after, n)
    ensures Injective(after, n)
  {
    hide Dot, Apply;
  }

  lemma InjectiveSwap(inv: Mat, n: nat, p: nat, q: nat)
    requires Square(inv, n) && p < n && q < n && Injective(inv, n)
    ensures Injective(SwapRows(inv, p, q), n)
  {
    hide Dot, Apply, SwapRows;
    forall w: Vec | |w| == n && Apply(SwapRows(inv, p, q), w) == ZeroVec(n)
      ensures Apply(inv, w) == ZeroVec(n)
    {
      SwapIsZero(inv, n, p, q, w);
    }
    InjectiveKept(inv, SwapRows(inv, p, q), n);
  }

  /** `after` is `before` with row r replaced. */
  ghost predicate RowReplaced(before: Mat, after: Mat, n: nat, r: nat, row: Vec) {
    Square(before, n) && Square(after, n) && r < n && after[r] == row
    && forall i :: 0 <= i < n && i != r ==> after[i] == before[i]
  }

  lemma ScaleIsZero(inv: Mat, after: Mat, n: nat, r: nat, c: Byte, w: Vec)
    requires r < |inv| && RowReplaced(inv, after, n, r, Scale(c, inv[r])) && c != Zero && |w| == n
    requires Apply(after, w) == ZeroVec(n)
    ensures Apply(inv, w) == ZeroVec(n)
  {
    hide DotTo, Mul, Add;
    forall i | 0 <= i < n ensures Apply(inv, w)[i] == Zero {
      assert Apply(after, w)[i] == Zero;
      if i == r {
        DotToScale(c, inv[r], w, n);
        NoZeroDivisors(c, Dot(inv[r], w));
      }
    }
  }

  lemma InjectiveScale(inv: Mat, after: Mat, n: nat, r: nat, c: Byte)
    requires r < |inv| && RowReplaced(inv, after, n, r, Scale(c, inv[r])) && c != Zero && Injective(inv, n)
    ensures Injective(after, n)
  {
    hide Dot, Apply, Scale;
    forall w: Vec | |w| == n && Apply(after, w) == ZeroVec(n) ensures Apply(inv, w) == ZeroVec(n) {
      ScaleIsZero(inv, after, n, r, c, w);
    }
    InjectiveKept(inv, after, n);
  }

  lemma AddScaledIsZero(inv: Mat, after: Mat, n: nat, r: nat, f: Byte, c: nat, w: Vec)
    requires Square(inv, n) && r < n && c < n && r != c && |w| == n
    requires RowReplaced(inv, after, n, r, AddScaled(inv[r], f, inv[c])) && Apply(after, w) == ZeroVec(n)
    ensures Apply(inv, w) == ZeroVec(n)
  {
    hide DotTo, Mul, Add;
    assert Apply(after, w)[c] == Zero;
    forall i | 0 <= i < n ensures Apply(inv, w)[i] == Zero {
      assert Apply(after, w)[i] == Zero;
      if i == r {
        DotToAddScaled(inv[r], f, inv[c], w, n);
        MulZero(f);
        AddZero(Dot(inv[r], w));
      }
    }
  }

  lemma InjectiveAddScaled(inv: Mat, after: Mat, n: nat, r: nat, f: Byte, c: nat)
    requires Square(inv, n) && r < n && c < n && r != c && Injective(inv, n)
    requires RowReplaced(inv, after, n, r, AddScaled(inv[r], f, inv[c]))
    ensures Injective(after, n)
  {
    hide Dot, Apply, AddScaled;
    forall w: Vec | |w| == n && Apply(after, w) == ZeroVec(n) ensures Apply(inv, w) == ZeroVec(n) {
      AddScaledIsZero(inv, after, n, r, f, c, w);
    }
    InjectiveKept(inv, after, n);
  }

  // ---- the two ways the elimination can end -------------------------------

  lemma ReducedIsIdentity(m: Mat, n: nat)
    requires Square(m, n) && Reduced(m, n, n)
    ensures m == Identity(n)
  {
    forall i | 0 <= i < n ensures m[i] == Unit(n, i) {}
  }

  /** At the end inv undoes a, and a undoes inv. */
  lemma FinishedInverse(m: Mat, inv: Mat, a: Mat, n: nat)
    requires Square(a, n) && Square(m, n) && Square(inv, n)
    requires Reduced(m, n, n) && Agrees(m, inv, a, n) && Injective(inv, n)
    ensures Undoes(inv, a, n) && Undoes(a, inv, n)
  {
    hide Mul, Add, DotTo;
    ReducedIsIdentity(m, n);
    forall v: Vec | |v| == n ensures Apply(inv, Apply(a, v)) == v {
      forall i | 0 <= i < n ensures Apply(inv, Apply(a, v))[i] == v[i] {
        assert RowAgrees(m[i], inv[i], a, n);
        DotUnit(n, i, v);
      }
    }
    forall w: Vec | |w| == n ensures Apply(a, Apply(inv, w)) == w {
      RightInverse(inv, a, n, w);
    }
  }

  lemma PlusSelfIsZero(v: Vec)
    ensures Plus(v, v) == ZeroVec(|v|)
  {
    hide Add;
    forall i | 0 <= i < |v| ensures Plus(v, v)[i] == Zero { AddZero(v[i]); }
  }

  lemma PlusZeroMeansEqual(u: Vec, w: Vec)
    requires |u| == |w| && Plus(u, w) == ZeroVec(|u|)
    ensures u == w
  {
    hide Add;
    forall i | 0 <= i < |u| ensures u[i] == w[i] {
      assert Plus(u, w)[i] == Zero;
      AddCancels(u[i], w[i]);
    }
  }

  lemma RightInverse(inv: Mat, a: Mat, n: nat, w: Vec)
    requires Square(a, n) && Square(inv, n) && |w| == n
    requires Undoes(inv, a, n) && Injective(inv, n)
    ensures Apply(a, Apply(inv, w)) == w
  {
    hide Dot, Plus;
    var v := Apply(inv, w);
    var u := Apply(a, v);
    assert Apply(inv, u) == v;
    ApplyPlus(inv, u, w);
    PlusSelfIsZero(v);
    PlusZeroMeansEqual(u, w);
  }

  /** The kernel vector when column col has no pivot: m[j][col] for j < col, then 1, then zeros. */
  function KernelVector(m: Mat, n: nat, col: nat): (v: Vec)
    requires Square(m, n) && col < n
    ensures |v| == n
    ensures forall j :: 0 <= j < n ==> v[j] == if j < col then m[j][col] else if j == col then One else Zero
  {
    seq(n, j requires 0 <= j < n => if j < col then m[j][col] else if j == col then One else Zero)
  }

  lemma {:induction false} KernelDot(m: Mat, n: nat, col: nat, i: nat, k: nat)
    requires Square(m, n) && col < n && Reduced(m, n, col) && i < n && k <= n
    ensures DotTo(m[i], KernelVector(m, n, col), k)
         == if k <= col then (if i < k then m[i][col] else Zero)
            else Add(if i < col then m[i][col] else Zero, m[i][col])
  {
    hide Mul, Add;
    var v := KernelVector(m, n, col);
    if k > 0 {
      KernelDot(m, n, col, i, k - 1);
      MulOneLeft(v[k - 1]);
      MulZero(v[k - 1]);
      MulZero(m[i][k - 1]);
      MulOneLeft(m[i][k - 1]);
      MulComm(One, m[i][k - 1]);
      AddZero(DotTo(m[i], v, k - 1));
      AddZero(v[k - 1]);
    }
  }

  lemma KernelZero(m: Mat, n: nat, col: nat, i: nat)
    requires Square(m, n) && col < n && Reduced(m, n, col) && i < n
    requires forall row :: col <= row < n ==> m[row][col] == Zero
    ensures Dot(m[i], KernelVector(m, n, col)) == Zero
  {
    hide Mul, Add, DotTo;
    KernelDot(m, n, col, i, n);
    AddZero(m[i][col]);
    AddZero(Zero);
  }

  lemma KernelWitness(m: Mat, inv: Mat, a: Mat, n: nat, col: nat)
    requires Square(a, n) && Square(m, n) && Square(inv, n) && col < n
    requires Reduced(m, n, col) && Agrees(m, inv, a, n) && Injective(inv, n)
    requires forall row :: col <= row < n ==> m[row][col] == Zero
    ensures Singular(a, n)
  {
    hide Mul, Add, Dot, Reduced;
    var v := KernelVector(m, n, col);
    forall i | 0 <= i < n ensures Apply(inv, Apply(a, v))[i] == Zero {
      assert RowAgrees(m[i], inv[i], a, n);
      KernelZero(m, n, col, i);
    }
    assert Apply(inv, Apply(a, v)) == ZeroVec(n);
    assert v[col] == One;
    assert Nonzero(v);
  }

  lemma ApplyZero(m: Mat, n: nat)
    requires Square(m, n)
    ensures Apply(m, ZeroVec(n)) == ZeroVec(n)
  {
    forall i | 0 <= i < n ensures Dot(m[i], ZeroVec(n)) == Zero {
      DotZero(m[i], n, n);
    }
  }

  lemma {:induction false} DotZero(a: Vec, n: nat, k: nat)
    requires k <= |a| == n
    ensures DotTo(a, ZeroVec(n), k) == Zero
  {
    hide Mul, Add;
    if k > 0 {
      DotZero(a, n, k - 1);
      MulZero(a[k - 1]);
      AddZero(Zero);
    }
  }

  /** A matrix with a left inverse sends no non-zero vector to zero. */
  lemma InvertibleNotSingular(inv: Mat, a: Mat, n: nat)
    requires Square(a, n) && Square(inv, n) && Undoes(inv, a, n)
    ensures !Singular(a, n)
  {
    hide Dot, Apply;
    ApplyZero(inv, n);
    forall v: Vec | |v| == n && Apply(a, v) == ZeroVec(n) ensures !Nonzero(v) {
      assert v == Apply(inv, Apply(a, v));
    }
  }

  // ---- Gauss-Jordan elimination -------------------------------------------

  /** The inner loop that multiplies one row by the inverse of the pivot. */
  method ScaleRow(row: Vec, c: Byte) returns (r: Vec)
    ensures r == Scale(c, row)
  {
    hide Gmul, Mul;
    r := row;
    for j := 0 to |row|
      invariant |r| == |row|
      invariant forall i :: 0 <= i < j ==> r[i] == Mul(row[i], c)
      invariant forall i :: j <= i < |row| ==> r[i] == row[i]
    {
      GmulIsMul(r[j], c);
      r := r[j := Gmul(r[j], c)];
    }
  }

  /** The inner loop that adds a multiple of the pivot row to another row. */
  method EliminateRow(row: Vec, factor: Byte, pivotRow: Vec) returns (r: Vec)
    requires |row| == |pivotRow|
    ensures r == AddScaled(row, factor, pivotRow)
  {
    hide Gmul, Mul, Add;
    r := row;
    for j := 0 to |row|
      invariant |r| == |row|
      invariant forall i :: 0 <= i < j ==> r[i] == Add(row[i], Mul(factor, pivotRow[i]))
      invariant forall i :: j <= i < |row| ==> r[i] == row[i]
    {
      GmulIsMul(factor, pivotRow[j]);
      r := r[j := Add(r[j], Gmul(factor, pivotRow[j]))];
    }
  }

  /** The search for a row at or below `col` with a non-zero entry in that column. */
  method FindPivot(m: Mat, n: nat, col: nat) returns (pivot: int)
    requires Square(m, n) && col < n
    ensures pivot == -1 <==> forall row :: col <= row < n ==> m[row][col] == Zero
    ensures pivot != -1 ==> col <= pivot < n && m[pivot][col] != Zero
  {
    pivot := -1;
    for row := col to n
      invariant pivot == -1 && forall i :: col <= i < row ==> m[i][col] == Zero
    {
      if m[row][col] != Zero {
        pivot := row;
        break;
      }
    }
  }

  /** The whole state between two columns. */
  ghost predicate Progress(m: Mat, inv: Mat, a: Mat, n: nat, col: nat)
    requires Square(a, n)
  {
    Square(m, n) && Square(inv, n) && Reduced(m, n, col) && Agrees(m, inv, a, n) && Injective(inv, n)
  }

  /** During the elimination of a column: column col is done in the rows before `row` and in row col. */
  ghost predicate ColumnDone(m: Mat, n: nat, col: nat, row: nat)
    requires Square(m, n) && col < n
  {
    m[col][col] == One && forall i :: 0 <= i < row && i < n && i != col ==> m[i][col] == Zero
  }

  lemma SwapKeepsProgress(m: Mat, inv: Mat, a: Mat, n: nat, col: nat, pivot: nat)
    requires Square(a, n) && col <= pivot < n && Progress(m, inv, a, n, col)
    ensures Progress(SwapRows(m, pivot, col), SwapRows(inv, pivot, col), a, n, col)
  {
    hide Dot, RowAgrees, Apply, SwapRows, Injective;
    InjectiveSwap(inv, n, pivot, col);
  }

  lemma ScaleKeepsProgress(m: Mat, inv: Mat, a: Mat, n: nat, col: nat, c: Byte)
    requires Square(a, n) && col < n && Progress(m, inv, a, n, col) && c != Zero
    ensures Progress(m[col := Scale(c, m[col])], inv[col := Scale(c, inv[col])], a, n, col)
  {
    hide Dot, Mul, RowAgrees, Apply, Injective;
    InjectiveScale(inv, inv[col := Scale(c, inv[col])], n, col, c);
    RowAgreesScale(m[col], inv[col], a, n, c);
    MulZero(c);
  }

  lemma EliminateKeepsProgress(m: Mat, inv: Mat, a: Mat, n: nat, col: nat, row: nat, f: Byte)
    requires Square(a, n) && col < n && row < n && row != col && Progress(m, inv, a, n, col)
    ensures Progress(m[row := AddScaled(m[row], f, m[col])], inv[row := AddScaled(inv[row], f, inv[col])], a, n, col)
  {
    hide Dot, Mul, Add, RowAgrees, Apply, Injective;
    InjectiveAddScaled(inv, inv[row := AddScaled(inv[row], f, inv[col])], n, row, f, col);
    RowAgreesAddScaled(m[row], inv[row], f, m[col], inv[col], a, n);
    MulZero(f);
    forall j | 0 <= j < col ensures AddScaled(m[row], f, m[col])[j] == m[row][j] {
      assert m[col][j] == Zero;
      AddZero(m[row][j]);
    }
  }

  lemma EliminateClears(mrow: Vec, mcol: Vec, col: nat)
    requires col < |mrow| == |mcol| && mcol[col] == One
    ensures AddScaled(mrow, mrow[col], mcol)[col] == Zero
  {
    hide Mul, Add;
    MulComm(mrow[col], One);
    MulOneLeft(mrow[col]);
    AddZero(mrow[col]);
  }

  lemma ColumnFinished(m: Mat, inv: Mat, a: Mat, n: nat, col: nat)
    requires Square(a, n) && col < n && Progress(m, inv, a, n, col) && ColumnDone(m, n, col, n)
    ensures Progress(m, inv, a, n, col + 1)
  {
    hide Agrees, Injective;
  }

  /** The loop over the rows other than the pivot row. */
  method EliminateColumn(m0: Mat, inv0: Mat, ghost a: Mat, n: nat, col: nat) returns (m: Mat, inv: Mat)
    requires Square(a, n) && col < n && Progress(m0, inv0, a, n, col) && m0[col][col] == One
    ensures Progress(m, inv, a, n, col + 1)
  {
    hide Agrees, Injective, Reduced, Mul, Add;
    m, inv := m0, inv0;
    for row := 0 to n
      invariant Progress(m, inv, a, n, col) && ColumnDone(m, n, col, row)
    {
      if row != col && m[row][col] != Zero {
        var factor := m[row][col];
        EliminateKeepsProgress(m, inv, a, n, col, row, factor);
        EliminateClears(m[row], m[col], col);
        var mr := EliminateRow(m[row], factor, m[col]);
        var ir := EliminateRow(inv[row], factor, inv[col]);
        m := m[row := mr];
        inv := inv[row := ir];
      }
    }
    ColumnFinished(m, inv, a, n, col);
  }

  /** invertSquareMatrix: a two-sided inverse, or the error exactly for singular matrices. */
  method InvertSquareMatrix(matrix: Mat) returns (r: Result<Mat>)
    requires Square(matrix, |matrix|)
    ensures r.Error? <==> Singular(matrix, |matrix|)
    ensures r.Ok? ==> Square(r.value, |matrix|)
    ensures r.Ok? ==> Undoes(r.value, matrix, |matrix|) && Undoes(matrix, r.value, |matrix|)
  {
    hide Agrees, Injective, Reduced, Mul, Singular, Undoes;
    var n := |matrix|;
    var m, inv := matrix, Identity(n);
    StartProgress(matrix, n);
    for col := 0 to n
      invariant Progress(m, inv, matrix, n, col)
    {
      var pivot := FindPivot(m, n, col);
      if pivot == -1 {
        KernelWitness(m, inv, matrix, n, col);
        return Error;
      }
      if pivot != col {
        SwapKeepsProgress(m, inv, matrix, n, col, pivot);
        m := SwapRows(m, pivot, col);
        inv := SwapRows(inv, pivot, col);
      }
      var invPivot := Ginv(m[col][col]);
      GinvIsInverse(m[col][col]);
      ScaleKeepsProgress(m, inv, matrix, n, col, invPivot);
      var mc := ScaleRow(m[col], invPivot);
      var ic := ScaleRow(inv[col], invPivot);
      m := m[col := mc];
      inv := inv[col := ic];
      m, inv := EliminateColumn(m, inv, matrix, n, col);
    }
    FinishedInverse(m, inv, matrix, n);
    InvertibleNotSingular(inv, matrix, n);
    r := Ok(inv);
  }

  lemma StartProgress(a: Mat, n: nat)
    requires Square(a, n)
    ensures Progress(a, Identity(n), a, n, 0)
  {
    RowAgreesIdentity(a, n);
  }
}
