/** A square matrix over GF(256) is singular exactly when its transpose is. */
module GFTranspose {
  import opened GF256
  import opened GFMatrix

  function Transposed(a: Mat, n: nat): (r: Mat)
    requires Square(a, n)
    ensures Square(r, n) && forall i, j :: 0 <= i < n && 0 <= j < n ==> r[i][j] == a[j][i]
  {
    seq(n, i requires 0 <= i < n => seq(n, j requires 0 <= j < n => a[j][i]))
  }

  // ---- products from the left ---------------------------------------------

  /** The first r rows of a, each times its entry of w, added up. */
  function RowSum(a: Mat, w: Vec, n: nat, r: nat): (s: Vec)
    requires Square(a, n) && |w| == n && r <= n
    ensures |s| == n
  {
    if r == 0 then ZeroVec(n) else AddScaled(RowSum(a, w, n, r - 1), w[r - 1], a[r - 1])
  }

  lemma {:induction false} RowSumDot(a: Mat, w: Vec, v: Vec, n: nat, r: nat)
    requires Square(a, n) && |w| == |v| == n && r <= n
    ensures DotTo(RowSum(a, w, n, r), v, n) == DotTo(w, Apply(a, v), r)
  {
    hide Mul, Add;
    if r == 0 {
      DotZeroLeft(v, n, n);
    } else {
      RowSumDot(a, w, v, n, r - 1);
      DotToAddScaled(RowSum(a, w, n, r - 1), w[r - 1], a[r - 1], v, n);
    }
  }

  lemma {:induction false} DotZeroLeft(v: Vec, n: nat, k: nat)
    requires k <= |v| == n
    ensures DotTo(ZeroVec(n), v, k) == Zero
  {
    hide Mul, Add;
    if k > 0 {
      DotZeroLeft(v, n, k - 1);
      MulZero(v[k - 1]);
      AddZero(Zero);
    }
  }

  lemma {:induction false} RowSumAt(a: Mat, w: Vec, n: nat, r: nat, j: nat)
    requires Square(a, n) && |w| == n && r <= n && j < n
    ensures RowSum(a, w, n, r)[j] == DotTo(Transposed(a, n)[j], w, r)
  {
    hide Mul, Add;
    if r > 0 {
      RowSumAt(a, w, n, r - 1, j);
      MulComm(w[r - 1], a[r - 1][j]);
    }
  }

  /** What the transpose sends to zero is orthogonal to every value of the matrix. */
  lemma Orthogonal(a: Mat, w: Vec, v: Vec, n: nat)
    requires Square(a, n) && |w| == |v| == n && Apply(Transposed(a, n), w) == ZeroVec(n)
    ensures Dot(w, Apply(a, v)) == Zero
  {
    hide Mul, Add, DotTo;
    forall j | 0 <= j < n ensures RowSum(a, w, n, n)[j] == Zero {
      RowSumAt(a, w, n, n, j);
      assert Apply(Transposed(a, n), w)[j] == Zero;
    }
    assert RowSum(a, w, n, n) == ZeroVec(n);
    DotZeroLeft(v, n, n);
    RowSumDot(a, w, v, n, n);
  }

  // ---- injective means surjective -----------------------------------------

  ghost function AllBytes(): set<Byte> {
    {Zero} + set i: nat | i < 255 :: Exp(i)
  }

  lemma EveryByte(x: Byte)
    ensures x in AllBytes()
  {
    hide Exp;
    if x != Zero {
      ExpSurjective(x);
    }
  }

  /** All vectors of one length: a finite set. */
  ghost function AllVecs(n: nat): set<Vec> {
    if n == 0 then {[]} else set v, x | v in AllVecs(n - 1) && x in AllBytes() :: v + [x]
  }

  lemma {:induction false} EveryVec(n: nat, v: Vec)
    ensures v in AllVecs(n) <==> |v| == n
  {
    hide AllBytes;
    if n > 0 {
      if |v| == n {
        EveryVec(n - 1, v[..n - 1]);
        EveryByte(v[n - 1]);
        assert v == v[..n - 1] + [v[n - 1]];
      } else if v in AllVecs(n) {
        var u, x :| u in AllVecs(n - 1) && x in AllBytes() && v == u + [x];
        EveryVec(n - 1, u);
      }
    }
  }

  ghost predicate OneToOne(a: Mat, n: nat, s: set<Vec>)
    requires Square(a, n) && forall v :: v in s ==> |v| == n
  {
    forall v, w :: v in s && w in s && Apply(a, v) == Apply(a, w) ==> v == w
  }

  ghost function Image(a: Mat, n: nat, s: set<Vec>): set<Vec>
    requires Square(a, n) && forall v :: v in s ==> |v| == n
  {
    set v | v in s :: Apply(a, v)
  }

  lemma {:induction false} ImageSize(a: Mat, n: nat, s: set<Vec>)
    requires Square(a, n) && (forall v :: v in s ==> |v| == n) && OneToOne(a, n, s)
    ensures |Image(a, n, s)| == |s|
    decreases |s|
  {
    hide Apply;
    if s == {} {
      assert Image(a, n, s) == {};
    } else {
      var v :| v in s;
      ImageSize(a, n, s - {v});
      assert Image(a, n, s) == Image(a, n, s - {v}) + {Apply(a, v)};
      assert Apply(a, v) !in Image(a, n, s - {v});
    }
  }

  lemma SubsetSame(a: set<Vec>, b: set<Vec>)
    requires a <= b && |a| == |b|
    ensures a == b
  {
    assert b == a + (b - a);
  }

  lemma KernelOnlyZero(a: Mat, n: nat, v: Vec)
    requires Square(a, n) && !Singular(a, n) && |v| == n && Apply(a, v) == ZeroVec(n)
    ensures v == ZeroVec(n)
  {
    hide Apply;
    assert !Nonzero(v);
  }

  lemma NotSingularOneToOne(a: Mat, n: nat, v: Vec, w: Vec)
    requires Square(a, n) && !Singular(a, n) && |v| == |w| == n && Apply(a, v) == Apply(a, w)
    ensures v == w
  {
    hide Mul, Add, Apply, Singular;
    ApplyPlus(a, v, w);
    PlusSelfIsZero(Apply(a, w));
    ApplyLength(a, n, w);
    KernelOnlyZero(a, n, Plus(v, w));
    PlusZeroMeansEqual(v, w);
  }

  lemma ApplyLength(a: Mat, n: nat, w: Vec)
    requires Square(a, n) && |w| == n
    ensures |Apply(a, w)| == n
  {
  }

  lemma AllOneToOne(a: Mat, n: nat, s: set<Vec>)
    requires Square(a, n) && !Singular(a, n) && forall v :: v in s ==> |v| == n
    ensures OneToOne(a, n, s)
  {
    hide Apply, Singular;
    forall v, w | v in s && w in s && Apply(a, v) == Apply(a, w) ensures v == w {
      NotSingularOneToOne(a, n, v, w);
    }
  }

  lemma ImageLengths(a: Mat, n: nat, s: set<Vec>, u: Vec)
    requires Square(a, n) && (forall v :: v in s ==> |v| == n) && u in Image(a, n, s)
    ensures |u| == n
  {
    hide Apply;
    var x :| x in s && u == Apply(a, x);
    ApplyLength(a, n, x);
  }

  lemma ImageIsAll(a: Mat, n: nat, s: set<Vec>)
    requires Square(a, n) && !Singular(a, n) && forall v: Vec :: v in s <==> |v| == n
    ensures Image(a, n, s) == s
  {
    hide Apply, Singular, Image, OneToOne;
    AllOneToOne(a, n, s);
    ImageSize(a, n, s);
    forall u | u in Image(a, n, s) ensures u in s {
      ImageLengths(a, n, s, u);
    }
    SubsetSame(Image(a, n, s), s);
  }

  /** A matrix that is not singular reaches every vector. */
  lemma Reaches(a: Mat, n: nat, b: Vec) returns (v: Vec)
    requires Square(a, n) && !Singular(a, n) && |b| == n
    ensures |v| == n && Apply(a, v) == b
  {
    hide Apply, Singular, AllVecs;
    var s := AllVecs(n);
    forall v: Vec ensures v in s <==> |v| == n { EveryVec(n, v); }
    ImageIsAll(a, n, s);
    assert b in Image(a, n, s);
    v :| v in s && Apply(a, v) == b;
  }

  lemma TransposeRegular(a: Mat, n: nat)
    requires Square(a, n) && !Singular(a, n)
    ensures !Singular(Transposed(a, n), n)
  {
    hide Mul, Add, Apply, DotTo;
    if w: Vec :| |w| == n && Nonzero(w) && Apply(Transposed(a, n), w) == ZeroVec(n) {
      var i :| 0 <= i < n && w[i] != Zero;
      var v := Reaches(a, n, Unit(n, i));
      Orthogonal(a, w, v, n);
      DotUnitRight(n, i, w);
      assert false;
    }
  }

  lemma DotUnitRight(n: nat, i: nat, w: Vec)
    requires i < n == |w|
    ensures Dot(w, Unit(n, i)) == w[i]
  {
    hide Mul, Add;
    DotComm(w, Unit(n, i), n);
    DotUnit(n, i, w);
  }

  lemma {:induction false} DotComm(a: Vec, b: Vec, k: nat)
    requires k <= |a| && k <= |b|
    ensures DotTo(a, b, k) == DotTo(b, a, k)
  {
    hide Mul, Add;
    if k > 0 {
      DotComm(a, b, k - 1);
      MulComm(a[k - 1], b[k - 1]);
    }
  }
}
