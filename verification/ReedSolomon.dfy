/** ReedSolomonStorageManager of backend/storage/reed_solomon.js. */
module ReedSolomon {
  import opened GF256
  import opened GFMatrix
  import opened Minors
  import opened RecoveryLimits

  type Shard = seq<Byte>
  datatype Encoded = Encoded(shardSize: nat, shards: seq<Shard>, originalSize: nat)

  // ---- the generator matrix -----------------------------------------------

  /** Parity row j: alpha^(j * i) in column i. */
  function ParityRow(k: nat, j: nat): (r: Vec)
    ensures |r| == k && forall i :: 0 <= i < k ==> r[i] == Exp(j * i)
  {
    seq(k, i requires 0 <= i < k => Exp(j * i))
  }

  function GeneratorRow(k: nat, t: nat): (r: Vec)
    ensures |r| == k
  {
    if t < k then Unit(k, t) else ParityRow(k, t - k)
  }

  /** k rows of the identity followed by m parity rows. */
  function Generator(k: nat, m: nat): (g: Mat)
    ensures |g| == k + m && forall t :: 0 <= t < k + m ==> g[t] == GeneratorRow(k, t)
  {
    seq(k + m, t requires 0 <= t < k + m => GeneratorRow(k, t))
  }

  /** The rows of the generator that belong to the chosen shards. */
  function Rows(k: nat, sel: seq<nat>): (r: Mat)
    ensures |r| == |sel| && forall t :: 0 <= t < |sel| ==> r[t] == GeneratorRow(k, sel[t])
  {
    seq(|sel|, t requires 0 <= t < |sel| => GeneratorRow(k, sel[t]))
  }

  /** k different shard positions out of k + m, in increasing order. */
  ghost predicate Choice(sel: seq<nat>, k: nat, m: nat) {
    |sel| == k && Increasing(sel) && forall t :: 0 <= t < k ==> sel[t] < k + m
  }

  // ---- choosing shards is choosing a piece --------------------------------

  /** The positions below k that are not in the list. */
  function Missing(sel: seq<nat>, k: nat): seq<nat> {
    if k == 0 then [] else Missing(sel, k - 1) + (if k - 1 in sel then [] else [k - 1])
  }

  lemma {:induction false} MissingFacts(sel: seq<nat>, k: nat)
    ensures Increasing(Missing(sel, k)) && forall x: nat :: x in Missing(sel, k) <==> x < k && x !in sel
  {
    if k > 0 {
      MissingFacts(sel, k - 1);
      var front := Missing(sel, k - 1);
      forall s | 0 <= s < |front| ensures front[s] < k - 1 {
        assert front[s] in front;
      }
    }
  }

  lemma {:induction false} MissingSame(sel: seq<nat>, sel': seq<nat>, k: nat)
    requires forall x: nat :: x < k ==> (x in sel <==> x in sel')
    ensures Missing(sel, k) == Missing(sel', k)
  {
    if k > 0 {
      MissingSame(sel, sel', k - 1);
    }
  }

  lemma {:induction false} MissingCount(sel: seq<nat>, k: nat)
    requires Increasing(sel) && forall t :: 0 <= t < |sel| ==> sel[t] < k
    ensures |sel| <= k && |Missing(sel, k)| == k - |sel|
  {
    if k > 0 {
      if k - 1 in sel {
        var last := |sel| - 1;
        LastIsLargest(sel, k);
        MissingSame(sel, sel[..last], k - 1);
        MissingCount(sel[..last], k - 1);
      } else {
        forall t | 0 <= t < |sel| ensures sel[t] < k - 1 {
          assert sel[t] in sel;
        }
        MissingCount(sel, k - 1);
      }
    }
  }

  lemma BelowLast(sel: seq<nat>, k: nat, t: nat)
    requires Increasing(sel) && (forall l :: 0 <= l < |sel| ==> sel[l] < k) && t < |sel|
    ensures t < |sel| - 1 ==> sel[t] < k - 1
  {
    if t < |sel| - 1 {
      assert sel[t] < sel[|sel| - 1];
    }
  }

  lemma LastIsLargest(sel: seq<nat>, k: nat)
    requires Increasing(sel) && (forall t :: 0 <= t < |sel| ==> sel[t] < k) && k > 0 && k - 1 in sel
    ensures |sel| > 0 && sel[|sel| - 1] == k - 1
    ensures forall t :: 0 <= t < |sel| - 1 ==> sel[t] < k - 1
    ensures forall x: nat :: x < k - 1 ==> (x in sel <==> x in sel[..|sel| - 1])
  {
    var t :| 0 <= t < |sel| && sel[t] == k - 1;
    BelowLast(sel, k, t);
    assert sel == sel[..|sel| - 1] + [sel[|sel| - 1]];
  }

  /** The entries of v at the given positions. */
  function Pick(v: Vec, cols: seq<nat>): (r: Vec)
    requires forall j :: 0 <= j < |cols| ==> cols[j] < |v|
    ensures |r| == |cols| && forall j :: 0 <= j < |cols| ==> r[j] == v[cols[j]]
  {
    seq(|cols|, j requires 0 <= j < |cols| => v[cols[j]])
  }

  /** A product with a vector that is zero elsewhere only needs these positions. */
  lemma {:induction false} SupportDot(row: Vec, v: Vec, cols: seq<nat>, n: nat)
    requires |row| == |v| && n <= |v| && Increasing(cols) && forall j :: 0 <= j < |cols| ==> cols[j] < n
    requires forall x: nat :: x < n && x !in cols ==> v[x] == Zero
    ensures DotTo(row, v, n) == DotTo(Pick(row, cols), Pick(v, cols), |cols|)
  {
    hide Mul, Add, DotTo;
    if n == 0 {
      NoProducts(row, v, Pick(row, cols), Pick(v, cols));
    } else if n - 1 in cols {
      LastIsLargest(cols, n);
      SupportDot(row, v, cols[..|cols| - 1], n - 1);
      SupportStep(row, v, cols, n);
    } else {
      forall j | 0 <= j < |cols| ensures cols[j] < n - 1 {
        assert cols[j] in cols;
      }
      SupportDot(row, v, cols, n - 1);
      ZeroProduct(row, v, n);
    }
  }

  lemma NoProducts(a: Vec, b: Vec, c: Vec, d: Vec)
    ensures DotTo(a, b, 0) == DotTo(c, d, 0)
  {
  }

  lemma ZeroProduct(row: Vec, v: Vec, n: nat)
    requires 0 < n <= |row| && n <= |v| && v[n - 1] == Zero
    ensures DotTo(row, v, n) == DotTo(row, v, n - 1)
  {
    hide Mul, Add;
    MulZero(row[n - 1]);
    AddZero(DotTo(row, v, n - 1));
  }

  lemma SupportStep(row: Vec, v: Vec, cols: seq<nat>, n: nat)
    requires |row| == |v| && 0 < n <= |v| && |cols| > 0 && (forall j :: 0 <= j < |cols| ==> cols[j] < n)
    requires cols[|cols| - 1] == n - 1
    requires DotTo(row, v, n - 1) == DotTo(Pick(row, cols[..|cols| - 1]), Pick(v, cols[..|cols| - 1]), |cols| - 1)
    ensures DotTo(row, v, n) == DotTo(Pick(row, cols), Pick(v, cols), |cols|)
  {
    hide Mul, Add;
    var last := |cols| - 1;
    DotToPrefix(Pick(row, cols), Pick(v, cols), last, last);
    assert Pick(row, cols)[..last] == Pick(row, cols[..last]) && Pick(v, cols)[..last] == Pick(v, cols[..last]);
  }

  lemma ParityDot(k: nat, p: nat, v: Vec, cols: seq<nat>)
    requires |v| == k && Increasing(cols) && forall j :: 0 <= j < |cols| ==> cols[j] < k
    requires forall x :: 0 <= x < k && x !in cols ==> v[x] == Zero
    ensures Dot(ParityRow(k, p), v) == PowerSum(cols, Pick(v, cols), p)
  {
    hide Mul, Add, Exp, DotTo;
    SupportDot(ParityRow(k, p), v, cols, k);
    assert Pick(ParityRow(k, p), cols) == PowerRow(cols, p);
  }

  /** How many chosen shards are data shards. */
  lemma {:induction false} DataCount(sel: seq<nat>, k: nat) returns (d: nat)
    requires Increasing(sel)
    ensures d <= |sel| && (forall t :: 0 <= t < d ==> sel[t] < k) && (forall t :: d <= t < |sel| ==> sel[t] >= k)
  {
    if sel == [] {
      d := 0;
    } else {
      var last := |sel| - 1;
      if sel[last] < k {
        d := |sel|;
      } else {
        d := DataCount(sel[..last], k);
      }
    }
  }

  /** Entries at chosen data positions vanish. */
  lemma DataEquation(k: nat, sel: seq<nat>, v: Vec, t: nat)
    requires |sel| == |v| == k && t < k && sel[t] < k && Apply(Rows(k, sel), v) == ZeroVec(k)
    ensures v[sel[t]] == Zero
  {
    hide Mul, Add, Exp, DotTo;
    assert Apply(Rows(k, sel), v)[t] == Zero;
    DotUnit(k, sel[t], v);
  }

  /** The parity rows among the chosen shards, from position d on. */
  function ParityRows(sel: seq<nat>, k: nat, d: nat): (rows: seq<nat>)
    requires d <= |sel| && forall t :: d <= t < |sel| ==> sel[t] >= k
    ensures |rows| == |sel| - d && forall t :: 0 <= t < |rows| ==> rows[t] == sel[d + t] - k
  {
    seq(|sel| - d, t requires 0 <= t < |sel| - d => sel[d + t] - k)
  }

  /** If every piece is regular, so are the rows of every choice. */
  lemma ChoiceRegular(k: nat, m: nat, sel: seq<nat>)
    requires Choice(sel, k, m)
    requires forall rows, cols :: Piece(rows, cols, m, k) ==> Regular(rows, cols)
    ensures !Singular(Rows(k, sel), k)
  {
    hide Mul, Add, Exp, DotTo, Apply, Rows, Piece, Regular;
    forall v: Vec | |v| == k && Apply(Rows(k, sel), v) == ZeroVec(k) ensures !Nonzero(v) {
      KernelIsZero(k, m, sel, v);
    }
  }

  lemma KernelIsZero(k: nat, m: nat, sel: seq<nat>, v: Vec)
    requires Choice(sel, k, m) && |v| == k && Apply(Rows(k, sel), v) == ZeroVec(k)
    requires forall rows, cols :: Piece(rows, cols, m, k) ==> Regular(rows, cols)
    ensures AllZero(v)
  {
    hide Mul, Add, Exp, DotTo, Apply, Rows, Regular, Kills, Missing;
    var d := DataCount(sel, k);
    var cols, rows := Missing(sel[..d], k), ParityRows(sel, k, d);
    MissingFacts(sel[..d], k);
    PieceOfChoice(k, m, sel, d);
    OffMissing(k, sel, v, d);
    KernelKills(k, sel, v, d, rows, cols);
    SingularMeans(rows, cols);
    SupportZero(v, cols);
  }

  lemma PieceOfChoice(k: nat, m: nat, sel: seq<nat>, d: nat)
    requires Choice(sel, k, m) && d <= k && (forall t :: 0 <= t < d ==> sel[t] < k) && (forall t :: d <= t < k ==> sel[t] >= k)
    ensures Piece(ParityRows(sel, k, d), Missing(sel[..d], k), m, k)
  {
    var cols := Missing(sel[..d], k);
    MissingFacts(sel[..d], k);
    MissingCount(sel[..d], k);
    forall j | 0 <= j < |cols| ensures cols[j] < k {
      assert cols[j] in cols;
    }
  }

  lemma OffMissing(k: nat, sel: seq<nat>, v: Vec, d: nat)
    requires |sel| == |v| == k && d <= k && (forall t :: 0 <= t < d ==> sel[t] < k) && Apply(Rows(k, sel), v) == ZeroVec(k)
    ensures forall x: nat :: x < k && x !in Missing(sel[..d], k) ==> v[x] == Zero
  {
    hide Apply, Rows, Missing;
    MissingFacts(sel[..d], k);
    forall x: nat | x < k && x !in Missing(sel[..d], k) ensures v[x] == Zero {
      var t :| 0 <= t < d && sel[..d][t] == x;
      DataEquation(k, sel, v, t);
    }
  }

  lemma KernelKills(k: nat, sel: seq<nat>, v: Vec, d: nat, rows: seq<nat>, cols: seq<nat>)
    requires |sel| == |v| == k && d <= k && (forall t :: d <= t < k ==> sel[t] >= k) && rows == ParityRows(sel, k, d)
    requires |cols| == |rows| && Increasing(cols) && (forall j :: 0 <= j < |cols| ==> cols[j] < k)
    requires Apply(Rows(k, sel), v) == ZeroVec(k) && forall x: nat :: x < k && x !in cols ==> v[x] == Zero
    ensures Kills(rows, cols, Pick(v, cols))
  {
    hide Mul, Add, Exp, DotTo, Dot, Apply, Rows, PowerSum, ParityRow, Increasing;
    forall i | 0 <= i < |rows| ensures PowerSum(cols, Pick(v, cols), rows[i]) == Zero {
      ParityEquation(k, sel, v, d + i);
      ParityDot(k, rows[i], v, cols);
    }
  }

  lemma SupportZero(v: Vec, cols: seq<nat>)
    requires (forall j :: 0 <= j < |cols| ==> cols[j] < |v|) && AllZero(Pick(v, cols))
    requires forall x: nat :: x < |v| && x !in cols ==> v[x] == Zero
    ensures AllZero(v)
  {
    forall x | 0 <= x < |v| ensures v[x] == Zero {
      if x in cols {
        var j :| 0 <= j < |cols| && cols[j] == x;
        assert Pick(v, cols)[j] == Zero;
      }
    }
  }

  lemma ParityEquation(k: nat, sel: seq<nat>, v: Vec, t: nat)
    requires |sel| == |v| == k && t < k && sel[t] >= k && Apply(Rows(k, sel), v) == ZeroVec(k)
    ensures Dot(ParityRow(k, sel[t] - k), v) == Zero
  {
    hide Mul, Add, Exp, DotTo;
    assert Apply(Rows(k, sel), v)[t] == Zero;
  }

  // ---- from a piece to a choice -------------------------------------------

  /** The choice that leaves out the data shards of cols and takes the parity shards of rows. */
  function ChoiceOf(rows: seq<nat>, cols: seq<nat>, k: nat): seq<nat> {
    Missing(cols, k) + seq(|rows|, t requires 0 <= t < |rows| => k + rows[t])
  }

  lemma ChoiceOfPiece(rows: seq<nat>, cols: seq<nat>, m: nat, k: nat)
    requires Piece(rows, cols, m, k)
    ensures Choice(ChoiceOf(rows, cols, k), k, m)
  {
    MissingFacts(cols, k);
    MissingCount(cols, k);
    var data, sel := Missing(cols, k), ChoiceOf(rows, cols, k);
    forall t | 0 <= t < |data| ensures data[t] < k {
      assert data[t] in data;
    }
    forall s, t | 0 <= s < t < |sel| ensures sel[s] < sel[t] {
      if s >= |data| {
        assert rows[s - |data|] < rows[t - |data|];
      }
    }
  }

  /** The weights put at their columns. */
  function Scatter(cols: seq<nat>, u: Vec, k: nat): (v: Vec)
    requires |u| == |cols|
    ensures |v| == k
  {
    seq(k, x requires 0 <= x < k => At(cols, u, x))
  }

  function At(cols: seq<nat>, u: Vec, x: nat): Byte
    requires |u| == |cols|
  {
    if cols == [] then Zero else if cols[|cols| - 1] == x then u[|cols| - 1] else At(cols[..|cols| - 1], u[..|cols| - 1], x)
  }

  lemma {:induction false} AtFacts(cols: seq<nat>, u: Vec)
    requires |u| == |cols| && Increasing(cols)
    ensures forall x: nat :: x !in cols ==> At(cols, u, x) == Zero
    ensures forall j :: 0 <= j < |cols| ==> At(cols, u, cols[j]) == u[j]
  {
    if cols != [] {
      AtFacts(cols[..|cols| - 1], u[..|cols| - 1]);
      forall x: nat | x !in cols ensures At(cols, u, x) == Zero {
        assert cols[|cols| - 1] in cols && forall y :: y in cols[..|cols| - 1] ==> y in cols;
      }
    }
  }

  /** A dependent piece makes its choice of shards fail. */
  lemma PieceFails(rows: seq<nat>, cols: seq<nat>, m: nat, k: nat)
    requires Piece(rows, cols, m, k) && !Regular(rows, cols)
    ensures Choice(ChoiceOf(rows, cols, k), k, m) && Singular(Rows(k, ChoiceOf(rows, cols, k)), k)
  {
    hide Mul, Add, Exp, DotTo, Regular, PowerSum, Kills, At;
    var sel := ChoiceOf(rows, cols, k);
    ChoiceOfPiece(rows, cols, m, k);
    SingularMeans(rows, cols);
    var u: Vec :| |u| == |rows| && Kills(rows, cols, u) && !AllZero(u);
    var v := Scatter(cols, u, k);
    AtFacts(cols, u);
    assert Pick(v, cols) == u;
    forall t | 0 <= t < k ensures Dot(Rows(k, sel)[t], v) == Zero {
      ScatteredRow(rows, cols, m, k, u, t);
    }
    assert Apply(Rows(k, sel), v) == ZeroVec(k);
    var j :| 0 <= j < |u| && u[j] != Zero;
    assert v[cols[j]] != Zero;
  }

  lemma ScatteredRow(rows: seq<nat>, cols: seq<nat>, m: nat, k: nat, u: Vec, t: nat)
    requires Piece(rows, cols, m, k) && |u| == |rows| && Kills(rows, cols, u) && t < k
    ensures |ChoiceOf(rows, cols, k)| == k
    ensures Dot(GeneratorRow(k, ChoiceOf(rows, cols, k)[t]), Scatter(cols, u, k)) == Zero
  {
    hide Mul, Add, Exp, DotTo, PowerSum, At;
    var data, v := Missing(cols, k), Scatter(cols, u, k);
    MissingFacts(cols, k);
    MissingCount(cols, k);
    AtFacts(cols, u);
    assert Pick(v, cols) == u;
    if t < |data| {
      assert data[t] in data;
      DotUnit(k, data[t], v);
    } else {
      ParityDot(k, rows[t - |data|], v, cols);
      assert PowerSum(cols, u, rows[t - |data|]) == Zero;
    }
  }

  // ---- the claim ----------------------------------------------------------

  /** Any k of the k + m shards determine the file exactly for the safe sizes. */
  lemma AnyKOfN(k: nat, m: nat)
    requires 1 <= k <= 255 && 1 <= m <= 255
    ensures (forall sel :: Choice(sel, k, m) ==> !Singular(Rows(k, sel), k)) <==> Safe(k, m)
  {
    hide Singular, Piece, Regular;
    if Safe(k, m) {
      forall sel | Choice(sel, k, m) ensures !Singular(Rows(k, sel), k) {
        SafeChoice(k, m, sel);
      }
    } else {
      var rows, cols := UnsafePiece(k, m);
      PieceFails(rows, cols, m, k);
    }
  }

  lemma SafeChoice(k: nat, m: nat, sel: seq<nat>)
    requires 1 <= k <= 255 && 1 <= m <= 255 && Safe(k, m) && Choice(sel, k, m)
    ensures !Singular(Rows(k, sel), k)
  {
    hide Singular, Regular;
    forall rows, cols | Piece(rows, cols, m, k) ensures Regular(rows, cols) {
      SafePieces(k, m, rows, cols);
    }
    ChoiceRegular(k, m, sel);
  }
}
