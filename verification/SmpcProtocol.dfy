/** secure_aggregate of backend/smpc/smpc_service.py; encryption of shares is the identity here. */
module SmpcProtocol {
  import opened NumberTheory
  import opened Sums
  import opened Lagrange
  import opened ShamirEngine
  import opened SecretSharingService
  import opened Wrappers

  type Party = string

  datatype Value = Flag(b: bool) | Integer(i: int) | Float(r: real) | Json(bytes: seq<int>)
  datatype Operation = SumOp | AverageOp | MaxOp | OtherOp
  datatype Answer = Whole(value: int) | Ratio(quotient: real)

  // ---- encoding -----------------------------------------------------------

  /** Python's round: to nearest, ties to even. */
  function RoundReal(x: real): (w: int)
    ensures -0.5 <= w as real - x <= 0.5
    ensures w as real - x == 0.5 || w as real - x == -0.5 ==> w % 2 == 0
  {
    var f := x.Floor;
    var d := x - f as real;
    if d < 0.5 then f else if d > 0.5 then f + 1 else if f % 2 == 0 then f else f + 1
  }

  function BigEndian(bytes: seq<int>): int {
    if bytes == [] then 0 else BigEndian(bytes[..|bytes| - 1]) * 256 + bytes[|bytes| - 1]
  }

  function EncodeValue(v: Value, p: int): (e: int)
    requires p >= 2
    ensures 0 <= e < p
  {
    match v
    case Flag(b) => if b then 1 else 0
    case Integer(i) => i % p
    case Float(r) => RoundReal(r) % p
    case Json(bytes) => BigEndian(bytes) % p
  }

  /** A float is encoded as a whole number w that is nearest to it, an even one when it lies in the middle. */
  lemma EncodedFloat(r: real, p: int) returns (w: int)
    requires p >= 2
    ensures EncodeValue(Float(r), p) == w % p
    ensures -1.0 <= 2.0 * (w as real - r) <= 1.0
    ensures 2.0 * (w as real - r) == 1.0 || 2.0 * (w as real - r) == -1.0 ==> w % 2 == 0
  {
    w := RoundReal(r);
  }

  function ByteTerm(bytes: seq<int>): Fn { i => if 0 <= i < |bytes| then bytes[i] * Pow(256, |bytes| - 1 - i) else 0 }

  /** Other data is encoded as its JSON text read as one number, the first byte being the most significant. */
  lemma {:induction false} BigEndianIsSum(bytes: seq<int>)
    ensures BigEndian(bytes) == Sum(ByteTerm(bytes), 0, |bytes|)
  {
    if bytes != [] {
      var n := |bytes| - 1;
      BigEndianIsSum(bytes[..n]);
      forall i | 0 <= i < n ensures ByteTerm(bytes)(i) == 256 * ByteTerm(bytes[..n])(i) {
        ShiftedTerm(bytes[i], n - 1 - i);
      }
      SumScale(256, ByteTerm(bytes[..n]), ByteTerm(bytes), 0, n);
      assert Pow(256, 0) == 1;
    }
  }

  lemma ShiftedTerm(b: int, e: nat)
    ensures b * Pow(256, e + 1) == 256 * (b * Pow(256, e))
  {
    assert Pow(256, e + 1) == 256 * Pow(256, e);
  }

  lemma EncodedJson(bytes: seq<int>, p: int)
    requires p >= 2
    ensures EncodeValue(Json(bytes), p) == Sum(ByteTerm(bytes), 0, |bytes|) % p
  {
    BigEndianIsSum(bytes);
  }

  function EncodeAll(data: seq<Value>, p: int): (es: seq<int>)
    requires p >= 2
    ensures |es| == |data| && forall i :: 0 <= i < |data| ==> es[i] == EncodeValue(data[i], p)
  {
    seq(|data|, i requires 0 <= i < |data| => EncodeValue(data[i], p))
  }

  function Total(es: seq<int>): int {
    if es == [] then 0 else Total(es[..|es| - 1]) + es[|es| - 1]
  }

  function Largest(es: seq<int>): (m: int)
    requires es != []
    ensures m in es && forall e :: e in es ==> e <= m
  {
    var last := es[|es| - 1];
    if |es| == 1 then last
    else
      assert es == es[..|es| - 1] + [last];
      var m := Largest(es[..|es| - 1]);
      if m >= last then m else last
  }

  // ---- adding sharings ----------------------------------------------------

  type Sharing = seq<(Party, Share)>

  /** A sharing of c among the parties: party j holds the point j + 1. */
  ghost predicate IsSharing(s: Sharing, parties: seq<Party>, c: seq<int>, p: int)
    requires p > 0
  {
    |s| == |parties| && forall j :: 0 <= j < |s| ==>
      s[j].0 == parties[j] && s[j].1.0 == j + 1 && Cong(s[j].1.1, Eval(c, j + 1), p)
  }

  function AddPoly(a: seq<int>, b: seq<int>): (r: seq<int>)
    requires |a| == |b|
    ensures |r| == |a|
  {
    if a == [] then [] else [a[0] + b[0]] + AddPoly(a[1..], b[1..])
  }

  lemma {:induction false} EvalAdd(a: seq<int>, b: seq<int>, x: int)
    requires |a| == |b|
    ensures Eval(AddPoly(a, b), x) == Eval(a, x) + Eval(b, x)
  {
    if a != [] {
      EvalAdd(a[1..], b[1..], x);
      var r := AddPoly(a, b);
      assert r[1..] == AddPoly(a[1..], b[1..]);
      assert x * (Eval(a[1..], x) + Eval(b[1..], x)) == x * Eval(a[1..], x) + x * Eval(b[1..], x);
    }
  }

  ghost predicate SameDegree(cs: seq<seq<int>>, k: nat) {
    forall i :: 0 <= i < |cs| ==> |cs[i]| == k
  }

  /** The sum of at least one polynomial of k coefficients each. */
  function SumPoly(cs: seq<seq<int>>, k: nat): (r: seq<int>)
    requires |cs| >= 1 && SameDegree(cs, k)
    ensures |r| == k
  {
    if |cs| == 1 then cs[0] else AddPoly(SumPoly(cs[..|cs| - 1], k), cs[|cs| - 1])
  }

  function Heads(cs: seq<seq<int>>, k: nat): (r: seq<int>)
    requires k >= 1 && SameDegree(cs, k)
    ensures |r| == |cs| && forall i :: 0 <= i < |cs| ==> r[i] == cs[i][0]
  {
    seq(|cs|, i requires 0 <= i < |cs| => cs[i][0])
  }

  lemma {:induction false} SumPolyHead(cs: seq<seq<int>>, k: nat)
    requires |cs| >= 1 && k >= 1 && SameDegree(cs, k)
    ensures SumPoly(cs, k)[0] == Total(Heads(cs, k))
  {
    var hs := Heads(cs, k);
    if |cs| > 1 {
      SumPolyHead(cs[..|cs| - 1], k);
      assert hs[..|hs| - 1] == Heads(cs[..|cs| - 1], k);
    } else {
      assert hs[..0] == [];
    }
  }

  /** What one party has accumulated: the share of the sum of the first polynomials. */
  ghost predicate Accumulated(share: Share, x: int, c: seq<int>, p: int)
    requires p > 0
  {
    share.0 == x && Cong(share.1, Eval(c, x), p)
  }

  lemma AccumulateShare(a: Share, b: Share, x: int, c: seq<int>, d: seq<int>, p: int)
    requires p > 0 && |c| == |d|
    requires Accumulated(a, x, c, p) && Cong(b.1, Eval(d, x), p)
    ensures Accumulated((a.0, (a.1 + b.1) % p), x, AddPoly(c, d), p)
  {
    EvalAdd(c, d, x);
    CongAdd(a.1, Eval(c, x), b.1, Eval(d, x), p);
    CongMod(a.1 + b.1, p);
    CongTrans((a.1 + b.1) % p, a.1 + b.1, Eval(c, x) + Eval(d, x), p);
  }

  ghost predicate AllDifferent(parties: seq<Party>) {
    forall i, j :: 0 <= i < j < |parties| ==> parties[i] != parties[j]
  }

  /** The dictionary holds exactly the parties of `order`, in that order, each with its share of c. */
  ghost predicate Holding(order: seq<Party>, aggregated: map<Party, Share>, c: seq<int>, p: int)
    requires p > 0
  {
    && AllDifferent(order)
    && (forall q :: q in aggregated <==> q in order)
    && forall j :: 0 <= j < |order| ==> Accumulated(aggregated[order[j]], j + 1, c, p)
  }

  /** The inner loop of _aggregate_sum: the sharing of d joins a dictionary that is either still
      empty or holds a sharing of c. */
  method AddSharing(order0: seq<Party>, before: map<Party, Share>, shares: Sharing, parties: seq<Party>,
                    ghost c: seq<int>, ghost d: seq<int>, p: int)
    returns (order: seq<Party>, aggregated: map<Party, Share>)
    requires p >= 2 && AllDifferent(parties) && IsSharing(shares, parties, d, p)
    requires (order0 == [] && before == map[])
          || (order0 == parties && Holding(parties, before, c, p) && |c| == |d|)
    ensures order == parties
    ensures Holding(parties, aggregated, if order0 == [] && before == map[] then d else AddPoly(c, d), p)
  {
    hide Cong, Eval, AddPoly;
    ghost var isNew := order0 == [] && before == map[];
    ghost var e := if isNew then d else AddPoly(c, d);
    order, aggregated := order0, before;
    for j := 0 to |shares|
      invariant order == if isNew then parties[..j] else parties
      invariant forall q :: q in aggregated <==> q in order
      invariant forall i :: 0 <= i < j ==> Accumulated(aggregated[parties[i]], i + 1, e, p)
      invariant forall i :: j <= i < |order| ==> aggregated[parties[i]] == before[parties[i]]
    {
      var (party, (x, y)) := shares[j];
      NotYet(parties, j);
      if party !in aggregated {
        aggregated := aggregated[party := (x, y)];
        order := order + [party];
      } else {
        AccumulateShare(aggregated[party], shares[j].1, j + 1, c, d, p);
        aggregated := aggregated[party := (aggregated[party].0, (aggregated[party].1 + y) % p)];
      }
    }
  }

  /** _aggregate_sum: a dictionary from party to its running share. */
  method AggregateSum(lists: seq<Sharing>, parties: seq<Party>, ghost cs: seq<seq<int>>, ghost k: nat, p: int)
    returns (r: seq<Share>)
    requires p >= 2 && parties != [] && AllDifferent(parties) && |cs| == |lists| && SameDegree(cs, k)
    requires forall l :: 0 <= l < |lists| ==> IsSharing(lists[l], parties, cs[l], p)
    ensures lists == [] ==> r == []
    ensures lists != [] ==> |r| == |parties|
    ensures lists != [] ==> forall j :: 0 <= j < |r| ==> Accumulated(r[j], j + 1, SumPoly(cs, k), p)
  {
    hide Cong, Eval, AddPoly, Accumulated;
    var order: seq<Party>, aggregated: map<Party, Share> := [], map[];
    for l := 0 to |lists|
      invariant l == 0 ==> order == [] && aggregated == map[]
      invariant l > 0 ==> order == parties && Holding(parties, aggregated, SumPoly(cs[..l], k), p)
    {
      assert cs[..l + 1][..l] == cs[..l];
      order, aggregated := AddSharing(order, aggregated, lists[l], parties,
                                      if l == 0 then [] else SumPoly(cs[..l], k), cs[l], p);
    }
    assert cs[..|lists|] == cs;
    r := seq(|order|, j requires 0 <= j < |order| => aggregated[order[j]]);
  }

  lemma NotYet(parties: seq<Party>, j: nat)
    requires AllDifferent(parties) && j < |parties|
    ensures parties[j] !in parties[..j]
  {
  }

  // ---- secure_aggregate ---------------------------------------------------

  function Shares(s: Sharing): (r: seq<Share>)
    ensures |r| == |s| && forall j :: 0 <= j < |s| ==> r[j] == s[j].1
  {
    seq(|s|, j requires 0 <= j < |s| => s[j].1)
  }

  /** Shares 1, ..., n of a polynomial are distinct when n < p, and n >= 3 of them determine it. */
  lemma SharesOfPolynomial(shares: seq<Share>, c: seq<int>, p: int)
    requires Prime(p) && |shares| < p
    requires forall j :: 0 <= j < |shares| ==> Accumulated(shares[j], j + 1, c, p)
    ensures OnPolynomial(shares, c, p) && DistinctShares(shares, p) && DistinctMod(Xs(shares), p)
  {
    hide Cong, Eval;
    DistinctSharesMod(shares, p);
  }

  lemma SharingIsPolynomial(s: Sharing, parties: seq<Party>, c: seq<int>, p: int)
    requires Prime(p) && |parties| < p && IsSharing(s, parties, c, p)
    ensures OnPolynomial(Shares(s), c, p) && DistinctShares(Shares(s), p) && DistinctMod(Xs(Shares(s)), p)
  {
    hide Cong, Eval;
    SharesOfPolynomial(Shares(s), c, p);
  }

  /** The polynomials behind the sharings of all values. */
  function Polynomials(es: seq<int>, draws: seq<seq<int>>): (cs: seq<seq<int>>)
    requires |es| == |draws|
    ensures |cs| == |es| && forall i :: 0 <= i < |es| ==> cs[i] == [es[i]] + draws[i]
  {
    seq(|es|, i requires 0 <= i < |es| => [es[i]] + draws[i])
  }

  ghost predicate Sharings(lists: seq<Sharing>, parties: seq<Party>, cs: seq<seq<int>>, p: int)
    requires p > 0
  {
    |lists| == |cs| && forall l :: 0 <= l < |lists| ==> IsSharing(lists[l], parties, cs[l], p)
  }

  /** What each operation is for: the sum and the mean of the encoded values, reduced modulo p
      before the division, and the largest encoded value. */
  ghost predicate Aggregates(op: Operation, es: seq<int>, p: int, a: Answer)
    requires p >= 2 && es != []
  {
    match op
    case SumOp => a == Whole(Total(es) % p)
    case AverageOp => a == Ratio((Total(es) % p) as real / |es| as real)
    case MaxOp => a == Whole(Largest(es))
    case OtherOp => false
  }

  // ---- when the answer is the true one ------------------------------------

  /** Flags, integers and floats; other data is encoded as text and has no sum. */
  predicate Numeric(v: Value) { !v.Json? }

  predicate AllNumeric(data: seq<Value>) { forall i :: 0 <= i < |data| ==> Numeric(data[i]) }

  /** What the caller means by a value. */
  function Meaning(v: Value): real
    requires Numeric(v)
  {
    match v
    case Flag(b) => if b then 1.0 else 0.0
    case Integer(i) => i as real
    case Float(r) => r
  }

  /** What the encoding makes of it before reducing. */
  function Rounded(v: Value): (w: int)
    requires Numeric(v)
    ensures -0.5 <= w as real - Meaning(v) <= 0.5
  {
    match v
    case Flag(b) => if b then 1 else 0
    case Integer(i) => i
    case Float(r) => RoundReal(r)
  }

  function TrueSum(data: seq<Value>): real
    requires AllNumeric(data)
  {
    if data == [] then 0.0 else TrueSum(data[..|data| - 1]) + Meaning(data[|data| - 1])
  }

  function RoundedSum(data: seq<Value>): int
    requires AllNumeric(data)
  {
    if data == [] then 0 else RoundedSum(data[..|data| - 1]) + Rounded(data[|data| - 1])
  }

  /** No float with a fractional part. */
  predicate Integral(data: seq<Value>) {
    AllNumeric(data) && forall i :: 0 <= i < |data| ==> Rounded(data[i]) as real == Meaning(data[i])
  }

  lemma ReducedOnce(w: int, p: int)
    requires p >= 2
    ensures Cong(w % p, w, p) && (0 <= w < p ==> w % p == w)
  {
    CongMod(w, p);
    if 0 <= w < p {
      RemainderUnique(w, 0, w, p);
    }
  }

  lemma EncodedIsRounded(v: Value, p: int)
    requires p >= 2 && Numeric(v)
    ensures EncodeValue(v, p) == Rounded(v) % p
  {
    ReducedOnce(0, p);
    ReducedOnce(1, p);
  }

  lemma {:induction false} TotalIsRoundedSum(data: seq<Value>, p: int)
    requires p >= 2 && AllNumeric(data)
    ensures Cong(Total(EncodeAll(data, p)), RoundedSum(data), p)
  {
    if data == [] {
      CongRefl(0, p);
    } else {
      hide EncodeValue, Cong;
      var front, v := data[..|data| - 1], data[|data| - 1];
      var es := EncodeAll(data, p);
      TotalIsRoundedSum(front, p);
      assert es[..|es| - 1] == EncodeAll(front, p);
      EncodedIsRounded(v, p);
      ReducedOnce(Rounded(v), p);
      CongAdd(Total(EncodeAll(front, p)), RoundedSum(front), EncodeValue(v, p), Rounded(v), p);
    }
  }

  lemma TotalReduced(data: seq<Value>, p: int)
    requires p >= 2 && AllNumeric(data)
    ensures Total(EncodeAll(data, p)) % p == RoundedSum(data) % p
    ensures Total(EncodeAll(data, p)) % p == RoundedSum(data) <==> 0 <= RoundedSum(data) < p
  {
    hide EncodeAll, Cong;
    TotalIsRoundedSum(data, p);
    CongIffMod(Total(EncodeAll(data, p)), RoundedSum(data), p);
    ReducedOnce(RoundedSum(data), p);
  }

  /** Rounding moves a sum by at most half a unit for each value, and not at all without fractions. */
  lemma {:induction false} RoundingError(data: seq<Value>)
    requires AllNumeric(data)
    ensures -(|data| as real) <= 2.0 * (RoundedSum(data) as real - TrueSum(data)) <= |data| as real
    ensures Integral(data) ==> RoundedSum(data) as real == TrueSum(data)
  {
    if data != [] {
      RoundingError(data[..|data| - 1]);
    }
  }

  /** A reduced total of rounded values is the true sum if and only if the true sum is a whole number and that
      number is what the rounded values add up to modulo p. Data without fractions only has to stay in [0, p). */
  lemma ReducedIsTrueIff(data: seq<Value>, p: int)
    requires p >= 2 && AllNumeric(data)
    ensures
      var answer := Total(EncodeAll(data, p)) % p;
      && (answer as real == TrueSum(data) <==>
            TrueSum(data) == TrueSum(data).Floor as real && TrueSum(data).Floor == RoundedSum(data) % p)
      && (Integral(data) ==> (answer as real == TrueSum(data) <==> 0.0 <= TrueSum(data) < p as real))
  {
    hide EncodeAll, TrueSum, RoundedSum;
    RoundingError(data);
    TotalReduced(data, p);
  }

  /** When the sum is the true one, fractions included. */
  lemma SumIsTrueIff(data: seq<Value>, p: int, a: Answer)
    requires p >= 2 && data != [] && AllNumeric(data) && Aggregates(SumOp, EncodeAll(data, p), p, a)
    ensures a.value as real == TrueSum(data) <==>
      TrueSum(data) == TrueSum(data).Floor as real && TrueSum(data).Floor == RoundedSum(data) % p
    ensures Integral(data) ==> (a.value as real == TrueSum(data) <==> 0.0 <= TrueSum(data) < p as real)
  {
    hide EncodeAll, TrueSum, RoundedSum;
    ReducedIsTrueIff(data, p);
  }

  lemma SameQuotient(a: real, b: real, n: real)
    requires n > 0.0
    ensures a / n == b / n <==> a == b
  {
    assert (a / n) * n == a && (b / n) * n == b;
  }

  /** And when the mean is. */
  lemma MeanIsTrueIff(data: seq<Value>, p: int, a: Answer)
    requires p >= 2 && data != [] && AllNumeric(data) && Aggregates(AverageOp, EncodeAll(data, p), p, a)
    ensures a.quotient == TrueSum(data) / |data| as real <==>
      TrueSum(data) == TrueSum(data).Floor as real && TrueSum(data).Floor == RoundedSum(data) % p
    ensures Integral(data) ==> (a.quotient == TrueSum(data) / |data| as real <==> 0.0 <= TrueSum(data) < p as real)
  {
    hide EncodeAll, TrueSum, RoundedSum;
    ReducedIsTrueIff(data, p);
    SameQuotient((Total(EncodeAll(data, p)) % p) as real, TrueSum(data), |data| as real);
  }

  /** Floats are rounded one by one: the sum is off by up to half a unit each, while it stays in range. */
  lemma SumIsNear(data: seq<Value>, p: int, a: Answer)
    requires p >= 2 && data != [] && AllNumeric(data) && Aggregates(SumOp, EncodeAll(data, p), p, a)
    requires 0 <= RoundedSum(data) < p
    ensures -(|data| as real) <= 2.0 * (a.value as real - TrueSum(data)) <= |data| as real
  {
    hide EncodeAll;
    RoundingError(data);
    TotalReduced(data, p);
  }

  /** One value comes back if and only if it is a whole number in [0, p). */
  lemma OneValueIff(v: Value, p: int, a: Answer)
    requires p >= 2 && Numeric(v) && Aggregates(SumOp, EncodeAll([v], p), p, a)
    ensures a.value as real == Meaning(v) <==> Meaning(v) == Meaning(v).Floor as real && 0.0 <= Meaning(v) < p as real
  {
    hide EncodeAll;
    TotalReduced([v], p);
    assert [v][..0] == [];
    assert RoundedSum([v]) == Rounded(v);
    if Meaning(v) == Meaning(v).Floor as real {
      assert Rounded(v) as real == Meaning(v);
    }
  }

  /** A float in the middle between two whole numbers comes back as the even one modulo p. */
  lemma HalfIsEven(w: int, p: int, a: Answer)
    requires p >= 2 && Aggregates(SumOp, EncodeAll([Float(w as real + 0.5)], p), p, a)
    ensures a.value == (if w % 2 == 0 then w else w + 1) % p
  {
    hide EncodeValue, RoundReal;
    var even := if w % 2 == 0 then w else w + 1;
    var r := EncodedFloat(w as real + 0.5, p);
    assert r == w || r == w + 1;
    OneTotal(Float(w as real + 0.5), p);
  }

  /** One value adds up to its encoding. */
  lemma OneTotal(v: Value, p: int)
    requires p >= 2
    ensures Total(EncodeAll([v], p)) % p == EncodeValue(v, p)
  {
    hide EncodeValue;
    var e := EncodeValue(v, p);
    assert EncodeAll([v], p) == [e] && [e][..0] == [];
    RemainderUnique(e, 0, e, p);
  }

  /** Data of another kind comes back as the number of its text modulo p. */
  lemma JsonComesBack(bytes: seq<int>, p: int, a: Answer)
    requires p >= 2 && Aggregates(SumOp, EncodeAll([Json(bytes)], p), p, a)
    ensures a.value == Sum(ByteTerm(bytes), 0, |bytes|) % p
  {
    hide EncodeValue;
    OneTotal(Json(bytes), p);
    EncodedJson(bytes, p);
  }

  /** The largest of the values themselves. */
  predicate IsMaximum(m: int, data: seq<Value>)
    requires AllNumeric(data)
  {
    (exists i :: 0 <= i < |data| && Rounded(data[i]) == m) && forall i :: 0 <= i < |data| ==> Rounded(data[i]) <= m
  }

  /** The maximum is the largest residue: the true maximum m if and only if m lies in [0, p) and no
      negative value wraps to above it. */
  lemma MaxIsTrueIff(data: seq<Value>, m: int, p: int, a: Answer)
    requires p >= 2 && data != [] && AllNumeric(data) && IsMaximum(m, data)
    requires Aggregates(MaxOp, EncodeAll(data, p), p, a)
    ensures a.value == m <==>
      0 <= m < p && forall i :: 0 <= i < |data| && Rounded(data[i]) < 0 ==> Rounded(data[i]) % p <= m
  {
    var es := EncodeAll(data, p);
    forall i | 0 <= i < |data| ensures es[i] == Rounded(data[i]) % p && (0 <= Rounded(data[i]) < p ==> es[i] == Rounded(data[i])) {
      EncodedIsRounded(data[i], p);
      ReducedOnce(Rounded(data[i]), p);
    }
    var k :| 0 <= k < |data| && Rounded(data[k]) == m;
    assert es[k] in es;
    if a.value == m {
      forall i | 0 <= i < |data| && Rounded(data[i]) < 0 ensures Rounded(data[i]) % p <= m {
        assert es[i] in es;
      }
    }
  }

  /** Minus one adds up to p - 1, 0.4 to 0, and -1 is taken to be greater than 5. */
  lemma WrongAnswers(p: int, a: Answer, b: Answer, c: Answer)
    requires p > 6
    requires Aggregates(SumOp, EncodeAll([Integer(-1)], p), p, a)
    requires Aggregates(SumOp, EncodeAll([Float(0.4)], p), p, b)
    requires Aggregates(MaxOp, EncodeAll([Integer(-1), Integer(5)], p), p, c)
    ensures a == Whole(p - 1) && b == Whole(0) && c == Whole(p - 1)
  {
    RemainderUnique(-1, -1, p - 1, p);
    ReducedOnce(0, p);
    ReducedOnce(5, p);
    ReducedOnce(p - 1, p);
    assert EncodeAll([Integer(-1)], p) == [p - 1] && EncodeAll([Float(0.4)], p) == [0];
    assert [p - 1][..0] == [] && [0][..0] == [];
    assert EncodeAll([Integer(-1), Integer(5)], p) == [p - 1, 5];
  }

  class SMPCProtocol {
    const sharing: SecretSharing
    var parties: seq<Party>
    const threshold: int := 3

    ghost predicate Valid()
      reads this
    {
      sharing.Valid() && AllDifferent(parties)
    }

    constructor (p: int)
      requires Prime(p)
      ensures Valid() && parties == [] && sharing.prime == p && fresh(sharing)
    {
      sharing := new SecretSharing(p);
      parties := [];
    }

    method RegisterParty(party: Party) returns (added: bool)
      requires Valid()
      modifies this`parties
      ensures Valid() && added == (party !in old(parties))
      ensures parties == if added then old(parties) + [party] else old(parties)
    {
      added := party !in parties;
      if added {
        parties := parties + [party];
      }
    }

    /** _share_secret; it raises when fewer parties are registered than the threshold. */
    method ShareSecret(secret: int, draws: seq<int>) returns (r: Result<Sharing>)
      requires Valid() && |draws| == threshold - 1
      modifies sharing`threshold
      ensures r.Error? <==> |parties| < threshold
      ensures r.Ok? ==> sharing.threshold == Some(threshold)
      ensures r.Error? ==> sharing.threshold == old(sharing.threshold)
      ensures r.Ok? ==> IsSharing(r.value, parties, [secret] + draws, sharing.prime)
    {
      var shares := sharing.GenerateShares(secret, |parties|, threshold, draws);
      if shares.Error? {
        return Error;
      }
      var dict: Sharing := [];
      for i := 0 to |parties|
        invariant |dict| == i && forall j :: 0 <= j < i ==> dict[j] == (parties[j], shares.value[j])
      {
        dict := dict + [(parties[i], shares.value[i])];
      }
      r := Ok(dict);
    }

    /** The list comprehension that shares every encoded value. */
    method ShareAll(data: seq<Value>, draws: seq<seq<int>>) returns (r: Result<seq<Sharing>>)
      requires Valid() && |draws| == |data| && forall i :: 0 <= i < |draws| ==> |draws[i]| == threshold - 1
      modifies sharing`threshold
      ensures r.Error? <==> data != [] && |parties| < threshold
      ensures r.Ok? && data != [] ==> sharing.threshold == Some(threshold)
      ensures r.Ok? ==> Sharings(r.value, parties, Polynomials(EncodeAll(data, sharing.prime), draws), sharing.prime)
    {
      hide IsSharing;
      ghost var cs := Polynomials(EncodeAll(data, sharing.prime), draws);
      var lists: seq<Sharing> := [];
      for i := 0 to |data|
        invariant |lists| == i && (i > 0 ==> |parties| >= threshold && sharing.threshold == Some(threshold))
        invariant forall l :: 0 <= l < i ==> IsSharing(lists[l], parties, cs[l], sharing.prime)
      {
        var s := ShareSecret(EncodeValue(data[i], sharing.prime), draws[i]);
        if s.Error? {
          return Error;
        }
        lists := lists + [s.value];
      }
      r := Ok(lists);
    }

    /** Reconstructing each sharing on its own, for the maximum. */
    method ReconstructAll(lists: seq<Sharing>, ghost es: seq<int>, ghost draws: seq<seq<int>>)
      returns (values: seq<int>)
      requires Valid() && |parties| >= threshold && |parties| < sharing.prime
      requires sharing.threshold == Some(threshold)
      requires |es| == |draws| && forall i :: 0 <= i < |draws| ==> |draws[i]| == threshold - 1
      requires forall i :: 0 <= i < |es| ==> 0 <= es[i] < sharing.prime
      requires Sharings(lists, parties, Polynomials(es, draws), sharing.prime)
      ensures values == es
    {
      hide IsSharing, Cong, Eval, OnPolynomial;
      values := [];
      for l := 0 to |lists|
        invariant values == es[..l]
      {
        ghost var c := [es[l]] + draws[l];
        SharingIsPolynomial(lists[l], parties, c, sharing.prime);
        assert |lists[l]| == |parties| by { SharingLength(lists[l], parties, c, sharing.prime); }
        var r := sharing.ReconstructSecret(Shares(lists[l]));
        ServiceRecovers(Shares(lists[l]), c, r.value, sharing.prime);
        RemainderUnique(es[l], 0, es[l], sharing.prime);
        values := values + [r.value];
      }
    }

    /** Adding the sharings and reconstructing once, for the sum and the average. */
    method ReconstructTotal(lists: seq<Sharing>, ghost es: seq<int>, ghost draws: seq<seq<int>>)
      returns (total: Result<int>)
      requires Valid() && (lists != [] ==> |parties| >= threshold) && 1 <= |parties| < sharing.prime
      requires lists != [] ==> sharing.threshold == Some(threshold)
      requires |es| == |draws| && forall i :: 0 <= i < |draws| ==> |draws[i]| == threshold - 1
      requires Sharings(lists, parties, Polynomials(es, draws), sharing.prime)
      ensures total == if lists == [] then Error else Ok(Total(es) % sharing.prime)
    {
      hide IsSharing, Cong, Eval, OnPolynomial, SumPoly;
      ghost var cs := Polynomials(es, draws);
      assert SameDegree(cs, threshold);
      var shares := AggregateSum(lists, parties, cs, threshold, sharing.prime);
      total := sharing.ReconstructSecret(shares);
      if lists != [] {
        SharesOfPolynomial(shares, SumPoly(cs, threshold), sharing.prime);
        ServiceRecovers(shares, SumPoly(cs, threshold), total.value, sharing.prime);
        SumPolyHead(cs, threshold);
        assert Heads(cs, threshold) == es;
      }
    }

    /** secure_aggregate: raises without parties, without data, with too few parties, and on an
        unknown operation; otherwise the aggregate of the encoded values. */
    method SecureAggregate(data: seq<Value>, op: Operation, draws: seq<seq<int>>) returns (r: Result<Answer>)
      requires Valid() && |parties| < sharing.prime
      requires |draws| == |data| && forall i :: 0 <= i < |draws| ==> |draws[i]| == threshold - 1
      modifies sharing`threshold
      ensures r.Ok? <==> data != [] && |parties| >= 3 && op != OtherOp
      ensures r.Ok? ==> Aggregates(op, EncodeAll(data, sharing.prime), sharing.prime, r.value)
    {
      if parties == [] {
        return Error;
      }
      var lists := ShareAll(data, draws);
      if lists.Error? {
        return Error;
      }
      ghost var es := EncodeAll(data, sharing.prime);
      match op
      case SumOp =>
        var total := ReconstructTotal(lists.value, es, draws);
        if total.Error? { return Error; }
        r := Ok(Whole(total.value));
      case AverageOp =>
        var total := ReconstructTotal(lists.value, es, draws);
        if total.Error? { return Error; }
        r := Ok(Ratio(total.value as real / |data| as real));
      case MaxOp =>
        if lists.value == [] { return Error; }
        var values := ReconstructAll(lists.value, es, draws);
        r := Ok(Whole(Largest(values)));
      case OtherOp =>
        r := Error;
    }
  }

  lemma SharingLength(s: Sharing, parties: seq<Party>, c: seq<int>, p: int)
    requires p > 0 && IsSharing(s, parties, c, p)
    ensures |s| == |parties|
  {
  }
}
