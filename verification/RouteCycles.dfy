/** The selections that the route program admits are exactly the Hamiltonian cycles: degree
    constraints make the chosen edges a union of rings, and the flow leaves room for one ring. */
module RouteCycles {
  import opened Sums
  import opened RouteExtraction
  import opened RouteFormulation

  // ---- sums with few non-zero terms ---------------------------------------

  lemma {:induction false} SumOne(f: Fn, n: nat, p: nat)
    requires p < n && forall i :: 0 <= i < n && i != p ==> f(i) == 0
    ensures Sum(f, 0, n) == f(p)
  {
    if p == n - 1 {
      SumZero(f, 0, n - 1);
    } else {
      SumOne(f, n - 1, p);
    }
  }

  lemma {:induction false} SumTwo(f: Fn, n: nat, p: nat, q: nat)
    requires p < q < n && forall i :: 0 <= i < n && i != p && i != q ==> f(i) == 0
    ensures Sum(f, 0, n) == f(p) + f(q)
  {
    if q == n - 1 {
      SumOne(f, n - 1, p);
    } else {
      SumTwo(f, n - 1, p, q);
    }
  }

  lemma SumPair(f: Fn, n: nat, p: nat, q: nat)
    requires p < n && q < n && p != q && forall i :: 0 <= i < n && i != p && i != q ==> f(i) == 0
    ensures Sum(f, 0, n) == f(p) + f(q)
  {
    if p < q { SumTwo(f, n, p, q); } else { SumTwo(f, n, q, p); }
  }

  ghost predicate ZeroOne(f: Fn, n: nat) { forall i :: 0 <= i < n ==> f(i) == 0 || f(i) == 1 }

  lemma {:induction false} NoneOf(f: Fn, n: nat)
    requires ZeroOne(f, n)
    ensures Sum(f, 0, n) >= 0 && (Sum(f, 0, n) == 0 ==> forall i :: 0 <= i < n ==> f(i) == 0)
  {
    if n > 0 {
      NoneOf(f, n - 1);
    }
  }

  lemma {:induction false} OneOf(f: Fn, n: nat) returns (p: nat)
    requires ZeroOne(f, n) && Sum(f, 0, n) == 1
    ensures p < n && f(p) == 1 && forall i :: 0 <= i < n && i != p ==> f(i) == 0
  {
    if f(n - 1) == 1 {
      NoneOf(f, n - 1);
      p := n - 1;
    } else {
      p := OneOf(f, n - 1);
    }
  }

  lemma {:induction false} TwoOf(f: Fn, n: nat) returns (p: nat, q: nat)
    requires ZeroOne(f, n) && Sum(f, 0, n) == 2
    ensures p < q < n && f(p) == 1 && f(q) == 1 && forall i :: 0 <= i < n && i != p && i != q ==> f(i) == 0
  {
    if f(n - 1) == 1 {
      p := OneOf(f, n - 1);
      q := n - 1;
    } else {
      p, q := TwoOf(f, n - 1);
    }
  }

  // ---- distinct nodes -----------------------------------------------------

  lemma {:induction false} CountDistinct(s: seq<Node>)
    requires DistinctNodes(s)
    ensures |Elements(s)| == |s|
  {
    if s != [] {
      var front := s[..|s| - 1];
      CountDistinct(front);
      assert Elements(s) == Elements(front) + {s[|s| - 1]};
    }
  }

  lemma SmallerSet<T>(a: set<T>, b: set<T>)
    requires a <= b
    ensures |a| <= |b|
  {
    assert b == a + (b - a);
  }

  lemma Pigeonhole(s: seq<Node>, nodes: seq<Node>)
    requires DistinctNodes(s) && DistinctNodes(nodes) && forall x :: x in s ==> x in nodes
    ensures |s| <= |nodes| && (|s| == |nodes| ==> forall x :: x in nodes ==> x in s)
  {
    CountDistinct(s);
    CountDistinct(nodes);
    assert Elements(s) <= Elements(nodes);
    SmallerSet(Elements(s), Elements(nodes));
    if |s| == |nodes| {
      SameSize(Elements(s), Elements(nodes));
      forall x | x in nodes ensures x in s {
        assert x in Elements(nodes);
      }
    }
  }

  // ---- what the linear forms add up to ------------------------------------

  function HitFn(edges: seq<Edge>, a: Assignment, v: Node): Fn {
    i => if 0 <= i < |edges| && Touches(edges[i], v) then a(X(edges[i])) else 0
  }

  /** What edge e brings into v: inflow less outflow. */
  function Net(e: Edge, a: Assignment, v: Node): int {
    if e.0 == v then a(Flow(e.1, e.0)) - a(Flow(e.0, e.1))
    else if e.1 == v then a(Flow(e.0, e.1)) - a(Flow(e.1, e.0))
    else 0
  }

  function NetFn(edges: seq<Edge>, a: Assignment, v: Node): Fn {
    i => if 0 <= i < |edges| then Net(edges[i], a, v) else 0
  }

  lemma {:induction false} DegreeValue(edges: seq<Edge>, a: Assignment, v: Node, k: nat)
    requires k <= |edges|
    ensures Value(DegreeTerms(edges[..k], v), a) == Sum(HitFn(edges, a, v), 0, k)
  {
    if k > 0 {
      TakeStep(edges, k - 1);
      DegreeValue(edges, a, v, k - 1);
      var front := DegreeTerms(edges[..k - 1], v);
      assert (front + [(X(edges[k - 1]), 1)])[..|front|] == front;
    }
  }

  lemma {:induction false} ValueFirst(terms: seq<(Var, int)>, a: Assignment)
    requires terms != []
    ensures Value(terms, a) == terms[0].1 * a(terms[0].0) + Value(terms[1..], a)
  {
    if |terms| > 1 {
      ValueFirst(terms[..|terms| - 1], a);
      assert terms[..|terms| - 1][1..] == terms[1..][..|terms| - 2];
    }
  }

  lemma {:induction false} DictAddValue(terms: seq<(Var, int)>, v: Var, d: int, a: Assignment)
    ensures Value(DictAdd(terms, v, d), a) == Value(terms, a) + d * a(v)
  {
    var r := DictAdd(terms, v, d);
    ValueFirst(r, a);
    if terms != [] {
      ValueFirst(terms, a);
      if terms[0].0 == v {
        assert r[1..] == terms[1..];
        assert (terms[0].1 + d) * a(v) == terms[0].1 * a(v) + d * a(v);
      } else {
        DictAddValue(terms[1..], v, d, a);
        assert r[1..] == DictAdd(terms[1..], v, d);
      }
    }
  }

  lemma {:induction false} DictSetValue(terms: seq<(Var, int)>, v: Var, d: int, a: Assignment)
    requires forall t :: t in terms ==> t.0 != v
    ensures DictSet(terms, v, d) == terms + [(v, d)]
    ensures Value(DictSet(terms, v, d), a) == Value(terms, a) + d * a(v)
  {
    if terms != [] {
      DictSetValue(terms[1..], v, d, a);
      assert [terms[0]] + (terms[1..] + [(v, d)]) == terms + [(v, d)];
    }
    assert (terms + [(v, d)])[..|terms|] == terms;
  }

  lemma {:induction false} DictSetKeys(terms: seq<(Var, int)>, v: Var, d: int, t: (Var, int))
    requires t in DictSet(terms, v, d)
    ensures t.0 == v || t in terms
  {
    if terms != [] && terms[0].0 != v && t != terms[0] {
      DictSetKeys(terms[1..], v, d, t);
    }
  }

  lemma {:induction false} SetAllKeys(vars: seq<Var>, d: int, t: (Var, int))
    requires t in SetAll(vars, d)
    ensures t.0 in vars
  {
    if vars != [] {
      var front := vars[..|vars| - 1];
      DictSetKeys(SetAll(front, d), vars[|vars| - 1], d, t);
      if t in SetAll(front, d) {
        SetAllKeys(front, d, t);
      }
    }
  }

  function VarSum(vars: seq<Var>, a: Assignment): int {
    if vars == [] then 0 else VarSum(vars[..|vars| - 1], a) + a(vars[|vars| - 1])
  }

  lemma {:induction false} AddAllValue(terms: seq<(Var, int)>, vars: seq<Var>, d: int, a: Assignment)
    ensures Value(AddAll(terms, vars, d), a) == Value(terms, a) + d * VarSum(vars, a)
  {
    if vars != [] {
      AddAllValue(terms, vars[..|vars| - 1], d, a);
      DictAddValue(AddAll(terms, vars[..|vars| - 1], d), vars[|vars| - 1], d, a);
      assert d * (VarSum(vars[..|vars| - 1], a) + a(vars[|vars| - 1]))
          == d * VarSum(vars[..|vars| - 1], a) + d * a(vars[|vars| - 1]);
    }
  }

  ghost predicate DistinctVars(vars: seq<Var>) { forall i, j :: 0 <= i < j < |vars| ==> vars[i] != vars[j] }

  lemma {:induction false} SetAllValue(vars: seq<Var>, d: int, a: Assignment)
    requires DistinctVars(vars)
    ensures Value(SetAll(vars, d), a) == d * VarSum(vars, a)
  {
    if vars != [] {
      var front, v := vars[..|vars| - 1], vars[|vars| - 1];
      SetAllValue(front, d, a);
      forall t | t in SetAll(front, d) ensures t.0 != v {
        SetAllKeys(front, d, t);
      }
      DictSetValue(SetAll(front, d), v, d, a);
      assert d * (VarSum(front, a) + a(v)) == d * VarSum(front, a) + d * a(v);
    }
  }

  /** Every incoming variable names an edge of the list. */
  lemma {:induction false} IncomingNames(edges: seq<Edge>, v: Node, k: nat, w: Var) returns (j: nat)
    requires k <= |edges| && w in Incoming(edges[..k], v)
    ensures j < k && w.Flow? && Joins(edges[j], w.u, w.v)
  {
    TakeStep(edges, k - 1);
    if w in Incoming(edges[..k - 1], v) {
      j := IncomingNames(edges, v, k - 1, w);
    } else {
      j := k - 1;
    }
  }

  lemma DistinctAppend(vars: seq<Var>, w: Var)
    requires DistinctVars(vars) && w !in vars
    ensures DistinctVars(vars + [w])
  {
  }

  lemma {:induction false} IncomingDistinct(nodes: seq<Node>, edges: seq<Edge>, v: Node, k: nat)
    requires Simple(nodes, edges) && k <= |edges|
    ensures DistinctVars(Incoming(edges[..k], v))
  {
    if k > 0 {
      TakeStep(edges, k - 1);
      IncomingDistinct(nodes, edges, v, k - 1);
      var front, e := Incoming(edges[..k - 1], v), edges[k - 1];
      forall w | w in front ensures w != Flow(e.0, e.1) && w != Flow(e.1, e.0) {
        var j := IncomingNames(edges, v, k - 1, w);
        assert !Joins(edges[j], e.0, e.1);
      }
      DistinctAppend(front, Flow(e.0, e.1));
      DistinctAppend(front, Flow(e.1, e.0));
    }
  }

  lemma VarSumAppend(vars: seq<Var>, w: Var, a: Assignment)
    ensures VarSum(vars + [w], a) == VarSum(vars, a) + a(w)
  {
    assert (vars + [w])[..|vars|] == vars;
  }

  lemma {:induction false} NetIsDifference(edges: seq<Edge>, a: Assignment, v: Node, k: nat)
    requires k <= |edges|
    ensures VarSum(Incoming(edges[..k], v), a) - VarSum(Outgoing(edges[..k], v), a) == Sum(NetFn(edges, a, v), 0, k)
  {
    hide VarSum;
    if k > 0 {
      TakeStep(edges, k - 1);
      NetIsDifference(edges, a, v, k - 1);
      var inward, outward := Incoming(edges[..k - 1], v), Outgoing(edges[..k - 1], v);
      var e := edges[k - 1];
      if e.0 == v {
        VarSumAppend(inward, Flow(e.1, e.0), a);
        VarSumAppend(outward, Flow(e.0, e.1), a);
      } else if e.1 == v {
        VarSumAppend(inward, Flow(e.0, e.1), a);
        VarSumAppend(outward, Flow(e.1, e.0), a);
      }
    } else {
      EmptyVarSum(a);
    }
  }

  lemma EmptyVarSum(a: Assignment)
    ensures VarSum([], a) == 0
  {
  }

  lemma ConservationValue(nodes: seq<Node>, edges: seq<Edge>, a: Assignment, v: Node)
    requires Simple(nodes, edges)
    ensures Value(Conservation(edges, v), a) == Sum(NetFn(edges, a, v), 0, |edges|)
  {
    assert edges[..|edges|] == edges;
    IncomingDistinct(nodes, edges, v, |edges|);
    SetAllValue(Incoming(edges, v), 1, a);
    AddAllValue(SetAll(Incoming(edges, v), 1), Outgoing(edges, v), -1, a);
    NetIsDifference(edges, a, v, |edges|);
  }

  // ---- two chosen edges at every node -------------------------------------

  ghost predicate Within(edges: seq<Edge>, chosen: set<Edge>) { forall e :: e in chosen ==> e in edges }

  /** x and y are the two nodes adjacent to v. */
  ghost predicate TwoNeighbours(chosen: set<Edge>, v: Node, x: Node, y: Node) {
    x != y && Adj(chosen, v, x) && Adj(chosen, v, y) && forall w :: Adj(chosen, v, w) ==> w == x || w == y
  }

  ghost predicate HasTwo(chosen: set<Edge>, v: Node) { exists x, y :: TwoNeighbours(chosen, v, x, y) }

  lemma AdjSym(chosen: set<Edge>, u: Node, v: Node)
    requires Adj(chosen, u, v)
    ensures Adj(chosen, v, u)
  {
    var e :| e in chosen && Joins(e, u, v);
    assert Joins(e, v, u);
  }

  lemma AdjNodes(nodes: seq<Node>, edges: seq<Edge>, chosen: set<Edge>, u: Node, v: Node)
    requires Simple(nodes, edges) && Within(edges, chosen) && Adj(chosen, u, v)
    ensures u in nodes && v in nodes && u != v
  {
    var e :| e in chosen && Joins(e, u, v);
    var k :| 0 <= k < |edges| && edges[k] == e;
  }

  lemma NotParallel(nodes: seq<Node>, edges: seq<Edge>, p: nat, q: nat)
    requires Simple(nodes, edges) && p < |edges| && q < |edges| && p != q
    ensures !Joins(edges[p], edges[q].0, edges[q].1)
    ensures edges[p].0 != edges[p].1
  {
  }

  lemma SimpleNodes(nodes: seq<Node>, edges: seq<Edge>)
    requires Simple(nodes, edges)
    ensures DistinctNodes(nodes)
  {
  }

  function Other(e: Edge, v: Node): Node { if e.0 == v then e.1 else e.0 }

  lemma HitIsAdj(edges: seq<Edge>, chosen: set<Edge>, a: Assignment, v: Node, p: nat)
    requires Selects(a, edges, chosen) && p < |edges| && HitFn(edges, a, v)(p) == 1
    ensures Joins(edges[p], v, Other(edges[p], v)) && Adj(chosen, v, Other(edges[p], v))
  {
    assert edges[p] in edges && edges[p] in chosen;
    assert Joins(edges[p], v, Other(edges[p], v));
  }

  lemma AdjIsHit(edges: seq<Edge>, chosen: set<Edge>, a: Assignment, v: Node, w: Node) returns (k: nat)
    requires Within(edges, chosen) && Selects(a, edges, chosen) && Adj(chosen, v, w)
    ensures k < |edges| && HitFn(edges, a, v)(k) == 1 && Joins(edges[k], v, w)
  {
    var e :| e in chosen && Joins(e, v, w);
    k :| 0 <= k < |edges| && edges[k] == e;
  }

  /** A degree sum of two leaves exactly two neighbours. */
  lemma DegreeGivesTwo(nodes: seq<Node>, edges: seq<Edge>, chosen: set<Edge>, a: Assignment, v: Node)
    requires Simple(nodes, edges) && Within(edges, chosen) && Selects(a, edges, chosen)
    requires Sum(HitFn(edges, a, v), 0, |edges|) == 2
    ensures HasTwo(chosen, v)
  {
    var p, q := TwoOf(HitFn(edges, a, v), |edges|);
    hide Simple, Selects, Within, Adj;
    var x, y := Other(edges[p], v), Other(edges[q], v);
    HitIsAdj(edges, chosen, a, v, p);
    HitIsAdj(edges, chosen, a, v, q);
    NotParallel(nodes, edges, p, q);
    forall w | Adj(chosen, v, w) ensures w == x || w == y {
      var k := AdjIsHit(edges, chosen, a, v, w);
    }
    assert TwoNeighbours(chosen, v, x, y);
  }

  /** The position in the edge list of the edge between two adjacent nodes. */
  lemma EdgeAt(nodes: seq<Node>, edges: seq<Edge>, chosen: set<Edge>, u: Node, v: Node) returns (k: nat)
    requires Simple(nodes, edges) && Within(edges, chosen) && Adj(chosen, u, v)
    ensures k < |edges| && edges[k] in chosen && Joins(edges[k], u, v)
    ensures forall j :: 0 <= j < |edges| && j != k ==> !Joins(edges[j], u, v)
  {
    var e :| e in chosen && Joins(e, u, v);
    k :| 0 <= k < |edges| && edges[k] == e;
    forall j | 0 <= j < |edges| && j != k ensures !Joins(edges[j], u, v) {
      assert !Joins(edges[j], edges[k].0, edges[k].1);
    }
  }

  lemma NeighbourEdge(chosen: set<Edge>, v: Node, x: Node, y: Node, e: Edge)
    requires TwoNeighbours(chosen, v, x, y) && e in chosen && Touches(e, v)
    ensures Joins(e, v, x) || Joins(e, v, y)
  {
    var w := Other(e, v);
    assert Joins(e, v, w) && Adj(chosen, v, w);
  }

  /** A sum over the edges that vanishes off the chosen edges at v has one term per neighbour. */
  lemma NeighbourSum(nodes: seq<Node>, edges: seq<Edge>, chosen: set<Edge>, v: Node, x: Node, y: Node, f: Fn)
    returns (p: nat, q: nat)
    requires Simple(nodes, edges) && Within(edges, chosen) && TwoNeighbours(chosen, v, x, y)
    requires forall i :: 0 <= i < |edges| && !(edges[i] in chosen && Touches(edges[i], v)) ==> f(i) == 0
    ensures p < |edges| && q < |edges| && edges[p] in chosen && edges[q] in chosen
    ensures Joins(edges[p], v, x) && Joins(edges[q], v, y)
    ensures Sum(f, 0, |edges|) == f(p) + f(q)
  {
    p := EdgeAt(nodes, edges, chosen, v, x);
    q := EdgeAt(nodes, edges, chosen, v, y);
    forall i | 0 <= i < |edges| && i != p && i != q ensures f(i) == 0 {
      if edges[i] in chosen && Touches(edges[i], v) {
        NeighbourEdge(chosen, v, x, y, edges[i]);
      }
    }
    SumPair(f, |edges|, p, q);
  }

  // ---- rings --------------------------------------------------------------

  ghost predicate Path(nodes: seq<Node>, chosen: set<Edge>, s: seq<Node>) {
    && s != [] && DistinctNodes(s) && (forall x :: x in s ==> x in nodes)
    && forall i :: 0 <= i < |s| - 1 ==> Adj(chosen, s[i], s[i + 1])
  }

  ghost predicate TwoRegular(nodes: seq<Node>, chosen: set<Edge>) {
    forall v :: v in nodes ==> HasTwo(chosen, v)
  }

  lemma AmongTwo(chosen: set<Edge>, v: Node, x: Node, y: Node, z: Node)
    requires HasTwo(chosen, v) && Adj(chosen, v, x) && Adj(chosen, v, y) && Adj(chosen, v, z)
    ensures x == y || y == z || x == z
  {
    var c, d :| TwoNeighbours(chosen, v, c, d);
  }

  /** The neighbour of v other than u. */
  lemma Onward(chosen: set<Edge>, v: Node, u: Node) returns (w: Node)
    requires HasTwo(chosen, v)
    ensures w != u && Adj(chosen, v, w)
  {
    var c, d :| TwoNeighbours(chosen, v, c, d);
    w := if c == u then d else c;
  }

  /** Walking on along chosen edges comes back to the first node, and nowhere else. */
  lemma {:induction false} CloseRing(nodes: seq<Node>, edges: seq<Edge>, chosen: set<Edge>, path: seq<Node>)
    returns (s: seq<Node>)
    requires Simple(nodes, edges) && Within(edges, chosen) && TwoRegular(nodes, chosen)
    requires Path(nodes, chosen, path) && |path| >= 2
    ensures Ring(chosen, s) && s[0] == path[0] && forall x :: x in s ==> x in nodes
    decreases |nodes| - |path|
  {
    hide Simple, HasTwo, Adj;
    var last := |path| - 1;
    var u := path[last];
    var w := Onward(chosen, u, path[last - 1]);
    AdjNodes(nodes, edges, chosen, u, w);
    if w in path {
      var k :| 0 <= k < |path| && path[k] == w;
      if k > 0 {
        AdjSym(chosen, path[k - 1], path[k]);
        AdjSym(chosen, u, w);
        AmongTwo(chosen, w, path[k - 1], path[k + 1], u);
        assert false;
      }
      s := path;
    } else {
      var longer := path + [w];
      assert DistinctNodes(longer);
      forall i | 0 <= i < |longer| - 1 ensures Adj(chosen, longer[i], longer[i + 1]) {
        assert i < |path| - 1 ==> longer[i + 1] == path[i + 1];
      }
      SimpleNodes(nodes, edges);
      Pigeonhole(longer, nodes);
      s := CloseRing(nodes, edges, chosen, longer);
    }
  }

  lemma RingFrom(nodes: seq<Node>, edges: seq<Edge>, chosen: set<Edge>, v: Node) returns (s: seq<Node>)
    requires Simple(nodes, edges) && Within(edges, chosen) && TwoRegular(nodes, chosen) && v in nodes
    ensures Ring(chosen, s) && s[0] == v && forall x :: x in s ==> x in nodes
  {
    hide Simple, HasTwo, Adj;
    var w := Onward(chosen, v, v);
    AdjNodes(nodes, edges, chosen, v, w);
    s := CloseRing(nodes, edges, chosen, [v, w]);
  }

  /** No chosen edge leaves a ring: it is one of the ring's own. */
  lemma RingClosed(nodes: seq<Node>, chosen: set<Edge>, s: seq<Node>, u: Node, v: Node)
    requires Ring(chosen, s) && TwoRegular(nodes, chosen) && u in nodes && u in s && Adj(chosen, u, v)
    ensures v in s && Neighbours(s, u, v)
  {
    var i :| 0 <= i < |s| && s[i] == u;
    var before, after := if i == 0 then s[|s| - 1] else s[i - 1], if i == |s| - 1 then s[0] else s[i + 1];
    if i == 0 { AdjSym(chosen, s[|s| - 1], s[0]); } else { AdjSym(chosen, s[i - 1], s[i]); }
    AmongTwo(chosen, u, before, after, v);
  }

  lemma RingSize(nodes: seq<Node>, edges: seq<Edge>, chosen: set<Edge>, s: seq<Node>)
    requires Simple(nodes, edges) && Ring(chosen, s)
    requires (forall x :: x in s ==> x in nodes) && forall x :: x in nodes ==> x in s
    ensures |s| == |nodes|
  {
    hide Adj;
    assert DistinctNodes(nodes);
    Pigeonhole(s, nodes);
    Pigeonhole(nodes, s);
  }

  lemma WholeRingIsTour(nodes: seq<Node>, edges: seq<Edge>, chosen: set<Edge>, s: seq<Node>)
    requires Simple(nodes, edges) && Within(edges, chosen) && TwoRegular(nodes, chosen)
    requires Ring(chosen, s) && (forall x :: x in s ==> x in nodes) && forall x :: x in nodes ==> x in s
    ensures Tour(nodes, chosen, s)
  {
    hide Simple, TwoRegular, Ring, Neighbours;
    RingSize(nodes, edges, chosen, s);
    forall e | e in chosen ensures Neighbours(s, e.0, e.1) {
      assert Joins(e, e.0, e.1) && Adj(chosen, e.0, e.1);
      AdjNodes(nodes, edges, chosen, e.0, e.1);
      RingClosed(nodes, chosen, s, e.0, e.1);
    }
  }

  // ---- fewer than six nodes -----------------------------------------------

  lemma {:induction false} RingAvoids(nodes: seq<Node>, chosen: set<Edge>, s: seq<Node>, t: seq<Node>, i: nat)
    requires Ring(chosen, s) && Ring(chosen, t) && TwoRegular(nodes, chosen) && i < |t|
    requires (forall x :: x in s ==> x in nodes) && t[0] !in s
    ensures t[i] !in s
  {
    if i > 0 {
      RingAvoids(nodes, chosen, s, t, i - 1);
      if t[i] in s {
        AdjSym(chosen, t[i - 1], t[i]);
        RingClosed(nodes, chosen, s, t[i], t[i - 1]);
      }
    }
  }

  /** Two disjoint rings need six nodes. */
  lemma SmallIsWhole(nodes: seq<Node>, edges: seq<Edge>, chosen: set<Edge>, s: seq<Node>, v: Node)
    requires Simple(nodes, edges) && Within(edges, chosen) && TwoRegular(nodes, chosen) && |nodes| < 6
    requires Ring(chosen, s) && (forall x :: x in s ==> x in nodes) && v in nodes
    ensures v in s
  {
    hide TwoRegular, Adj;
    if v !in s {
      var t := RingFrom(nodes, edges, chosen, v);
      forall i | 0 <= i < |t| ensures t[i] !in s {
        RingAvoids(nodes, chosen, s, t, i);
      }
      assert DistinctNodes(s + t);
      Pigeonhole(s + t, nodes);
    }
  }

  // ---- six nodes and more: the flow ---------------------------------------

  /** The flow part of the program holds: bounds, capacities and conservation. */
  ghost predicate FlowHolds(nodes: seq<Node>, edges: seq<Edge>, a: Assignment)
    requires nodes != []
  {
    && (forall e :: e in edges ==> FlowBounded(nodes, e, a))
    && (forall v :: v in nodes ==> Sum(NetFn(edges, a, v), 0, |edges|) == if v == nodes[0] then -(|nodes| - 1) else 1)
  }

  ghost predicate FlowBounded(nodes: seq<Node>, e: Edge, a: Assignment) {
    && 0 <= a(Flow(e.0, e.1)) <= |nodes| - 1 && a(Flow(e.0, e.1)) <= (|nodes| - 1) * a(X(e))
    && 0 <= a(Flow(e.1, e.0)) <= |nodes| - 1 && a(Flow(e.1, e.0)) <= (|nodes| - 1) * a(X(e))
  }

  /** What edge j brings into node i, counted only for nodes off the ring. */
  function OffRing(nodes: seq<Node>, edges: seq<Edge>, a: Assignment, s: seq<Node>): Grid {
    (i, j) => if 0 <= i < |nodes| && 0 <= j < |edges| && nodes[i] !in s then Net(edges[j], a, nodes[i]) else 0
  }

  /** Over the nodes off the ring, every edge takes out what it brings in. */
  lemma EdgeCancels(nodes: seq<Node>, edges: seq<Edge>, chosen: set<Edge>, a: Assignment, s: seq<Node>, j: nat)
    requires Simple(nodes, edges) && Within(edges, chosen) && TwoRegular(nodes, chosen) && j < |edges|
    requires Selects(a, edges, chosen) && FlowBounded(nodes, edges[j], a)
    requires Ring(chosen, s) && forall x :: x in s ==> x in nodes
    ensures Sum(ColOf(OffRing(nodes, edges, a, s), j), 0, |nodes|) == 0
  {
    hide TwoRegular, Ring, Neighbours, Adj;
    var f, e := ColOf(OffRing(nodes, edges, a, s), j), edges[j];
    if e in chosen {
      var p :| 0 <= p < |nodes| && nodes[p] == e.0;
      var q :| 0 <= q < |nodes| && nodes[q] == e.1;
      SameSide(nodes, edges, chosen, s, e);
      SumPair(f, |nodes|, p, q);
    } else {
      assert a(X(e)) == 0;
      SumZero(f, 0, |nodes|);
    }
  }

  lemma SameSide(nodes: seq<Node>, edges: seq<Edge>, chosen: set<Edge>, s: seq<Node>, e: Edge)
    requires Simple(nodes, edges) && Within(edges, chosen) && TwoRegular(nodes, chosen) && e in chosen
    requires Ring(chosen, s) && forall x :: x in s ==> x in nodes
    ensures e.0 in s <==> e.1 in s
  {
    hide Simple, TwoRegular, Ring, Neighbours;
    assert Joins(e, e.0, e.1) && Joins(e, e.1, e.0);
    if e.0 in s { RingClosed(nodes, chosen, s, e.0, e.1); }
    if e.1 in s { RingClosed(nodes, chosen, s, e.1, e.0); }
  }

  lemma {:induction false} SumAtLeast(f: Fn, n: nat, p: nat)
    requires p < n && f(p) >= 1 && forall i :: 0 <= i < n ==> f(i) >= 0
    ensures Sum(f, 0, n) >= 1
  {
    if p == n - 1 {
      SumNonNegative(f, n - 1);
    } else {
      SumAtLeast(f, n - 1, p);
    }
  }

  lemma {:induction false} SumNonNegative(f: Fn, n: nat)
    requires forall i :: 0 <= i < n ==> f(i) >= 0
    ensures Sum(f, 0, n) >= 0
  {
    if n > 0 {
      SumNonNegative(f, n - 1);
    }
  }

  /** Each node off the root's ring would consume a unit of flow that cannot reach it. */
  lemma FlowReachesAll(nodes: seq<Node>, edges: seq<Edge>, chosen: set<Edge>, a: Assignment, s: seq<Node>, v: Node)
    requires nodes != [] && Simple(nodes, edges) && Within(edges, chosen) && TwoRegular(nodes, chosen)
    requires Selects(a, edges, chosen) && FlowHolds(nodes, edges, a)
    requires Ring(chosen, s) && nodes[0] in s && (forall x :: x in s ==> x in nodes) && v in nodes
    ensures v in s
  {
    hide Simple, TwoRegular, Ring, Selects, FlowBounded, Adj, Within;
    if v !in s {
      var w := OffRing(nodes, edges, a, s);
      forall j | 0 <= j < |edges| ensures ColSums(w, |nodes|)(j) == 0 {
        EdgeCancels(nodes, edges, chosen, a, s, j);
      }
      SumZero(ColSums(w, |nodes|), 0, |edges|);
      forall i | 0 <= i < |nodes| ensures RowSums(w, |edges|)(i) == if nodes[i] in s then 0 else 1 {
        if nodes[i] in s {
          SumZero(RowOf(w, i), 0, |edges|);
        } else {
          SumEq(RowOf(w, i), NetFn(edges, a, nodes[i]), 0, |edges|);
        }
      }
      SumSwap(w, |nodes|, |edges|);
      var p :| 0 <= p < |nodes| && nodes[p] == v;
      SumAtLeast(RowSums(w, |edges|), |nodes|, p);
    }
  }

  // ---- reading the constraints of the program -----------------------------

  /** What feasibility says, form by form. */
  ghost predicate Forms(nodes: seq<Node>, edges: seq<Edge>, a: Assignment)
    requires nodes != []
  {
    && (forall e :: e in edges ==> a(X(e)) == 0 || a(X(e)) == 1)
    && (forall v :: v in nodes ==> Sum(HitFn(edges, a, v), 0, |edges|) == 2)
  }

  lemma {:induction false} DegreeConstraintsIn(edges: seq<Edge>, nodes: seq<Node>, c: Constraint)
    ensures c in DegreeConstraints(edges, nodes) <==> exists v :: v in nodes && c == DegreeConstraint(edges, v)
  {
    if nodes != [] {
      var front, v := nodes[..|nodes| - 1], nodes[|nodes| - 1];
      DegreeConstraintsIn(edges, front, c);
      assert nodes == front + [v];
    }
  }

  lemma {:induction false} CapacityConstraintsIn(edges: seq<Edge>, capacity: int, c: Constraint)
    ensures c in CapacityConstraints(edges, capacity) <==>
      exists e :: e in edges && (c == ForwardCapacity(e, capacity) || c == ReverseCapacity(e, capacity))
  {
    if edges != [] {
      var front, e := edges[..|edges| - 1], edges[|edges| - 1];
      CapacityConstraintsIn(front, capacity, c);
      assert edges == front + [e];
    }
  }

  lemma {:induction false} ConservationConstraintsIn(nodes: seq<Node>, edges: seq<Edge>, upto: seq<Node>, c: Constraint)
    requires nodes != []
    ensures c in ConservationConstraints(nodes, edges, upto) <==>
      exists v :: v in upto && c == ConservationConstraint(nodes, edges, v)
  {
    if upto != [] {
      var front, v := upto[..|upto| - 1], upto[|upto| - 1];
      ConservationConstraintsIn(nodes, edges, front, c);
      assert upto == front + [v];
    }
  }

  lemma {:induction false} FlowVariablesIn(edges: seq<Edge>, upper: int, t: (Var, int, int))
    ensures t in FlowVariables(edges, upper) <==>
      exists e :: e in edges && (t == (Flow(e.0, e.1), 0, upper) || t == (Flow(e.1, e.0), 0, upper))
  {
    if edges != [] {
      var front, e := edges[..|edges| - 1], edges[|edges| - 1];
      FlowVariablesIn(front, upper, t);
      assert edges == front + [e];
    }
  }

  lemma DegreeSatisfied(edges: seq<Edge>, a: Assignment, v: Node)
    ensures Satisfied(DegreeConstraint(edges, v), a) <==> Sum(HitFn(edges, a, v), 0, |edges|) == 2
  {
    DegreeValue(edges, a, v, |edges|);
    assert edges[..|edges|] == edges;
  }

  lemma CapacitySatisfied(e: Edge, capacity: int, a: Assignment)
    ensures Satisfied(ForwardCapacity(e, capacity), a) <==> a(Flow(e.0, e.1)) <= capacity * a(X(e))
    ensures Satisfied(ReverseCapacity(e, capacity), a) <==> a(Flow(e.1, e.0)) <= capacity * a(X(e))
  {
    TwoTerms(Flow(e.0, e.1), X(e), capacity, a);
    TwoTerms(Flow(e.1, e.0), X(e), capacity, a);
  }

  lemma TwoTerms(f: Var, x: Var, capacity: int, a: Assignment)
    ensures Value([(f, 1), (x, -capacity)], a) == a(f) - capacity * a(x)
  {
    var t := [(f, 1), (x, -capacity)];
    assert t[..1] == [(f, 1)] && [(f, 1)][..0] == [];
    assert Value([(f, 1)], a) == a(f);
    assert (-capacity) * a(x) == -(capacity * a(x));
  }

  lemma ConservationSatisfied(nodes: seq<Node>, edges: seq<Edge>, a: Assignment, v: Node)
    requires Simple(nodes, edges) && nodes != []
    ensures Satisfied(ConservationConstraint(nodes, edges, v), a) <==>
      Sum(NetFn(edges, a, v), 0, |edges|) == if v == nodes[0] then -(|nodes| - 1) else 1
  {
    ConservationValue(nodes, edges, a, v);
  }

  /** Feasibility, read off the generated lists. */
  lemma FeasibleMeans(nodes: seq<Node>, edges: seq<Edge>, weight: Edge -> int, a: Assignment)
    requires nodes != [] && Simple(nodes, edges) && Feasible(RouteProgram(nodes, edges, weight), a)
    ensures Forms(nodes, edges, a) && (|nodes| >= 6 ==> FlowHolds(nodes, edges, a))
  {
    hide Simple, DegreeConstraint, ForwardCapacity, ReverseCapacity, ConservationConstraint, Satisfied,
      DegreeConstraints, CapacityConstraints, ConservationConstraints, FlowVariables;
    var p := RouteProgram(nodes, edges, weight);
    forall e | e in edges ensures a(X(e)) == 0 || a(X(e)) == 1 {
      var k :| 0 <= k < |edges| && edges[k] == e;
      assert p.binaries[k] == X(e);
    }
    forall v | v in nodes ensures Sum(HitFn(edges, a, v), 0, |edges|) == 2 {
      DegreeConstraintsIn(edges, nodes, DegreeConstraint(edges, v));
      assert DegreeConstraint(edges, v) in p.constraints;
      DegreeSatisfied(edges, a, v);
    }
    if |nodes| >= 6 {
      forall e | e in edges ensures FlowBounded(nodes, e, a) {
        FlowVariablesIn(edges, |nodes| - 1, (Flow(e.0, e.1), 0, |nodes| - 1));
        FlowVariablesIn(edges, |nodes| - 1, (Flow(e.1, e.0), 0, |nodes| - 1));
        assert (Flow(e.0, e.1), 0, |nodes| - 1) in p.integers && (Flow(e.1, e.0), 0, |nodes| - 1) in p.integers;
        CapacityConstraintsIn(edges, |nodes| - 1, ForwardCapacity(e, |nodes| - 1));
        CapacityConstraintsIn(edges, |nodes| - 1, ReverseCapacity(e, |nodes| - 1));
        assert ForwardCapacity(e, |nodes| - 1) in p.constraints && ReverseCapacity(e, |nodes| - 1) in p.constraints;
        CapacitySatisfied(e, |nodes| - 1, a);
      }
      forall v | v in nodes
        ensures Sum(NetFn(edges, a, v), 0, |edges|) == if v == nodes[0] then -(|nodes| - 1) else 1
      {
        ConservationConstraintsIn(nodes, edges, nodes, ConservationConstraint(nodes, edges, v));
        assert ConservationConstraint(nodes, edges, v) in p.constraints;
        ConservationSatisfied(nodes, edges, a, v);
      }
    }
  }

  lemma MeansFeasible(nodes: seq<Node>, edges: seq<Edge>, weight: Edge -> int, a: Assignment)
    requires nodes != [] && Simple(nodes, edges)
    requires Forms(nodes, edges, a) && (|nodes| >= 6 ==> FlowHolds(nodes, edges, a))
    ensures Feasible(RouteProgram(nodes, edges, weight), a)
  {
    hide Simple, DegreeConstraint, ForwardCapacity, ReverseCapacity, ConservationConstraint, Satisfied,
      DegreeConstraints, CapacityConstraints, ConservationConstraints, FlowVariables;
    var p := RouteProgram(nodes, edges, weight);
    forall t | t in p.integers ensures t.1 <= a(t.0) <= t.2 {
      if |nodes| >= 6 {
        FlowVariablesIn(edges, |nodes| - 1, t);
      }
    }
    forall c | c in p.constraints ensures Satisfied(c, a) {
      DegreeConstraintsIn(edges, nodes, c);
      CapacityConstraintsIn(edges, |nodes| - 1, c);
      ConservationConstraintsIn(nodes, edges, nodes, c);
      if v :| v in nodes && c == DegreeConstraint(edges, v) {
        DegreeSatisfied(edges, a, v);
      } else if e :| e in edges && (c == ForwardCapacity(e, |nodes| - 1) || c == ReverseCapacity(e, |nodes| - 1)) {
        assert FlowBounded(nodes, e, a);
        CapacitySatisfied(e, |nodes| - 1, a);
      } else {
        var v :| v in nodes && c == ConservationConstraint(nodes, edges, v);
        ConservationSatisfied(nodes, edges, a, v);
      }
    }
  }

  /** Half of the theorem: a feasible selection is one cycle through all nodes. */
  lemma FeasibleIsCycle(nodes: seq<Node>, edges: seq<Edge>, weight: Edge -> int, chosen: set<Edge>, a: Assignment)
    requires nodes != [] && Simple(nodes, edges) && Within(edges, chosen) && Selects(a, edges, chosen)
    requires Feasible(RouteProgram(nodes, edges, weight), a)
    ensures HamiltonianCycle(nodes, chosen)
  {
    hide Simple, Feasible, RouteProgram, Ring, Selects, Tour, HasTwo, Within;
    FeasibleMeans(nodes, edges, weight, a);
    forall v | v in nodes ensures HasTwo(chosen, v) {
      DegreeGivesTwo(nodes, edges, chosen, a, v);
    }
    var s := RingFrom(nodes, edges, chosen, nodes[0]);
    RingNotEmpty(chosen, s);
    forall v | v in nodes ensures v in s {
      if |nodes| < 6 {
        SmallIsWhole(nodes, edges, chosen, s, v);
      } else {
        FlowReachesAll(nodes, edges, chosen, a, s, v);
      }
    }
    WholeRingIsTour(nodes, edges, chosen, s);
  }

  lemma RingNotEmpty(chosen: set<Edge>, s: seq<Node>)
    requires Ring(chosen, s)
    ensures s != [] && s[0] in s
  {
  }

  // ---- every Hamiltonian cycle is feasible --------------------------------

  lemma RotateOnce(nodes: seq<Node>, chosen: set<Edge>, s: seq<Node>)
    requires Tour(nodes, chosen, s)
    ensures Tour(nodes, chosen, s[1..] + [s[0]])
  {
    hide Adj;
    var t := s[1..] + [s[0]];
    forall i | 0 <= i < |t| - 1 ensures Adj(chosen, t[i], t[i + 1]) {
      assert t[i] == s[i + 1];
    }
    assert t[|t| - 1] == s[0] && t[0] == s[1] && t[|t| - 2] == s[|s| - 1];
    forall e | e in chosen ensures Neighbours(t, e.0, e.1) {
      RotateNeighbours(s, e.0, e.1);
    }
    assert s == [s[0]] + s[1..];
  }

  lemma RotateNeighbours(s: seq<Node>, u: Node, v: Node)
    requires |s| >= 3 && Neighbours(s, u, v)
    ensures Neighbours(s[1..] + [s[0]], u, v)
  {
    var t := s[1..] + [s[0]];
    if i :| 0 <= i < |s| - 1 && ((s[i] == u && s[i + 1] == v) || (s[i] == v && s[i + 1] == u)) {
      if i > 0 {
        assert t[i - 1] == s[i] && t[i - 1 + 1] == s[i + 1];
      } else {
        assert t[|t| - 1] == s[0] && t[0] == s[1];
      }
    } else {
      assert t[|t| - 2] == s[|s| - 1] && t[|t| - 2 + 1] == s[0];
    }
  }

  lemma {:induction false} RotateTo(nodes: seq<Node>, chosen: set<Edge>, s: seq<Node>, k: nat) returns (t: seq<Node>)
    requires Tour(nodes, chosen, s) && k < |s|
    ensures Tour(nodes, chosen, t) && t[0] == s[k]
    decreases k
  {
    hide Tour;
    if k == 0 {
      t := s;
    } else {
      RotateOnce(nodes, chosen, s);
      t := RotateTo(nodes, chosen, s[1..] + [s[0]], k - 1);
    }
    TourNotEmpty(nodes, chosen, t);
  }

  lemma TourNotEmpty(nodes: seq<Node>, chosen: set<Edge>, t: seq<Node>)
    requires Tour(nodes, chosen, t)
    ensures |t| == |nodes| >= 3 && DistinctNodes(t)
  {
  }

  ghost predicate Step(t: seq<Node>, u: Node, v: Node, i: int) {
    0 <= i < |t| - 1 && t[i] == u && t[i + 1] == v
  }

  /** One unit is left at every node that the tour passes. */
  ghost function FlowAlong(t: seq<Node>, u: Node, v: Node): int {
    if exists i :: Step(t, u, v, i) then
      var i :| Step(t, u, v, i);
      |t| - 1 - i
    else 0
  }

  ghost function CycleAssignment(chosen: set<Edge>, t: seq<Node>): Assignment {
    (x: Var) => match x case X(e) => (if e in chosen then 1 else 0) case Flow(u, v) => FlowAlong(t, u, v)
  }

  lemma FlowAt(t: seq<Node>, i: nat, j: nat)
    requires DistinctNodes(t) && i < |t| && j < |t|
    ensures FlowAlong(t, t[i], t[j]) == if j == i + 1 then |t| - 1 - i else 0
  {
    if j == i + 1 {
      assert Step(t, t[i], t[j], i);
    }
  }

  lemma FlowRange(t: seq<Node>, u: Node, v: Node)
    ensures 0 <= FlowAlong(t, u, v) && (t != [] ==> FlowAlong(t, u, v) <= |t| - 1)
    ensures FlowAlong(t, u, v) > 0 ==> exists i :: Step(t, u, v, i)
  {
  }

  /** Flow runs on chosen edges only. */
  lemma FlowOnChosen(nodes: seq<Node>, edges: seq<Edge>, chosen: set<Edge>, t: seq<Node>, e: Edge)
    requires Simple(nodes, edges) && Within(edges, chosen) && Tour(nodes, chosen, t) && e in edges && e !in chosen
    ensures FlowAlong(t, e.0, e.1) == 0 && FlowAlong(t, e.1, e.0) == 0
  {
    hide Simple, FlowAlong, Adj, Neighbours;
    FlowRange(t, e.0, e.1);
    FlowRange(t, e.1, e.0);
    if FlowAlong(t, e.0, e.1) > 0 || FlowAlong(t, e.1, e.0) > 0 {
      if i :| Step(t, e.0, e.1, i) {
      } else {
        var i :| Step(t, e.1, e.0, i);
        AdjSym(chosen, e.1, e.0);
      }
      assert Adj(chosen, e.0, e.1);
      var k := EdgeAt(nodes, edges, chosen, e.0, e.1);
    }
  }

  lemma CycleFlowBounded(nodes: seq<Node>, edges: seq<Edge>, chosen: set<Edge>, t: seq<Node>, e: Edge)
    requires Simple(nodes, edges) && Within(edges, chosen) && Tour(nodes, chosen, t) && e in edges
    ensures FlowBounded(nodes, e, CycleAssignment(chosen, t))
    ensures e !in chosen ==> Net(e, CycleAssignment(chosen, t), e.0) == 0 && Net(e, CycleAssignment(chosen, t), e.1) == 0
  {
    hide Simple, FlowAlong, Tour;
    TourNotEmpty(nodes, chosen, t);
    FlowRange(t, e.0, e.1);
    FlowRange(t, e.1, e.0);
    if e !in chosen {
      FlowOnChosen(nodes, edges, chosen, t, e);
    }
  }

  function Before(t: seq<Node>, i: nat): Node
    requires i < |t|
  {
    if i == 0 then t[|t| - 1] else t[i - 1]
  }

  function After(t: seq<Node>, i: nat): Node
    requires i < |t|
  {
    if i == |t| - 1 then t[0] else t[i + 1]
  }

  lemma TourNeighbours(nodes: seq<Node>, chosen: set<Edge>, t: seq<Node>, i: nat)
    requires Tour(nodes, chosen, t) && i < |t|
    ensures TwoNeighbours(chosen, t[i], Before(t, i), After(t, i))
  {
    hide Adj, Neighbours;
    AdjSym(chosen, Before(t, i), t[i]);
    forall w | Adj(chosen, t[i], w) ensures w == Before(t, i) || w == After(t, i) {
      var e := AdjEdge(chosen, t[i], w);
      NeighbourAt(t, i, w, e);
    }
  }

  lemma AdjEdge(chosen: set<Edge>, u: Node, v: Node) returns (e: Edge)
    requires Adj(chosen, u, v)
    ensures e in chosen && Joins(e, u, v)
  {
    e :| e in chosen && Joins(e, u, v);
  }

  lemma NeighbourAt(t: seq<Node>, i: nat, w: Node, e: Edge)
    requires DistinctNodes(t) && i < |t| && Joins(e, t[i], w) && Neighbours(t, e.0, e.1)
    ensures w == Before(t, i) || w == After(t, i)
  {
  }

  lemma NetJoins(e: Edge, a: Assignment, v: Node, x: Node)
    requires Joins(e, v, x) && v != x
    ensures Net(e, a, v) == a(Flow(x, v)) - a(Flow(v, x))
  {
  }

  lemma CycleNet(nodes: seq<Node>, edges: seq<Edge>, chosen: set<Edge>, t: seq<Node>, i: nat)
    requires Simple(nodes, edges) && Within(edges, chosen) && Tour(nodes, chosen, t) && i < |t|
    ensures Sum(NetFn(edges, CycleAssignment(chosen, t), t[i]), 0, |edges|) == if i == 0 then -(|nodes| - 1) else 1
  {
    hide Simple, FlowAlong, Tour, TwoNeighbours, FlowBounded;
    var n, a, v, x, y := |t|, CycleAssignment(chosen, t), t[i], Before(t, i), After(t, i);
    TourNotEmpty(nodes, chosen, t);
    TourNeighbours(nodes, chosen, t, i);
    forall k | 0 <= k < |edges| && !(edges[k] in chosen && Touches(edges[k], v)) ensures NetFn(edges, a, v)(k) == 0 {
      CycleFlowBounded(nodes, edges, chosen, t, edges[k]);
    }
    var p, q := NeighbourSum(nodes, edges, chosen, v, x, y, NetFn(edges, a, v));
    var before, after := if i == 0 then n - 1 else i - 1, if i == n - 1 then 0 else i + 1;
    NetJoins(edges[p], a, v, x);
    NetJoins(edges[q], a, v, y);
    FlowAt(t, before, i);
    FlowAt(t, i, before);
    FlowAt(t, after, i);
    FlowAt(t, i, after);
  }

  lemma CycleDegree(nodes: seq<Node>, edges: seq<Edge>, chosen: set<Edge>, t: seq<Node>, i: nat)
    requires Simple(nodes, edges) && Within(edges, chosen) && Tour(nodes, chosen, t) && i < |t|
    ensures Sum(HitFn(edges, CycleAssignment(chosen, t), t[i]), 0, |edges|) == 2
  {
    hide Simple, FlowAlong, Tour, TwoNeighbours;
    TourNeighbours(nodes, chosen, t, i);
    var f := HitFn(edges, CycleAssignment(chosen, t), t[i]);
    var p, q := NeighbourSum(nodes, edges, chosen, t[i], Before(t, i), After(t, i), f);
  }

  /** The other half: a cycle through all nodes can be completed with flow. */
  lemma CycleIsFeasible(nodes: seq<Node>, edges: seq<Edge>, weight: Edge -> int, chosen: set<Edge>) returns (a: Assignment)
    requires nodes != [] && Simple(nodes, edges) && Within(edges, chosen) && HamiltonianCycle(nodes, chosen)
    ensures Feasible(RouteProgram(nodes, edges, weight), a) && Selects(a, edges, chosen)
  {
    hide Simple, Feasible, RouteProgram, Ring, Neighbours, FlowBounded, FlowAlong;
    var s :| Tour(nodes, chosen, s);
    assert nodes[0] in s;
    var k :| 0 <= k < |s| && s[k] == nodes[0];
    var t := RotateTo(nodes, chosen, s, k);
    a := CycleAssignment(chosen, t);
    TourNotEmpty(nodes, chosen, t);
    forall v | v in nodes ensures Sum(HitFn(edges, a, v), 0, |edges|) == 2 {
      var i :| 0 <= i < |t| && t[i] == v;
      CycleDegree(nodes, edges, chosen, t, i);
    }
    forall v | v in nodes ensures Sum(NetFn(edges, a, v), 0, |edges|) == if v == nodes[0] then -(|nodes| - 1) else 1 {
      var i :| 0 <= i < |t| && t[i] == v;
      CycleNet(nodes, edges, chosen, t, i);
    }
    forall e | e in edges ensures FlowBounded(nodes, e, a) {
      CycleFlowBounded(nodes, edges, chosen, t, e);
    }
    MeansFeasible(nodes, edges, weight, a);
  }

  /** The chosen edges extend to a feasible assignment exactly when they form one Hamiltonian cycle. */
  lemma EncodesHamiltonianCycles(nodes: seq<Node>, edges: seq<Edge>, weight: Edge -> int, chosen: set<Edge>)
    requires |nodes| >= 3 && Simple(nodes, edges) && Within(edges, chosen)
    ensures (exists a :: Feasible(RouteProgram(nodes, edges, weight), a) && Selects(a, edges, chosen))
       <==> HamiltonianCycle(nodes, chosen)
  {
    hide Simple, Feasible, RouteProgram, HamiltonianCycle;
    if a :| Feasible(RouteProgram(nodes, edges, weight), a) && Selects(a, edges, chosen) {
      FeasibleIsCycle(nodes, edges, weight, chosen, a);
    }
    if HamiltonianCycle(nodes, chosen) {
      var a := CycleIsFeasible(nodes, edges, weight, chosen);
    }
  }
}
