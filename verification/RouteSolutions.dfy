/** The two halves of the route search together: solve_qubo of backend/quantum/quantum_circuit.py hands the
    values of the edge variables to _extract_route of backend/quantum/quantum_service.py under their names. */
module RouteSolutions {
  import opened Sums
  import opened Texts
  import opened RouteExtraction
  import opened RouteFormulation
  import opened RouteCycles
  import opened Wrappers

  // ---- the solution under its names ---------------------------------------

  function NameOfVar(v: Var): string {
    match v
    case X(e) => "x_" + e.0 + "_" + e.1
    case Flow(u, v) => "flow_" + u + "_" + v
  }

  /** The variables of a program in the order of their declaration. */
  function Variables(p: Program): (vars: seq<Var>)
    ensures |vars| == |p.binaries| + |p.integers|
    ensures forall i :: 0 <= i < |p.binaries| ==> vars[i] == p.binaries[i]
    ensures forall i :: 0 <= i < |p.integers| ==> vars[|p.binaries| + i] == p.integers[i].0
  {
    p.binaries + seq(|p.integers|, i requires 0 <= i < |p.integers| => p.integers[i].0)
  }

  function EdgeNames(edges: seq<Edge>): (names: seq<string>)
    ensures |names| == |edges| && forall i :: 0 <= i < |edges| ==> names[i] == NameOfVar(X(edges[i]))
  {
    seq(|edges|, i requires 0 <= i < |edges| => NameOfVar(X(edges[i])))
  }

  /** The values of an assignment in the order of the variables. */
  ghost predicate ValuesOf(x: seq<int>, p: Program, a: Assignment) {
    |x| == |Variables(p)| && forall i :: 0 <= i < |x| ==> x[i] == a(Variables(p)[i])
  }

  lemma OnlyFlows(nodes: seq<Node>, edges: seq<Edge>, weight: Edge -> int)
    requires nodes != []
    ensures forall t :: t in RouteProgram(nodes, edges, weight).integers ==> t.0.Flow?
  {
    hide FlowVariables;
    forall t | t in RouteProgram(nodes, edges, weight).integers ensures t.0.Flow? {
      FlowVariablesIn(edges, |nodes| - 1, t);
    }
  }

  /** The end of solve_qubo: of all values those of the variables whose names start with x_, which are the
      edge variables. */
  method EdgeValues(nodes: seq<Node>, edges: seq<Edge>, weight: Edge -> int, x: seq<int>)
    returns (solution: seq<int>, variables: seq<string>)
    requires nodes != [] && |x| == |Variables(RouteProgram(nodes, edges, weight))|
    ensures variables == EdgeNames(edges) && solution == x[..|edges|]
  {
    hide RouteProgram;
    var vars := Variables(RouteProgram(nodes, edges, weight));
    EdgesFirst(nodes, edges, weight);
    solution, variables := [], [];
    for i := 0 to |vars|
      invariant |variables| == |solution| == if i < |edges| then i else |edges|
      invariant forall j :: 0 <= j < |variables| ==> variables[j] == NameOfVar(vars[j]) && solution[j] == x[j]
    {
      var name := NameOfVar(vars[i]);
      if |name| >= 2 && name[..2] == "x_" {
        solution, variables := solution + [x[i]], variables + [name];
      }
    }
  }

  lemma EdgesFirst(nodes: seq<Node>, edges: seq<Edge>, weight: Edge -> int)
    requires nodes != []
    ensures
      var vars := Variables(RouteProgram(nodes, edges, weight));
      && |vars| >= |edges|
      && forall i :: 0 <= i < |vars| ==> var name := NameOfVar(vars[i]);
        && |name| >= 2 && (name[..2] == "x_" <==> i < |edges|) && (i < |edges| ==> vars[i] == X(edges[i]))
  {
    hide FlowVariables, DegreeConstraints, CapacityConstraints, ConservationConstraints;
    var p := RouteProgram(nodes, edges, weight);
    OnlyFlows(nodes, edges, weight);
    forall i | 0 <= i < |Variables(p)|
      ensures var name := NameOfVar(Variables(p)[i]);
        && |name| >= 2 && (name[..2] == "x_" <==> i < |edges|) && (i < |edges| ==> Variables(p)[i] == X(edges[i]))
    {
      if i >= |edges| {
        assert p.integers[i - |edges|] in p.integers;
        assert NameOfVar(Variables(p)[i])[0] == 'f';
      } else {
        assert NameOfVar(Variables(p)[i])[..2] == "x_";
      }
    }
  }

  // ---- names and edges ----------------------------------------------------

  /** A name that _extract_route can read back. */
  predicate Plain(name: Node) { '_' !in name }

  lemma PlainParses(e: Edge)
    requires Plain(e.0) && Plain(e.1)
    ensures ParseVariable(NameOfVar(X(e))) == Some(e)
  {
    ParsesIff(NameOfVar(X(e)), e);
  }

  /** The three parts of a name: what kind of variable it is and between which nodes. */
  function Parts(v: Var): (string, Node, Node) {
    match v
    case X(e) => ("x", e.0, e.1)
    case Flow(u, w) => ("flow", u, w)
  }

  lemma NameSplits(v: Var)
    requires Plain(Parts(v).1) && Plain(Parts(v).2)
    ensures Split(NameOfVar(v), '_') == [Parts(v).0, Parts(v).1, Parts(v).2]
  {
    hide Split;
    var (kind, a, b) := Parts(v);
    assert NameOfVar(v) == kind + ['_'] + (a + ['_'] + b);
    hide NameOfVar, Parts;
    SplitBetween(kind, a + ['_'] + b, '_');
    SplitBetween(a, b, '_');
    SplitWhole(kind, '_');
    SplitWhole(a, '_');
    SplitWhole(b, '_');
  }

  /** The solver keys its variables by name: between nodes without an underscore no two share one. */
  lemma NamesDiffer(v: Var, w: Var)
    requires Plain(Parts(v).1) && Plain(Parts(v).2) && Plain(Parts(w).1) && Plain(Parts(w).2)
    ensures NameOfVar(v) == NameOfVar(w) ==> v == w
  {
    NameSplits(v);
    NameSplits(w);
    assert Split(NameOfVar(v), '_') == Split(NameOfVar(w), '_') ==> Parts(v) == Parts(w) by {
      var s, t := [Parts(v).0, Parts(v).1, Parts(v).2], [Parts(w).0, Parts(w).1, Parts(w).2];
      assert s == t ==> s[0] == t[0] && s[1] == t[1] && s[2] == t[2];
    }
    assert Parts(v).0 == "x" <==> v.X?;
  }

  /** No selected edge has an end with an underscore in its name. */
  lemma {:induction false} SelectedPlain(variables: seq<string>, solution: seq<int>)
    requires |variables| == |solution|
    ensures forall x :: x in Nodes(Selected(variables, solution)) ==> Plain(x)
  {
    if variables != [] {
      var n := |variables| - 1;
      SelectedPlain(variables[..n], solution[..n]);
      if ParseVariable(variables[n]).Some? {
        SplitBack(variables[n][2..], '_');
      }
      var front := Selected(variables[..n], solution[..n]);
      forall x | x in Nodes(Selected(variables, solution)) ensures Plain(x) {
        if x !in Nodes(front) {
          assert x == ParseVariable(variables[n]).value.0 || x == ParseVariable(variables[n]).value.1;
        }
      }
    }
  }

  /** The edges of a list that an assignment selects. */
  function Chosen(edges: seq<Edge>, a: Assignment): seq<Edge> {
    if edges == [] then []
    else
      var front, e := Chosen(edges[..|edges| - 1], a), edges[|edges| - 1];
      if a(X(e)) != 0 then front + [e] else front
  }

  ghost function EdgeSet(es: seq<Edge>): set<Edge> { set e | e in es }

  lemma {:induction false} ChosenAre(edges: seq<Edge>, a: Assignment)
    ensures forall e :: e in Chosen(edges, a) <==> e in edges && a(X(e)) != 0
  {
    if edges != [] {
      var front := edges[..|edges| - 1];
      ChosenAre(front, a);
      assert edges == front + [edges[|edges| - 1]];
    }
  }

  lemma {:induction false} SelectedIsChosen(edges: seq<Edge>, a: Assignment, solution: seq<int>)
    requires |solution| == |edges| && forall i :: 0 <= i < |edges| ==> solution[i] == a(X(edges[i]))
    requires forall e :: e in edges ==> Plain(e.0) && Plain(e.1)
    ensures Selected(EdgeNames(edges), solution) == Chosen(edges, a)
  {
    hide ParseVariable, Plain;
    if edges != [] {
      var n := |edges| - 1;
      SelectedIsChosen(edges[..n], a, solution[..n]);
      assert EdgeNames(edges)[..n] == EdgeNames(edges[..n]);
      assert edges[n] in edges;
      PlainParses(edges[n]);
    }
  }

  lemma {:induction false} DegOfChosen(nodes: seq<Node>, edges: seq<Edge>, a: Assignment, v: Node, k: nat)
    requires Simple(nodes, edges) && k <= |edges| && forall e :: e in edges ==> a(X(e)) == 0 || a(X(e)) == 1
    ensures Deg(Chosen(edges[..k], a), v) == Sum(HitFn(edges, a, v), 0, k)
  {
    if k > 0 {
      TakeStep(edges, k - 1);
      DegOfChosen(nodes, edges, a, v, k - 1);
      var front, e := Chosen(edges[..k - 1], a), edges[k - 1];
      assert e in edges && e.0 != e.1;
      assert (front + [e])[..|front|] == front;
    }
  }

  // ---- a cycle is connected -----------------------------------------------

  lemma ClosedAdj(es: seq<Edge>, s: set<Node>, u: Node, v: Node)
    requires Closed(es, s) && Adj(EdgeSet(es), u, v)
    ensures u in s <==> v in s
  {
  }

  /** A closed set holds all of a ring or nothing of it. */
  lemma {:induction false} ClosedAlong(es: seq<Edge>, s: set<Node>, ring: seq<Node>, k: nat)
    requires Closed(es, s) && Ring(EdgeSet(es), ring) && k < |ring|
    ensures ring[k] in s <==> ring[0] in s
  {
    hide Closed, Adj, DistinctNodes;
    if k > 0 {
      ClosedAlong(es, s, ring, k - 1);
      ClosedAdj(es, s, ring[k - 1], ring[k - 1 + 1]);
    }
  }

  lemma CycleConnected(nodes: seq<Node>, es: seq<Edge>)
    requires HamiltonianCycle(nodes, EdgeSet(es)) && Nodes(es) <= Elements(nodes)
    ensures Connected(es)
  {
    hide Closed, Ring, Neighbours, Nodes;
    var ring :| Tour(nodes, EdgeSet(es), ring);
    forall s: set<Node> | s != {} && s <= Nodes(es) && Closed(es, s) ensures s == Nodes(es) {
      forall x | x in Nodes(es) ensures x in s <==> ring[0] in s {
        assert x in nodes && x in ring;
        var k :| 0 <= k < |ring| && ring[k] == x;
        ClosedAlong(es, s, ring, k);
      }
      var y :| y in s;
    }
  }

  // ---- the chosen edges of a solution -------------------------------------

  /** What a feasible assignment chooses: all nodes, two edges each, in one piece. */
  lemma ChosenIsTour(nodes: seq<Node>, edges: seq<Edge>, weight: Edge -> int, a: Assignment)
    requires nodes != [] && Simple(nodes, edges) && Feasible(RouteProgram(nodes, edges, weight), a)
    ensures Connected(Chosen(edges, a)) && AllTwo(Chosen(edges, a))
    ensures Nodes(Chosen(edges, a)) == Elements(nodes) && |Chosen(edges, a)| == |nodes|
  {
    hide Simple, RouteProgram, Feasible, HamiltonianCycle, Connected, Deg, Ring, Neighbours, Selects, Chosen, HitFn;
    var es := Chosen(edges, a);
    ChosenAre(edges, a);
    FeasibleMeans(nodes, edges, weight, a);
    ChosenSelects(edges, a);
    FeasibleIsCycle(nodes, edges, weight, EdgeSet(es), a);
    ChosenNodes(nodes, edges, es);
    CycleConnected(nodes, es);
    assert edges[..|edges|] == edges;
    forall v | v in nodes ensures Deg(es, v) == 2 && v in Nodes(es) {
      DegOfChosen(nodes, edges, a, v, |edges|);
      if v !in Nodes(es) {
        DegZero(es, v);
      }
    }
    SimpleNodes(nodes, edges);
    DegreesCount(es, nodes);
  }

  lemma ChosenSelects(edges: seq<Edge>, a: Assignment)
    requires forall e :: e in edges ==> a(X(e)) == 0 || a(X(e)) == 1
    ensures Selects(a, edges, EdgeSet(Chosen(edges, a))) && Within(edges, EdgeSet(Chosen(edges, a)))
  {
    ChosenAre(edges, a);
  }

  lemma ChosenNodes(nodes: seq<Node>, edges: seq<Edge>, es: seq<Edge>)
    requires Simple(nodes, edges) && forall e :: e in es ==> e in edges
    ensures Nodes(es) <= Elements(nodes)
  {
    forall x | x in Nodes(es) ensures x in nodes {
      var e :| e in es && (e.0 == x || e.1 == x);
      var k :| 0 <= k < |edges| && edges[k] == e;
    }
  }

  function DegSum(es: seq<Edge>, nodes: seq<Node>): int {
    if nodes == [] then 0 else DegSum(es, nodes[..|nodes| - 1]) + Deg(es, nodes[|nodes| - 1])
  }

  lemma {:induction false} NoDegrees(nodes: seq<Node>)
    ensures DegSum([], nodes) == 0
  {
    if nodes != [] {
      NoDegrees(nodes[..|nodes| - 1]);
    }
  }

  lemma {:induction false} OneMoreEdge(front: seq<Edge>, e: Edge, nodes: seq<Node>)
    requires DistinctNodes(nodes)
    ensures DegSum(front + [e], nodes) == DegSum(front, nodes) + One(e.0 in nodes) + One(e.1 in nodes)
  {
    if nodes != [] {
      var rest, v := nodes[..|nodes| - 1], nodes[|nodes| - 1];
      OneMoreEdge(front, e, rest);
      assert nodes == rest + [v];
      assert v !in rest;
      assert (front + [e])[..|front|] == front;
    }
  }

  lemma {:induction false} HandShake(es: seq<Edge>, nodes: seq<Node>)
    requires DistinctNodes(nodes) && Nodes(es) <= Elements(nodes)
    ensures DegSum(es, nodes) == 2 * |es|
  {
    if es == [] {
      NoDegrees(nodes);
    } else {
      var front, e := es[..|es| - 1], es[|es| - 1];
      assert es == front + [e];
      assert e.0 in Nodes(es) && e.1 in Nodes(es);
      assert Nodes(front) <= Nodes(es);
      HandShake(front, nodes);
      OneMoreEdge(front, e, nodes);
    }
  }

  lemma {:induction false} AllDegreesTwo(es: seq<Edge>, nodes: seq<Node>)
    requires forall v :: v in nodes ==> Deg(es, v) == 2
    ensures DegSum(es, nodes) == 2 * |nodes|
  {
    if nodes != [] {
      assert nodes[|nodes| - 1] in nodes;
      AllDegreesTwo(es, nodes[..|nodes| - 1]);
    }
  }

  lemma DegreesCount(es: seq<Edge>, nodes: seq<Node>)
    requires DistinctNodes(nodes) && Nodes(es) <= Elements(nodes) && forall v :: v in nodes ==> Deg(es, v) == 2
    ensures |es| == |nodes|
  {
    HandShake(es, nodes);
    AllDegreesTwo(es, nodes);
  }

  // ---- from the solution to the route -------------------------------------

  ghost predicate SelectedStep(edges: seq<Edge>, a: Assignment, route: seq<Node>, i: nat) {
    i + 1 < |route| && exists e :: e in edges && a(X(e)) == 1 && Joins(e, route[i], route[i + 1])
  }

  /** A round trip through all the nodes, each once, along selected edges. */
  ghost predicate RoundTrip(nodes: seq<Node>, edges: seq<Edge>, a: Assignment, route: seq<Node>) {
    && |route| == |nodes| + 1 && route[|nodes|] == route[0]
    && (forall i, j :: 0 <= i < j < |nodes| ==> route[i] != route[j])
    && (forall x :: x in nodes <==> x in route[..|nodes|])
    && (forall i: nat :: i < |nodes| ==> SelectedStep(edges, a, route, i))
  }

  lemma WalkOnChosen(edges: seq<Edge>, a: Assignment, route: seq<Node>, i: nat)
    requires ClosedWalkThrough(route, Chosen(edges, a)) && i < |Chosen(edges, a)|
    requires forall e :: e in edges ==> a(X(e)) == 0 || a(X(e)) == 1
    ensures SelectedStep(edges, a, route, i)
  {
    hide Chosen;
    var es := Chosen(edges, a);
    ChosenAre(edges, a);
    var w :| Walk(route, w) && multiset(w) == multiset(es);
    WalkLength(route, w);
    assert w[i] in multiset(es);
    assert w[i] in es && Joins(w[i], route[i], route[i + 1]);
  }

  lemma TourIsRoundTrip(nodes: seq<Node>, edges: seq<Edge>, a: Assignment, route: seq<Node>)
    requires VisitsEachOnce(route, Chosen(edges, a)) && ClosedWalkThrough(route, Chosen(edges, a))
    requires Nodes(Chosen(edges, a)) == Elements(nodes) && |Chosen(edges, a)| == |nodes|
    requires forall e :: e in edges ==> a(X(e)) == 0 || a(X(e)) == 1
    ensures RoundTrip(nodes, edges, a, route)
  {
    hide Nodes, Chosen, ClosedWalkThrough, SelectedStep;
    forall i: nat | i < |nodes| ensures SelectedStep(edges, a, route, i) {
      WalkOnChosen(edges, a, route, i);
    }
    forall x ensures x in nodes <==> x in route[..|nodes|] {
      assert x in nodes <==> x in Elements(nodes);
    }
  }

  ghost predicate AllPlain(nodes: seq<Node>) { forall x :: x in nodes ==> Plain(x) }

  /** Every entry is the id of the node that it names. */
  ghost predicate AreIds<T>(route: seq<Entry<T>>, ids: seq<T>, str: T -> Node) {
    forall i :: 0 <= i < |route| ==> route[i].Original? && route[i].id in ids
  }

  lemma {:induction false} LookedUp<T>(ids: seq<T>, str: T -> Node, name: Node)
    ensures Lookup(ids, str, name).Original? ==> Lookup(ids, str, name).id in ids
  {
    if ids != [] {
      LookedUp(ids[..|ids| - 1], str, name);
    }
  }

  function Names<T>(ids: seq<T>, str: T -> Node): (names: seq<Node>)
    ensures |names| == |ids| && forall i :: 0 <= i < |ids| ==> names[i] == str(ids[i])
  {
    seq(|ids|, i requires 0 <= i < |ids| => str(ids[i]))
  }

  lemma KnownNamesAreIds<T>(route: seq<Entry<T>>, ids: seq<T>, str: T -> Node)
    requires forall i :: 0 <= i < |route| ==> route[i] == Lookup(ids, str, NameOf(route[i], str))
    requires forall x :: x in NamesOf(route, str) ==> x in Names(ids, str)
    ensures AreIds(route, ids, str)
  {
    hide Lookup;
    forall i | 0 <= i < |route| ensures route[i].Original? && route[i].id in ids {
      var name := NamesOf(route, str)[i];
      assert name in Names(ids, str);
      var k :| 0 <= k < |ids| && Names(ids, str)[k] == name;
      LookedUp(ids, str, name);
    }
  }

  lemma EdgesPlain(nodes: seq<Node>, edges: seq<Edge>)
    requires Simple(nodes, edges) && AllPlain(nodes)
    ensures forall e :: e in edges ==> Plain(e.0) && Plain(e.1)
  {
    hide Plain;
  }

  lemma BinaryValues(nodes: seq<Node>, edges: seq<Edge>, weight: Edge -> int, a: Assignment, x: seq<int>)
    requires nodes != [] && Simple(nodes, edges)
    requires Feasible(RouteProgram(nodes, edges, weight), a) && ValuesOf(x, RouteProgram(nodes, edges, weight), a)
    ensures |x| == |Variables(RouteProgram(nodes, edges, weight))| >= |edges|
    ensures forall i :: 0 <= i < |edges| ==> x[..|edges|][i] == a(X(edges[i]))
    ensures forall e :: e in edges ==> a(X(e)) == 0 || a(X(e)) == 1
  {
    hide RouteProgram, Simple, Feasible;
    EdgesFirst(nodes, edges, weight);
    FeasibleMeans(nodes, edges, weight, a);
  }

  /** From a solution of the program of a simple graph to the answer, for any ids: no route visits a name with
      an underscore, and without such names the route is given, in the original ids, and is a round trip
      through all nodes along the selected edges. So all nodes are visited if and only if no name has one. */
  method SolvedRoute<T>(ids: seq<T>, str: T -> Node, edges: seq<Edge>, weight: Edge -> int, x: seq<int>, ghost a: Assignment)
    returns (route: Option<seq<Entry<T>>>)
    requires ids != [] && Simple(Names(ids, str), edges)
    requires Feasible(RouteProgram(Names(ids, str), edges, weight), a) && ValuesOf(x, RouteProgram(Names(ids, str), edges, weight), a)
    ensures AllPlain(Names(ids, str)) <==> route.Some? && forall n :: n in Names(ids, str) ==> n in NamesOf(route.value, str)
    ensures AllPlain(Names(ids, str)) ==>
      route.Some? && RoundTrip(Names(ids, str), edges, a, NamesOf(route.value, str)) && AreIds(route.value, ids, str)
  {
    hide *;
    var nodes := Names(ids, str);
    BinaryValues(nodes, edges, weight, a, x);
    var solution, variables := EdgeValues(nodes, edges, weight, x);
    route := ExtractRoute(solution, variables, ids, str);
    SelectedPlain(variables, solution);
    if AllPlain(nodes) {
      EdgesPlain(nodes, edges);
      SelectedIsChosen(edges, a, solution);
      ChosenIsTour(nodes, edges, weight, a);
      Answered(nodes, edges, a, route, ids, str);
    } else {
      NotAllVisited(nodes, route, str);
    }
  }

  lemma Answered<T>(nodes: seq<Node>, edges: seq<Edge>, a: Assignment, route: Option<seq<Entry<T>>>, ids: seq<T>, str: T -> Node)
    requires nodes == Names(ids, str) && nodes != [] && forall e :: e in edges ==> a(X(e)) == 0 || a(X(e)) == 1
    requires Connected(Chosen(edges, a)) && AllTwo(Chosen(edges, a))
    requires Nodes(Chosen(edges, a)) == Elements(nodes) && |Chosen(edges, a)| == |nodes|
    requires route.None? ==> Chosen(edges, a) == [] || !Connected(Chosen(edges, a))
    requires route.Some? && AllEven(Chosen(edges, a)) ==> ClosedWalkThrough(NamesOf(route.value, str), Chosen(edges, a))
    requires route.Some? && AllTwo(Chosen(edges, a)) ==> VisitsEachOnce(NamesOf(route.value, str), Chosen(edges, a))
    requires route.Some? ==> forall x :: x in NamesOf(route.value, str) ==> x in Nodes(Chosen(edges, a))
    requires route.Some? ==> forall i :: 0 <= i < |route.value| ==> route.value[i] == Lookup(ids, str, NameOf(route.value[i], str))
    ensures route.Some? && RoundTrip(nodes, edges, a, NamesOf(route.value, str)) && AreIds(route.value, ids, str)
    ensures forall n :: n in nodes ==> n in NamesOf(route.value, str)
  {
    hide Connected, AllTwo, AllEven, Nodes, Chosen, ClosedWalkThrough, VisitsEachOnce, Lookup, NameOf, AreIds;
    TwoIsEven(Chosen(edges, a));
    TourIsRoundTrip(nodes, edges, a, NamesOf(route.value, str));
    forall x | x in NamesOf(route.value, str) ensures x in nodes {
      assert x in Elements(nodes);
    }
    KnownNamesAreIds(route.value, ids, str);
  }

  lemma NotAllVisited<T>(nodes: seq<Node>, route: Option<seq<Entry<T>>>, str: T -> Node)
    requires !AllPlain(nodes) && (route.Some? ==> forall x :: x in NamesOf(route.value, str) ==> Plain(x))
    ensures !(route.Some? && forall n :: n in nodes ==> n in NamesOf(route.value, str))
  {
    hide Plain;
  }

  // ---- the optimum --------------------------------------------------------

  /** The total weight of the chosen edges. */
  function Length(edges: seq<Edge>, weight: Edge -> int, chosen: set<Edge>): int {
    if edges == [] then 0
    else
      var e := edges[|edges| - 1];
      Length(edges[..|edges| - 1], weight, chosen) + if e in chosen then weight(e) else 0
  }

  lemma {:induction false} ObjectiveIsLength(edges: seq<Edge>, weight: Edge -> int, chosen: set<Edge>, a: Assignment)
    requires Selects(a, edges, chosen)
    ensures Value(Objective(edges, weight), a) == Length(edges, weight, chosen)
  {
    if edges != [] {
      var n := |edges| - 1;
      assert forall e :: e in edges[..n] ==> e in edges;
      ObjectiveIsLength(edges[..n], weight, chosen, a);
      assert Objective(edges, weight)[..n] == Objective(edges[..n], weight);
      assert edges[n] in edges;
    }
  }

  /** An optimal solution is a shortest Hamiltonian cycle. */
  lemma OptimumIsShortest(nodes: seq<Node>, edges: seq<Edge>, weight: Edge -> int, chosen: set<Edge>, a: Assignment, other: set<Edge>)
    requires nodes != [] && Simple(nodes, edges) && Within(edges, chosen) && Selects(a, edges, chosen)
    requires var p := RouteProgram(nodes, edges, weight);
      Feasible(p, a) && forall b :: Feasible(p, b) ==> Value(p.objective, a) <= Value(p.objective, b)
    requires Within(edges, other) && HamiltonianCycle(nodes, other)
    ensures HamiltonianCycle(nodes, chosen) && Length(edges, weight, chosen) <= Length(edges, weight, other)
  {
    hide Feasible, HamiltonianCycle, Selects, Simple, Value;
    FeasibleIsCycle(nodes, edges, weight, chosen, a);
    var b := CycleIsFeasible(nodes, edges, weight, other);
    ObjectiveIsLength(edges, weight, chosen, a);
    ObjectiveIsLength(edges, weight, other, b);
  }
}
