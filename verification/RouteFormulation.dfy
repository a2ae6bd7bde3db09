/** formulate_route_optimization of backend/quantum/quantum_circuit.py: the integer program for a
    route, and the proof that its feasible edge selections are exactly the Hamiltonian cycles. */
module RouteFormulation {
  import opened RouteExtraction
  import opened Wrappers

  datatype Var = X(e: Edge) | Flow(u: Node, v: Node)
  datatype Sense = EQ | LE
  datatype Constraint = Constraint(terms: seq<(Var, int)>, sense: Sense, rhs: int)
  datatype Program = Program(binaries: seq<Var>, integers: seq<(Var, int, int)>,
                             objective: seq<(Var, int)>, constraints: seq<Constraint>)

  type Assignment = Var -> int

  // ---- meaning of a program -----------------------------------------------

  function Value(terms: seq<(Var, int)>, a: Assignment): int {
    if terms == [] then 0
    else Value(terms[..|terms| - 1], a) + terms[|terms| - 1].1 * a(terms[|terms| - 1].0)
  }

  predicate Satisfied(c: Constraint, a: Assignment) {
    if c.sense == EQ then Value(c.terms, a) == c.rhs else Value(c.terms, a) <= c.rhs
  }

  ghost predicate Feasible(p: Program, a: Assignment) {
    && (forall v :: v in p.binaries ==> a(v) == 0 || a(v) == 1)
    && (forall t :: t in p.integers ==> t.1 <= a(t.0) <= t.2)
    && (forall c :: c in p.constraints ==> Satisfied(c, a))
  }

  /** The assignment selects exactly the chosen edges. */
  ghost predicate Selects(a: Assignment, edges: seq<Edge>, chosen: set<Edge>) {
    forall e :: e in edges ==> a(X(e)) == if e in chosen then 1 else 0
  }

  // ---- graphs and cycles --------------------------------------------------

  /** No loops, no parallel edges, every end a listed node. */
  ghost predicate Simple(nodes: seq<Node>, edges: seq<Edge>) {
    && (forall i, j :: 0 <= i < j < |nodes| ==> nodes[i] != nodes[j])
    && (forall i :: 0 <= i < |edges| ==> edges[i].0 in nodes && edges[i].1 in nodes && edges[i].0 != edges[i].1)
    && (forall i, j :: 0 <= i < |edges| && 0 <= j < |edges| && i != j ==> !Joins(edges[i], edges[j].0, edges[j].1))
  }

  ghost predicate Adj(chosen: set<Edge>, u: Node, v: Node) {
    exists e :: e in chosen && Joins(e, u, v)
  }

  ghost predicate DistinctNodes(s: seq<Node>) {
    forall i, j :: 0 <= i < j < |s| ==> s[i] != s[j]
  }

  /** Consecutive nodes are adjacent, and so are the last and the first. */
  ghost predicate Ring(chosen: set<Edge>, s: seq<Node>) {
    && |s| >= 3 && DistinctNodes(s)
    && (forall i :: 0 <= i < |s| - 1 ==> Adj(chosen, s[i], s[i + 1]))
    && Adj(chosen, s[|s| - 1], s[0])
  }

  predicate Neighbours(s: seq<Node>, u: Node, v: Node) {
    |s| > 0 && ((exists i :: 0 <= i < |s| - 1 && ((s[i] == u && s[i + 1] == v) || (s[i] == v && s[i + 1] == u)))
    || (s[|s| - 1] == u && s[0] == v) || (s[|s| - 1] == v && s[0] == u))
  }

  /** A ring through all nodes, with no chosen edge off the ring. */
  ghost predicate Tour(nodes: seq<Node>, chosen: set<Edge>, s: seq<Node>) {
    && Ring(chosen, s) && |s| == |nodes|
    && (forall x :: x in s <==> x in nodes)
    && (forall e :: e in chosen ==> Neighbours(s, e.0, e.1))
  }

  ghost predicate HamiltonianCycle(nodes: seq<Node>, chosen: set<Edge>) {
    exists s :: Tour(nodes, chosen, s)
  }

  // ---- the generated program ----------------------------------------------

  function DegreeTerms(edges: seq<Edge>, node: Node): seq<(Var, int)> {
    if edges == [] then []
    else
      var front, e := DegreeTerms(edges[..|edges| - 1], node), edges[|edges| - 1];
      if Touches(e, node) then front + [(X(e), 1)] else front
  }

  /** Adding to one entry of a dictionary kept in insertion order. */
  function DictAdd(terms: seq<(Var, int)>, v: Var, d: int): seq<(Var, int)> {
    if terms == [] then [(v, d)]
    else if terms[0].0 == v then [(v, terms[0].1 + d)] + terms[1..]
    else [terms[0]] + DictAdd(terms[1..], v, d)
  }

  /** Giving one entry of a dictionary a value. */
  function DictSet(terms: seq<(Var, int)>, v: Var, d: int): seq<(Var, int)> {
    if terms == [] then [(v, d)]
    else if terms[0].0 == v then [(v, d)] + terms[1..]
    else [terms[0]] + DictSet(terms[1..], v, d)
  }

  function SetAll(vars: seq<Var>, d: int): seq<(Var, int)> {
    if vars == [] then [] else DictSet(SetAll(vars[..|vars| - 1], d), vars[|vars| - 1], d)
  }

  function AddAll(terms: seq<(Var, int)>, vars: seq<Var>, d: int): seq<(Var, int)> {
    if vars == [] then terms else DictAdd(AddAll(terms, vars[..|vars| - 1], d), vars[|vars| - 1], d)
  }

  function Outgoing(edges: seq<Edge>, node: Node): seq<Var> {
    if edges == [] then []
    else
      var front, e := Outgoing(edges[..|edges| - 1], node), edges[|edges| - 1];
      if e.0 == node then front + [Flow(e.0, e.1)] else if e.1 == node then front + [Flow(e.1, e.0)] else front
  }

  function Incoming(edges: seq<Edge>, node: Node): seq<Var> {
    if edges == [] then []
    else
      var front, e := Incoming(edges[..|edges| - 1], node), edges[|edges| - 1];
      if e.0 == node then front + [Flow(e.1, e.0)] else if e.1 == node then front + [Flow(e.0, e.1)] else front
  }

  function Conservation(edges: seq<Edge>, node: Node): seq<(Var, int)> {
    AddAll(SetAll(Incoming(edges, node), 1), Outgoing(edges, node), -1)
  }

  function DegreeConstraint(edges: seq<Edge>, node: Node): Constraint {
    Constraint(DegreeTerms(edges, node), EQ, 2)
  }

  function ForwardCapacity(e: Edge, capacity: int): Constraint {
    Constraint([(Flow(e.0, e.1), 1), (X(e), -capacity)], LE, 0)
  }

  function ReverseCapacity(e: Edge, capacity: int): Constraint {
    Constraint([(Flow(e.1, e.0), 1), (X(e), -capacity)], LE, 0)
  }

  function ConservationConstraint(nodes: seq<Node>, edges: seq<Edge>, node: Node): Constraint
    requires nodes != []
  {
    Constraint(Conservation(edges, node), EQ, if node == nodes[0] then -(|nodes| - 1) else 1)
  }

  function DegreeConstraints(edges: seq<Edge>, nodes: seq<Node>): seq<Constraint> {
    if nodes == [] then []
    else DegreeConstraints(edges, nodes[..|nodes| - 1]) + [DegreeConstraint(edges, nodes[|nodes| - 1])]
  }

  function CapacityConstraints(edges: seq<Edge>, capacity: int): seq<Constraint> {
    if edges == [] then []
    else
      var front, e := CapacityConstraints(edges[..|edges| - 1], capacity), edges[|edges| - 1];
      front + [ForwardCapacity(e, capacity), ReverseCapacity(e, capacity)]
  }

  function ConservationConstraints(nodes: seq<Node>, edges: seq<Edge>, upto: seq<Node>): seq<Constraint>
    requires nodes != []
  {
    if upto == [] then []
    else
      var front := ConservationConstraints(nodes, edges, upto[..|upto| - 1]);
      front + [ConservationConstraint(nodes, edges, upto[|upto| - 1])]
  }

  function FlowVariables(edges: seq<Edge>, upper: int): seq<(Var, int, int)> {
    if edges == [] then []
    else
      var e := edges[|edges| - 1];
      FlowVariables(edges[..|edges| - 1], upper) + [(Flow(e.0, e.1), 0, upper), (Flow(e.1, e.0), 0, upper)]
  }

  function EdgeVariables(edges: seq<Edge>): (r: seq<Var>)
    ensures |r| == |edges| && forall i :: 0 <= i < |edges| ==> r[i] == X(edges[i])
  {
    seq(|edges|, i requires 0 <= i < |edges| => X(edges[i]))
  }

  function Objective(edges: seq<Edge>, weight: Edge -> int): (r: seq<(Var, int)>)
    ensures |r| == |edges| && forall i :: 0 <= i < |edges| ==> r[i] == (X(edges[i]), weight(edges[i]))
  {
    seq(|edges|, i requires 0 <= i < |edges| => (X(edges[i]), weight(edges[i])))
  }

  function RouteProgram(nodes: seq<Node>, edges: seq<Edge>, weight: Edge -> int): Program
    requires nodes != []
  {
    var degrees := DegreeConstraints(edges, nodes);
    if |nodes| < 6 then Program(EdgeVariables(edges), [], Objective(edges, weight), degrees)
    else Program(EdgeVariables(edges), FlowVariables(edges, |nodes| - 1), Objective(edges, weight),
                 degrees + CapacityConstraints(edges, |nodes| - 1) + ConservationConstraints(nodes, edges, nodes))
  }

  // ---- the loops that fill the program ------------------------------------

  class QuadraticProgram {
    var program: Program

    constructor ()
      ensures program == Program([], [], [], [])
    {
      program := Program([], [], [], []);
    }

    method BinaryVar(v: Var)
      modifies this
      ensures program == old(program).(binaries := old(program).binaries + [v])
    {
      program := program.(binaries := program.binaries + [v]);
    }

    method IntegerVar(v: Var, lower: int, upper: int)
      modifies this
      ensures program == old(program).(integers := old(program).integers + [(v, lower, upper)])
    {
      program := program.(integers := program.integers + [(v, lower, upper)]);
    }

    method Minimize(linear: seq<(Var, int)>)
      modifies this
      ensures program == old(program).(objective := linear)
    {
      program := program.(objective := linear);
    }

    method LinearConstraint(terms: seq<(Var, int)>, sense: Sense, rhs: int)
      modifies this
      ensures program == old(program).(constraints := old(program).constraints + [Constraint(terms, sense, rhs)])
    {
      program := program.(constraints := program.constraints + [Constraint(terms, sense, rhs)]);
    }
  }

  lemma TakeStep<T>(s: seq<T>, i: nat)
    requires i < |s|
    ensures s[..i + 1][..i] == s[..i] && s[..i + 1][i] == s[i]
  {
  }

  /** The incident edge variables of one node. */
  method CollectIncident(edges: seq<Edge>, node: Node) returns (terms: seq<(Var, int)>)
    ensures terms == DegreeTerms(edges, node)
  {
    terms := [];
    for i := 0 to |edges|
      invariant terms == DegreeTerms(edges[..i], node)
    {
      TakeStep(edges, i);
      if Touches(edges[i], node) {
        terms := terms + [(X(edges[i]), 1)];
      }
    }
    assert edges[..|edges|] == edges;
  }

  method AddToDict(start: seq<(Var, int)>, vars: seq<Var>, d: int) returns (terms: seq<(Var, int)>)
    ensures terms == AddAll(start, vars, d)
  {
    terms := start;
    for i := 0 to |vars|
      invariant terms == AddAll(start, vars[..i], d)
    {
      TakeStep(vars, i);
      terms := DictAdd(terms, vars[i], d);
    }
    assert vars[..|vars|] == vars;
  }

  method DictOf(vars: seq<Var>, d: int) returns (terms: seq<(Var, int)>)
    ensures terms == SetAll(vars, d)
  {
    terms := [];
    for i := 0 to |vars|
      invariant terms == SetAll(vars[..i], d)
    {
      TakeStep(vars, i);
      terms := DictSet(terms, vars[i], d);
    }
    assert vars[..|vars|] == vars;
  }

  method ConservationTerms(edges: seq<Edge>, node: Node) returns (terms: seq<(Var, int)>)
    ensures terms == Conservation(edges, node)
  {
    var outgoing: seq<Var>, incoming: seq<Var> := [], [];
    for i := 0 to |edges|
      invariant outgoing == Outgoing(edges[..i], node) && incoming == Incoming(edges[..i], node)
    {
      TakeStep(edges, i);
      var e := edges[i];
      if e.0 == node {
        outgoing := outgoing + [Flow(e.0, e.1)];
        incoming := incoming + [Flow(e.1, e.0)];
      } else if e.1 == node {
        outgoing := outgoing + [Flow(e.1, e.0)];
        incoming := incoming + [Flow(e.0, e.1)];
      }
    }
    assert edges[..|edges|] == edges;
    terms := DictOf(incoming, 1);
    terms := AddToDict(terms, outgoing, -1);
  }

  // ---- the graph ----------------------------------------------------------

  /** Edges join nodes of the graph. */
  predicate IsGraph(nodes: seq<Node>, edges: seq<Edge>) {
    forall e :: e in edges ==> e.0 in nodes && e.1 in nodes
  }

  /** No proper non-empty part of the nodes is closed; nodes without edges count. */
  ghost predicate GraphConnected(nodes: seq<Node>, edges: seq<Edge>) {
    forall s: set<Node> :: s != {} && s <= Elements(nodes) && Closed(edges, s) ==> s == Elements(nodes)
  }

  /** What a search from a node has found decides it. */
  lemma SearchDecides(nodes: seq<Node>, edges: seq<Edge>, start: Node, visited: set<Node>)
    requires IsGraph(nodes, edges) && start in nodes && start in visited
    requires visited <= Elements(nodes) && Closed(edges, visited) && Reached(edges, start, visited)
    ensures GraphConnected(nodes, edges) <==> visited == Elements(nodes)
  {
    if visited == Elements(nodes) {
      forall s: set<Node> | s != {} && s <= Elements(nodes) && Closed(edges, s) ensures s == Elements(nodes) {
        if start !in s {
          var rest := Elements(nodes) - s;
          assert Closed(edges, rest) && start in rest;
        }
      }
    }
  }

  lemma AloneReached(edges: seq<Edge>, start: Node)
    requires start !in Nodes(edges)
    ensures Closed(edges, {start}) && Reached(edges, start, {start})
  {
    forall e | e in edges ensures e.0 != start && e.1 != start {
      assert e.0 in Nodes(edges) && e.1 in Nodes(edges);
    }
  }

  lemma GraphNodes(nodes: seq<Node>, edges: seq<Edge>)
    requires IsGraph(nodes, edges)
    ensures Nodes(edges) <= Elements(nodes)
  {
  }

  /** nx.is_connected of a graph with at least one node. */
  method IsConnected(nodes: seq<Node>, edges: seq<Edge>) returns (connected: bool)
    requires nodes != [] && IsGraph(nodes, edges)
    ensures connected <==> GraphConnected(nodes, edges)
  {
    hide IsAdjacency, Reached, Closed, GraphConnected, IsGraph;
    var start := nodes[0];
    var adjacency := BuildAdjacency(edges);
    AdjacencyKeys(adjacency, edges);
    GraphNodes(nodes, edges);
    var visited := {start};
    if start in adjacency {
      visited := Component(adjacency, start, edges);
    } else {
      AloneReached(edges, start);
    }
    SearchDecides(nodes, edges, start, visited);
    for i := 0 to |nodes|
      invariant forall j :: 0 <= j < i ==> nodes[j] in visited
    {
      if nodes[i] !in visited {
        assert nodes[i] in Elements(nodes);
        return false;
      }
    }
    connected := true;
  }

  /** formulate_route_optimization, on a graph given by its nodes and edges. */
  method FormulateRouteOptimization(nodes: seq<Node>, edges: seq<Edge>, weight: Edge -> int)
    returns (r: Result<QuadraticProgram>)
    requires IsGraph(nodes, edges)
    ensures r.Ok? <==>
      |nodes| >= 3 && GraphConnected(nodes, edges) && forall i :: 0 <= i < |nodes| ==> Deg(edges, nodes[i]) >= 2
    ensures r.Ok? ==> fresh(r.value) && r.value.program == RouteProgram(nodes, edges, weight)
  {
    hide DegreeTerms, Conservation, GraphConnected, Deg;
    if |nodes| < 3 {
      return Error;
    }
    var connected := IsConnected(nodes, edges);
    if !connected {
      return Error;
    }
    for i := 0 to |nodes|
      invariant forall j :: 0 <= j < i ==> Deg(edges, nodes[j]) >= 2
    {
      if Deg(edges, nodes[i]) < 2 {
        return Error;
      }
    }
    var qubo := new QuadraticProgram();
    for i := 0 to |edges|
      invariant fresh(qubo) && qubo.program == Program(EdgeVariables(edges[..i]), [], [], [])
    {
      qubo.BinaryVar(X(edges[i]));
      assert EdgeVariables(edges[..i]) + [X(edges[i])] == EdgeVariables(edges[..i + 1]);
    }
    assert edges[..|edges|] == edges;
    qubo.Minimize(Objective(edges, weight));
    for i := 0 to |nodes|
      invariant fresh(qubo) && qubo.program == Program(EdgeVariables(edges), [], Objective(edges, weight),
                                                       DegreeConstraints(edges, nodes[..i]))
    {
      TakeStep(nodes, i);
      var terms := CollectIncident(edges, nodes[i]);
      qubo.LinearConstraint(terms, EQ, 2);
    }
    assert nodes[..|nodes|] == nodes;
    if |nodes| >= 6 {
      AddFlow(qubo, nodes, edges);
    }
    r := Ok(qubo);
  }

  /** The single-commodity flow part, for six nodes and more. */
  method AddFlow(qubo: QuadraticProgram, nodes: seq<Node>, edges: seq<Edge>)
    requires |nodes| >= 6 && qubo.program.integers == []
    modifies qubo
    ensures qubo.program == old(qubo.program).(
      integers := FlowVariables(edges, |nodes| - 1),
      constraints := old(qubo.program).constraints + CapacityConstraints(edges, |nodes| - 1)
                     + ConservationConstraints(nodes, edges, nodes))
  {
    hide Conservation;
    var capacity := |nodes| - 1;
    ghost var before := qubo.program;
    for i := 0 to |edges|
      invariant qubo.program == before.(integers := FlowVariables(edges[..i], capacity),
        constraints := before.constraints + CapacityConstraints(edges[..i], capacity))
    {
      TakeStep(edges, i);
      var e := edges[i];
      qubo.IntegerVar(Flow(e.0, e.1), 0, capacity);
      qubo.IntegerVar(Flow(e.1, e.0), 0, capacity);
      assert FlowVariables(edges[..i], capacity) + [(Flow(e.0, e.1), 0, capacity)] + [(Flow(e.1, e.0), 0, capacity)]
          == FlowVariables(edges[..i + 1], capacity);
      qubo.LinearConstraint([(Flow(e.0, e.1), 1), (X(e), -capacity)], LE, 0);
      qubo.LinearConstraint([(Flow(e.1, e.0), 1), (X(e), -capacity)], LE, 0);
      assert before.constraints + CapacityConstraints(edges[..i], capacity) + [ForwardCapacity(e, capacity)] + [ReverseCapacity(e, capacity)]
          == before.constraints + CapacityConstraints(edges[..i + 1], capacity);
    }
    assert edges[..|edges|] == edges;
    ghost var middle := before.constraints + CapacityConstraints(edges, capacity);
    for i := 0 to |nodes|
      invariant qubo.program == before.(integers := FlowVariables(edges, capacity),
        constraints := middle + ConservationConstraints(nodes, edges, nodes[..i]))
    {
      TakeStep(nodes, i);
      var terms := ConservationTerms(edges, nodes[i]);
      if nodes[i] == nodes[0] {
        qubo.LinearConstraint(terms, EQ, -(|nodes| - 1));
      } else {
        qubo.LinearConstraint(terms, EQ, 1);
      }
      assert middle + ConservationConstraints(nodes, edges, nodes[..i]) + [ConservationConstraint(nodes, edges, nodes[i])]
          == middle + ConservationConstraints(nodes, edges, nodes[..i + 1]);
    }
    assert nodes[..|nodes|] == nodes;
  }
}
