/** _extract_route of backend/quantum/quantum_service.py: reading the selected edges, testing
    connectivity, and ordering the edges into one walk. */
module RouteExtraction {
  import opened Texts
  import opened Wrappers

  type Node = string
  type Edge = (Node, Node)

  // ---- graphs given by edge lists -----------------------------------------

  predicate Joins(e: Edge, u: Node, v: Node) { e == (u, v) || e == (v, u) }

  predicate Touches(e: Edge, u: Node) { e.0 == u || e.1 == u }

  ghost function Nodes(es: seq<Edge>): set<Node> {
    (set e | e in es :: e.0) + (set e | e in es :: e.1)
  }

  function One(b: bool): nat { if b then 1 else 0 }

  /** The degree of x; a loop counts twice. */
  function Deg(es: seq<Edge>, x: Node): nat {
    if es == [] then 0
    else Deg(es[..|es| - 1], x) + One(es[|es| - 1].0 == x) + One(es[|es| - 1].1 == x)
  }

  /** No edge leaves s. */
  ghost predicate Closed(es: seq<Edge>, s: set<Node>) {
    forall e :: e in es ==> (e.0 in s <==> e.1 in s)
  }

  /** No proper non-empty part of the nodes is closed. */
  ghost predicate Connected(es: seq<Edge>) {
    forall s: set<Node> :: s != {} && s <= Nodes(es) && Closed(es, s) ==> s == Nodes(es)
  }

  /** Consecutive nodes are joined by the edge between them. */
  ghost predicate Walk(nodes: seq<Node>, es: seq<Edge>) {
    |nodes| == |es| + 1 && forall i :: 0 <= i < |es| ==> Joins(es[i], nodes[i], nodes[i + 1])
  }

  ghost predicate AllEven(es: seq<Edge>) { forall x :: Deg(es, x) % 2 == 0 }

  ghost predicate AllTwo(es: seq<Edge>) { forall x :: x in Nodes(es) ==> Deg(es, x) == 2 }

  /** A closed walk through exactly the given edges, each once. */
  ghost predicate ClosedWalkThrough(route: seq<Node>, es: seq<Edge>) {
    |route| == |es| + 1 && route[0] == route[|es|]
    && exists w :: Walk(route, w) && multiset(w) == multiset(es)
  }

  // ---- reading the solution -----------------------------------------------

  /** An edge variable is x_<u>_<v> with no further underscore. */
  function ParseVariable(name: string): Option<Edge> {
    if |name| >= 2 && name[..2] == "x_" && |Split(name[2..], '_')| == 2
    then Some((Split(name[2..], '_')[0], Split(name[2..], '_')[1])) else None
  }

  /** Exactly those names are read, as the ends that stand in them. */
  lemma ParsesIff(name: string, e: Edge)
    ensures ParseVariable(name) == Some(e) <==> name == "x_" + e.0 + "_" + e.1 && '_' !in e.0 && '_' !in e.1
  {
    hide Split;
    if ParseVariable(name) == Some(e) {
      SplitBack(name[2..], '_');
      var parts := Split(name[2..], '_');
      assert parts[1..] == [parts[1]];
      assert name[2..] == e.0 + ['_'] + e.1;
      assert name == "x_" + name[2..];
    }
    if name == "x_" + e.0 + "_" + e.1 && '_' !in e.0 && '_' !in e.1 {
      assert name[..2] == "x_" && name[2..] == e.0 + ['_'] + e.1;
      SplitAt(e.0, e.1, '_');
      SplitWhole(e.1, '_');
    }
  }

  function Selected(variables: seq<string>, solution: seq<int>): seq<Edge>
    requires |variables| == |solution|
  {
    if variables == [] then []
    else
      var n := |variables| - 1;
      var front := Selected(variables[..n], solution[..n]);
      if solution[n] != 0 && ParseVariable(variables[n]).Some?
      then front + [ParseVariable(variables[n]).value] else front
  }

  method ReadSelected(variables: seq<string>, solution: seq<int>) returns (selected: seq<Edge>)
    requires |variables| == |solution|
    ensures selected == Selected(variables, solution)
  {
    hide ParseVariable;
    selected := [];
    for i := 0 to |variables|
      invariant selected == Selected(variables[..i], solution[..i])
    {
      assert variables[..i + 1][..i] == variables[..i] && solution[..i + 1][..i] == solution[..i];
      if solution[i] != 0 {
        var parsed := ParseVariable(variables[i]);
        if parsed.Some? {
          selected := selected + [parsed.value];
        }
      }
    }
    assert variables[..|variables|] == variables && solution[..|variables|] == solution;
  }

  // ---- connectivity -------------------------------------------------------

  /** adjacency[u] lists v exactly when some edge joins u and v. */
  ghost predicate IsAdjacency(adj: map<Node, seq<Node>>, es: seq<Edge>) {
    && (forall u :: u in adj <==> u in Nodes(es))
    && (forall u, v :: u in adj ==> (v in adj[u] <==> exists e :: e in es && Joins(e, u, v)))
  }

  function AddNeighbour(adj: map<Node, seq<Node>>, u: Node, v: Node): map<Node, seq<Node>> {
    adj[u := (if u in adj then adj[u] else []) + [v]]
  }

  lemma AdjacencyStep(adj: map<Node, seq<Node>>, es: seq<Edge>, e: Edge)
    requires IsAdjacency(adj, es)
    ensures IsAdjacency(AddNeighbour(AddNeighbour(adj, e.0, e.1), e.1, e.0), es + [e])
  {
    var next := AddNeighbour(AddNeighbour(adj, e.0, e.1), e.1, e.0);
    forall u, v | u in next ensures v in next[u] <==> exists f :: f in es + [e] && Joins(f, u, v) {
      if f :| f in es && Joins(f, u, v) {
        assert u in Nodes(es);
      }
      if Joins(e, u, v) {
        assert e in es + [e];
      }
      if v in next[u] && !Joins(e, u, v) {
        assert u in adj && v in adj[u];
        var f :| f in es && Joins(f, u, v);
        assert f in es + [e];
      }
    }
  }

  method BuildAdjacency(selected: seq<Edge>) returns (adj: map<Node, seq<Node>>)
    ensures IsAdjacency(adj, selected)
  {
    hide IsAdjacency;
    adj := map[];
    assert IsAdjacency(map[], []) by { EmptyAdjacency(); }
    for i := 0 to |selected|
      invariant IsAdjacency(adj, selected[..i])
    {
      var (u, v) := selected[i];
      AdjacencyStep(adj, selected[..i], selected[i]);
      assert selected[..i + 1] == selected[..i] + [selected[i]];
      adj := AddNeighbour(adj, u, v);
      adj := AddNeighbour(adj, v, u);
    }
    assert selected[..|selected|] == selected;
  }

  lemma EmptyAdjacency()
    ensures IsAdjacency(map[], [])
  {
  }

  /** s lies in every closed set that contains the start. */
  ghost predicate Reached(es: seq<Edge>, start: Node, s: set<Node>) {
    forall c: set<Node> :: start in c && Closed(es, c) ==> s <= c
  }

  function Elements(s: seq<Node>): set<Node> { set x | x in s }

  lemma ReachedStep(es: seq<Edge>, start: Node, s: set<Node>, adj: map<Node, seq<Node>>, u: Node)
    requires IsAdjacency(adj, es) && u in adj && u in s && Reached(es, start, s)
    ensures Reached(es, start, s + Elements(adj[u]))
  {
    forall c: set<Node> | start in c && Closed(es, c) ensures s + Elements(adj[u]) <= c {
      forall v | v in adj[u] ensures v in c {
        var e :| e in es && Joins(e, u, v);
      }
    }
  }

  /** The depth-first search over the adjacency lists. */
  method Component(adj: map<Node, seq<Node>>, start: Node, ghost es: seq<Edge>) returns (visited: set<Node>)
    requires IsAdjacency(adj, es) && start in adj
    ensures start in visited && visited <= Nodes(es) && Closed(es, visited) && Reached(es, start, visited)
  {
    hide Reached, IsAdjacency, Nodes;
    AdjacencyKeys(adj, es);
    visited := {};
    var stack := [start];
    assert Reached(es, start, visited + Elements(stack)) by {
      StartReached(es, start);
      assert visited + Elements(stack) == Elements([start]);
    }
    while |stack| > 0
      invariant visited <= adj.Keys && Elements(stack) <= adj.Keys && start in visited + Elements(stack)
      invariant Reached(es, start, visited + Elements(stack))
      invariant forall u :: u in visited ==> Elements(adj[u]) <= visited + Elements(stack)
      decreases adj.Keys - visited, |stack|
    {
      var current := stack[|stack| - 1];
      ghost var before := visited + Elements(stack);
      stack := stack[..|stack| - 1];
      if current in visited {
        assert visited + Elements(stack) == before;
        continue;
      }
      ghost var unvisited := adj.Keys - visited;
      assert current in unvisited;
      visited := visited + {current};
      assert visited + Elements(stack) == before;
      ReachedStep(es, start, before, adj, current);
      NeighboursAreKeys(adj, es, current);
      stack := stack + adj[current];
      assert visited + Elements(stack) == before + Elements(adj[current]);
      assert adj.Keys - visited < unvisited;
    }
    assert visited + Elements(stack) == visited;
    VisitedClosed(es, adj, visited);
  }

  lemma AdjacencyKeys(adj: map<Node, seq<Node>>, es: seq<Edge>)
    requires IsAdjacency(adj, es)
    ensures adj.Keys == Nodes(es)
  {
  }

  lemma NeighboursAreKeys(adj: map<Node, seq<Node>>, es: seq<Edge>, u: Node)
    requires IsAdjacency(adj, es) && u in adj
    ensures Elements(adj[u]) <= adj.Keys
  {
    forall v | v in adj[u] ensures v in adj {
      var e :| e in es && Joins(e, u, v);
    }
  }

  lemma StartReached(es: seq<Edge>, start: Node)
    ensures Reached(es, start, Elements([start]))
  {
  }

  lemma VisitedClosed(es: seq<Edge>, adj: map<Node, seq<Node>>, visited: set<Node>)
    requires IsAdjacency(adj, es) && visited <= adj.Keys
    requires forall u :: u in visited ==> Elements(adj[u]) <= visited
    ensures Closed(es, visited)
  {
    forall e | e in es ensures e.0 in visited <==> e.1 in visited {
      if e.0 in visited {
        assert Joins(e, e.0, e.1);
        assert e.1 in Elements(adj[e.0]);
      }
      if e.1 in visited {
        assert Joins(e, e.1, e.0);
        assert e.0 in Elements(adj[e.1]);
      }
    }
  }

  /** The search reaches every node exactly when the edges are connected. */
  lemma ComponentDecides(es: seq<Edge>, start: Node, visited: set<Node>)
    requires start in visited && visited <= Nodes(es) && Closed(es, visited) && Reached(es, start, visited)
    ensures Connected(es) <==> visited == Nodes(es)
  {
    if visited == Nodes(es) {
      forall s: set<Node> | s != {} && s <= Nodes(es) && Closed(es, s) ensures s == Nodes(es) {
        if start in s {
          assert visited <= s;
        } else {
          var rest := Nodes(es) - s;
          forall e | e in es ensures e.0 in rest <==> e.1 in rest {
            assert e.0 in Nodes(es) && e.1 in Nodes(es);
          }
          assert Closed(es, rest) && start in rest;
        }
      }
    }
  }

  lemma SameSize<T>(a: set<T>, b: set<T>)
    requires a <= b
    ensures |a| == |b| <==> a == b
  {
    if |a| == |b| {
      assert b == a + (b - a);
      assert |b| == |a| + |b - a|;
    }
  }

  // ---- degrees ------------------------------------------------------------

  lemma {:induction false} DegConcat(a: seq<Edge>, b: seq<Edge>, x: Node)
    ensures Deg(a + b, x) == Deg(a, x) + Deg(b, x)
  {
    if b == [] {
      assert a + b == a;
    } else {
      assert (a + b)[..|a + b| - 1] == a + b[..|b| - 1];
      DegConcat(a, b[..|b| - 1], x);
    }
  }

  lemma DegOne(e: Edge, x: Node)
    ensures Deg([e], x) == One(e.0 == x) + One(e.1 == x)
  {
    assert [e][..0] == [];
  }

  function Drop(es: seq<Edge>, i: nat): (r: seq<Edge>)
    requires i < |es|
    ensures |r| == |es| - 1
  {
    es[..i] + es[i + 1..]
  }

  lemma DropFacts(es: seq<Edge>, i: nat, x: Node)
    requires i < |es|
    ensures Deg(es, x) == Deg(Drop(es, i), x) + One(es[i].0 == x) + One(es[i].1 == x)
    ensures multiset(es) == multiset(Drop(es, i)) + multiset{es[i]}
    ensures forall e :: e in Drop(es, i) ==> e in es
  {
    assert es == es[..i] + ([es[i]] + es[i + 1..]);
    DegConcat(es[..i], [es[i]] + es[i + 1..], x);
    DegConcat([es[i]], es[i + 1..], x);
    DegOne(es[i], x);
    DegConcat(es[..i], es[i + 1..], x);
  }

  lemma {:induction false} DegZero(es: seq<Edge>, x: Node)
    requires forall e :: e in es ==> !Touches(e, x)
    ensures Deg(es, x) == 0
  {
    if es != [] {
      assert es[|es| - 1] in es;
      DegZero(es[..|es| - 1], x);
    }
  }

  lemma CancelOne(a: multiset<Edge>, b: multiset<Edge>, e: Edge)
    requires a + multiset{e} == b + multiset{e}
    ensures a == b
  {
    assert a == (a + multiset{e}) - multiset{e};
    assert b == (b + multiset{e}) - multiset{e};
  }

  /** Degrees depend only on how often each edge occurs. */
  lemma {:induction false} DegMultiset(a: seq<Edge>, b: seq<Edge>, x: Node)
    requires multiset(a) == multiset(b)
    ensures Deg(a, x) == Deg(b, x)
  {
    if a == [] {
      assert forall i :: 0 <= i < |b| ==> b[i] in multiset(b);
    } else {
      var n := |a| - 1;
      var e := a[n];
      assert a == a[..n] + [e];
      assert e in multiset(b);
      var i :| 0 <= i < |b| && b[i] == e;
      DropFacts(b, i, x);
      CancelOne(multiset(a[..n]), multiset(Drop(b, i)), e);
      DegMultiset(a[..n], Drop(b, i), x);
    }
  }

  // ---- the Hierholzer walk ------------------------------------------------

  /** The parity of the remaining degrees: odd exactly at the two ends of the open part of the walk. */
  ghost predicate OpenAt(remaining: seq<Edge>, a: Node, b: Node) {
    forall x :: (Deg(remaining, x) + One(x == a) + One(x == b)) % 2 == 0
  }

  /** Every selected edge is on the stack, on the route, the bridge between them, or unused. */
  ghost predicate UsesAll(selected: seq<Edge>, hung: bool, bridge: Edge, st: seq<Edge>, rt: seq<Edge>,
                          remaining: seq<Edge>)
  {
    multiset(st) + (if hung then multiset{bridge} else multiset{}) + multiset(rt) + multiset(remaining)
      == multiset(selected)
  }

  /** The last stack edge becomes the bridge, the old bridge joins the route. */
  lemma UsesAllPop(selected: seq<Edge>, hung: bool, bridge: Edge, st: seq<Edge>, rt: seq<Edge>, remaining: seq<Edge>)
    requires UsesAll(selected, hung, bridge, st, rt, remaining)
    ensures var rt' := if hung then rt + [bridge] else rt;
            if st == [] then UsesAll(selected, false, bridge, [], rt', remaining)
            else UsesAll(selected, true, st[|st| - 1], st[..|st| - 1], rt', remaining)
  {
    assert st != [] ==> st == st[..|st| - 1] + [st[|st| - 1]];
  }

  lemma UsesAllPush(selected: seq<Edge>, hung: bool, bridge: Edge, st: seq<Edge>, rt: seq<Edge>, remaining: seq<Edge>, i: nat)
    requires i < |remaining| && UsesAll(selected, hung, bridge, st, rt, remaining)
    ensures UsesAll(selected, hung, bridge, st + [remaining[i]], rt, Drop(remaining, i))
  {
    hide Deg;
    DropFacts(remaining, i, remaining[i].0);
  }

  /** What the loop keeps. `p` is the stack position the finished part of the walk hangs on,
      `bridge` the edge it hangs on by, `st` and `rt` the edges of the stack and of the route. */
  ghost predicate Invariant(selected: seq<Edge>, start: Node, stack: seq<Node>, route: seq<Node>, remaining: seq<Edge>,
                            p: nat, bridge: Edge, st: seq<Edge>, rt: seq<Edge>)
  {
    && (stack != [] ==> stack[0] == start && Walk(stack, st) && p < |stack|)
    && (stack == [] ==> st == [] && route != [] && route[|route| - 1] == start)
    && (route != [] ==> route[0] == start && Walk(route, rt))
    && (route == [] ==> rt == [] && p == 0)
    && (stack != [] && route != [] ==> Joins(bridge, stack[p], route[|route| - 1]))
    && (stack != [] ==> OpenAt(remaining, stack[p], stack[|stack| - 1]))
    && UsesAll(selected, stack != [] && route != [], bridge, st, rt, remaining)
    && (forall x, e :: x in route && e in remaining ==> !Touches(e, x))
  }

  lemma StartInvariant(selected: seq<Edge>, start: Node)
    requires AllEven(selected)
    ensures Invariant(selected, start, [start], [], selected, 0, (start, start), [], [])
  {
    forall x ensures (Deg(selected, x) + One(x == start) + One(x == start)) % 2 == 0 {}
  }

  lemma OpenAtPush(remaining: seq<Edge>, i: nat, a: Node, u: Node, v: Node)
    requires i < |remaining| && Joins(remaining[i], u, v) && OpenAt(remaining, a, u)
    ensures OpenAt(Drop(remaining, i), a, v)
  {
    forall x ensures (Deg(Drop(remaining, i), x) + One(x == a) + One(x == v)) % 2 == 0 {
      DropFacts(remaining, i, x);
      assert (Deg(remaining, x) + One(x == a) + One(x == u)) % 2 == 0;
    }
  }

  lemma WalkExtend(nodes: seq<Node>, es: seq<Edge>, e: Edge, v: Node)
    requires Walk(nodes, es) && Joins(e, nodes[|nodes| - 1], v)
    ensures Walk(nodes + [v], es + [e])
  {
  }

  /** Following an unused edge. */
  lemma PushStep(selected: seq<Edge>, start: Node, stack: seq<Node>, route: seq<Node>, remaining: seq<Edge>,
                 p: nat, bridge: Edge, st: seq<Edge>, rt: seq<Edge>, i: nat, v: Node)
    requires Invariant(selected, start, stack, route, remaining, p, bridge, st, rt)
    requires stack != [] && i < |remaining| && Joins(remaining[i], stack[|stack| - 1], v)
    ensures Invariant(selected, start, stack + [v], route, Drop(remaining, i), p, bridge, st + [remaining[i]], rt)
  {
    hide Walk, Deg, OpenAt, UsesAll;
    UsesAllPush(selected, route != [], bridge, st, rt, remaining, i);
    OpenAtPush(remaining, i, stack[p], stack[|stack| - 1], v);
    WalkLength(stack, st);
    WalkExtend(stack, st, remaining[i], v);
    DropFacts(remaining, i, v);
  }

  lemma WalkLength(nodes: seq<Node>, es: seq<Edge>)
    requires Walk(nodes, es)
    ensures |nodes| == |es| + 1
  {
  }

  /** A node without unused edges is where the walk hangs on: the open part has closed up. */
  lemma StuckAtHook(remaining: seq<Edge>, a: Node, u: Node)
    requires OpenAt(remaining, a, u) && forall e :: e in remaining ==> !Touches(e, u)
    ensures a == u
  {
    DegZero(remaining, u);
    assert (Deg(remaining, u) + One(u == a) + One(u == u)) % 2 == 0;
  }

  lemma WalkSingle(u: Node)
    ensures Walk([u], [])
  {
  }

  lemma WalkFront(nodes: seq<Node>, es: seq<Edge>)
    requires Walk(nodes, es) && |nodes| >= 2
    ensures Walk(nodes[..|nodes| - 1], es[..|es| - 1])
    ensures Joins(es[|es| - 1], nodes[|nodes| - 2], nodes[|nodes| - 1])
  {
  }

  lemma OpenAtSame(remaining: seq<Edge>, a: Node, b: Node)
    requires OpenAt(remaining, a, a)
    ensures OpenAt(remaining, b, b)
  {
    forall x ensures (Deg(remaining, x) + One(x == b) + One(x == b)) % 2 == 0 {
      assert (Deg(remaining, x) + One(x == a) + One(x == a)) % 2 == 0;
    }
  }

  lemma RouteExtend(route: seq<Node>, rt: seq<Edge>, bridge: Edge, u: Node)
    requires route != [] && Walk(route, rt) && Joins(bridge, u, route[|route| - 1])
    ensures Walk(route + [u], rt + [bridge])
  {
  }

  /** Moving a finished node from the stack to the route. */
  lemma PopStep(selected: seq<Edge>, start: Node, stack: seq<Node>, route: seq<Node>, remaining: seq<Edge>,
                p: nat, bridge: Edge, st: seq<Edge>, rt: seq<Edge>)
    returns (p': nat, bridge': Edge, st': seq<Edge>, rt': seq<Edge>)
    requires Invariant(selected, start, stack, route, remaining, p, bridge, st, rt) && stack != []
    requires forall e :: e in remaining ==> !Touches(e, stack[|stack| - 1])
    ensures Invariant(selected, start, stack[..|stack| - 1], route + [stack[|stack| - 1]], remaining, p', bridge', st', rt')
  {
    hide Deg, OpenAt, Walk, Joins, UsesAll;
    UsesAllPop(selected, route != [], bridge, st, rt, remaining);
    var u := stack[|stack| - 1];
    StuckAtHook(remaining, stack[p], u);
    WalkLength(stack, st);
    rt' := if route == [] then [] else rt + [bridge];
    if route == [] {
      WalkSingle(u);
      assert route + [u] == [u];
    } else {
      RouteExtend(route, rt, bridge, u);
    }
    if |stack| == 1 {
      p', bridge', st' := 0, bridge, [];
      assert st == [];
    } else {
      WalkFront(stack, st);
      p', bridge', st' := |stack| - 2, st[|st| - 1], st[..|st| - 1];
      OpenAtSame(remaining, u, stack[|stack| - 2]);
      assert st == st' + [bridge'];
    }
  }

  /** The edge found by the scan over the remaining edges, if any. */
  method FindEdge(remaining: seq<Edge>, u: Node) returns (i: int)
    ensures i == -1 <==> forall e :: e in remaining ==> !Touches(e, u)
    ensures i != -1 ==> 0 <= i < |remaining| && Touches(remaining[i], u)
    ensures i != -1 ==> forall j :: 0 <= j < i ==> !Touches(remaining[j], u)
  {
    i := 0;
    while i < |remaining|
      invariant 0 <= i <= |remaining| && forall j :: 0 <= j < i ==> !Touches(remaining[j], u)
    {
      if Touches(remaining[i], u) {
        return;
      }
      i := i + 1;
    }
    i := -1;
  }

  /** The last loop: walk along unused edges, and output nodes when they have none left. It ends on
      every selection; when all degrees are even and the edges connected, its output is a closed walk
      through every selected edge once. */
  method OrderEdges(selected: seq<Edge>, start: Node) returns (route: seq<Node>)
    requires start in Nodes(selected)
    ensures AllEven(selected) && Connected(selected) ==> ClosedWalkThrough(route, selected) && route[0] == start
    ensures forall x :: x in route ==> x in Nodes(selected)
  {
    hide Deg, Invariant, Connected, AllEven;
    route := [];
    var stack, remaining := [start], selected;
    ghost var p: nat, bridge: Edge, st: seq<Edge>, rt: seq<Edge> := 0, (start, start), [], [];
    if AllEven(selected) {
      StartInvariant(selected, start);
    }
    while |stack| > 0
      invariant AllEven(selected) ==> Invariant(selected, start, stack, route, remaining, p, bridge, st, rt)
      invariant (forall x :: x in stack || x in route ==> x in Nodes(selected)) && forall e :: e in remaining ==> e in selected
      decreases 2 * |remaining| + |stack|
    {
      var u := stack[|stack| - 1];
      var i := FindEdge(remaining, u);
      if i == -1 {
        if AllEven(selected) {
          p, bridge, st, rt := PopStep(selected, start, stack, route, remaining, p, bridge, st, rt);
        }
        route := route + [u];
        stack := stack[..|stack| - 1];
      } else {
        var edge := remaining[i];
        var v := if edge.0 == u then edge.1 else edge.0;
        if AllEven(selected) {
          PushStep(selected, start, stack, route, remaining, p, bridge, st, rt, i, v);
        }
        st := st + [edge];
        remaining := Drop(remaining, i);
        stack := stack + [v];
      }
    }
    if AllEven(selected) && Connected(selected) {
      WalkFinished(selected, start, route, remaining, p, bridge, st, rt);
    }
  }

  lemma WalkNodes(nodes: seq<Node>, es: seq<Edge>, e: Edge)
    requires Walk(nodes, es) && e in es
    ensures e.0 in nodes && e.1 in nodes
  {
    var i :| 0 <= i < |es| && es[i] == e;
    assert Joins(es[i], nodes[i], nodes[i + 1]);
  }

  lemma LeftoverReached(selected: seq<Edge>, route: seq<Node>, remaining: seq<Edge>, e: Edge)
    requires Nodes(selected) <= Elements(route) && multiset(remaining) <= multiset(selected) && e in remaining
    ensures e.0 in route
  {
    assert e in multiset(remaining);
    assert e in multiset(selected);
    assert e in selected;
    assert e.0 in Nodes(selected);
  }

  lemma NothingLeft(selected: seq<Edge>, route: seq<Node>, remaining: seq<Edge>)
    requires Nodes(selected) <= Elements(route) && multiset(remaining) <= multiset(selected)
    requires forall x, e :: x in route && e in remaining ==> !Touches(e, x)
    ensures remaining == []
  {
    if remaining != [] {
      LeftoverReached(selected, route, remaining, remaining[0]);
    }
  }

  /** With an empty stack on a connected graph no edge is left. */
  lemma WalkFinished(selected: seq<Edge>, start: Node, route: seq<Node>, remaining: seq<Edge>,
                     p: nat, bridge: Edge, st: seq<Edge>, rt: seq<Edge>)
    requires Invariant(selected, start, [], route, remaining, p, bridge, st, rt)
    requires Connected(selected) && start in Nodes(selected)
    ensures ClosedWalkThrough(route, selected) && route[0] == start
  {
    hide Walk, Deg;
    var reached := Elements(route) * Nodes(selected);
    assert multiset(rt) + multiset(remaining) == multiset(selected);
    forall e | e in selected ensures e.0 in reached <==> e.1 in reached {
      assert e in multiset(selected);
      assert e in rt || e in remaining;
      assert e.0 in Nodes(selected) && e.1 in Nodes(selected);
      if e in rt {
        WalkNodes(route, rt, e);
      } else {
        assert Touches(e, e.0) && Touches(e, e.1);
      }
    }
    assert Closed(selected, reached);
    assert start in reached;
    assert reached == Nodes(selected);
    NothingLeft(selected, route, remaining);
    assert multiset(remaining) == multiset{};
    assert Walk(route, rt) && multiset(rt) == multiset(selected);
    WalkLength(route, rt);
    assert |rt| == |multiset(rt)| == |multiset(selected)| == |selected|;
  }

  // ---- all degrees two ----------------------------------------------------

  function Count(nodes: seq<Node>, x: Node): nat {
    if nodes == [] then 0 else Count(nodes[..|nodes| - 1], x) + One(nodes[|nodes| - 1] == x)
  }

  /** In a walk, every visit contributes two to the degree, except at the two ends. */
  lemma {:induction false} WalkDegree(nodes: seq<Node>, es: seq<Edge>, x: Node)
    requires Walk(nodes, es)
    ensures Deg(es, x) == 2 * Count(nodes[..|es|], x) + One(nodes[|es|] == x) - One(nodes[0] == x)
  {
    var n := |es|;
    if n > 0 {
      WalkDegree(nodes[..n], es[..n - 1], x);
      assert nodes[..n][..n - 1] == nodes[..n - 1];
      assert Joins(es[n - 1], nodes[n - 1], nodes[n]);
    } else {
      assert nodes[..0] == [];
    }
  }

  lemma {:induction false} CountMany(nodes: seq<Node>, i: nat, j: nat)
    requires i < j < |nodes| && nodes[i] == nodes[j]
    ensures Count(nodes, nodes[i]) >= 2
    decreases |nodes|
  {
    var n := |nodes| - 1;
    if j < n {
      CountMany(nodes[..n], i, j);
    } else {
      CountSome(nodes[..n], i);
    }
  }

  lemma {:induction false} CountSome(nodes: seq<Node>, i: nat)
    requires i < |nodes|
    ensures Count(nodes, nodes[i]) >= 1
  {
    var n := |nodes| - 1;
    if i < n {
      CountSome(nodes[..n], i);
    }
  }

  lemma {:induction false} CountIn(nodes: seq<Node>, x: Node)
    requires Count(nodes, x) > 0
    ensures x in nodes
  {
    var n := |nodes| - 1;
    if nodes[n] != x {
      CountIn(nodes[..n], x);
      assert x in nodes[..n];
    }
  }

  /** Every node once, and back to the first. */
  ghost predicate VisitsEachOnce(route: seq<Node>, es: seq<Edge>) {
    |route| == |es| + 1 && route[|es|] == route[0]
    && (forall i, j :: 0 <= i < j < |es| ==> route[i] != route[j])
    && (forall x :: x in Nodes(es) <==> x in route[..|es|])
  }

  lemma DegreeTwoVisits(route: seq<Node>, es: seq<Edge>)
    requires ClosedWalkThrough(route, es) && AllTwo(es) && es != []
    ensures VisitsEachOnce(route, es)
  {
    hide Deg;
    var n := |es|;
    var w :| Walk(route, w) && multiset(w) == multiset(es);
    WalkLength(route, w);
    forall x ensures Deg(es, x) == 2 * Count(route[..n], x) {
      DegMultiset(w, es, x);
      WalkDegree(route, w, x);
    }
    forall x | x in Nodes(es) ensures x in route[..n] {
      CountIn(route[..n], x);
    }
    forall i | 0 <= i < n ensures route[i] in Nodes(es) {
      assert Joins(w[i], route[i], route[i + 1]);
      assert w[i] in multiset(es);
    }
    forall i, j | 0 <= i < j < n ensures route[i] != route[j] {
      assert Deg(es, route[i]) == 2;
      if route[i] == route[j] {
        CountMany(route[..n], i, j);
      }
    }
  }

  lemma TwoIsEven(es: seq<Edge>)
    requires AllTwo(es)
    ensures AllEven(es)
  {
    forall x ensures Deg(es, x) % 2 == 0 {
      if x !in Nodes(es) {
        DegZero(es, x);
      }
    }
  }

  /** _extract_route up to the mapping of the names: None for a malformed or empty selection and for a
      disconnected one; otherwise the ordering of the edges, a closed walk when all degrees are even and a
      tour when all are two. */
  method DecodeRoute(solution: seq<int>, variables: seq<string>) returns (route: Option<seq<Node>>)
    ensures route.None? <==>
      |solution| != |variables| || Selected(variables, solution) == [] || !Connected(Selected(variables, solution))
    ensures route.Some? && AllEven(Selected(variables, solution)) ==>
      ClosedWalkThrough(route.value, Selected(variables, solution))
    ensures route.Some? && AllTwo(Selected(variables, solution)) ==>
      VisitsEachOnce(route.value, Selected(variables, solution))
    ensures route.Some? ==> forall x :: x in route.value ==> x in Nodes(Selected(variables, solution))
  {
    hide Connected, AllEven, AllTwo, ClosedWalkThrough, VisitsEachOnce, ParseVariable;
    if |solution| == 0 || |solution| != |variables| {
      return None;
    }
    var selected := ReadSelected(variables, solution);
    if |selected| == 0 {
      return None;
    }
    var adjacency := BuildAdjacency(selected);
    var start := selected[0].0;
    AdjacencyKeys(adjacency, selected);
    assert start in Nodes(selected);
    var visited := Component(adjacency, start, selected);
    ComponentDecides(selected, start, visited);
    SameSize(visited, adjacency.Keys);
    if |visited| != |adjacency| {
      return None;
    }
    var order := OrderEdges(selected, start);
    if AllTwo(selected) {
      TwoIsEven(selected);
      DegreeTwoVisits(order, selected);
    }
    route := Some(order);
  }

  // ---- names and ids ------------------------------------------------------

  /** An entry of the answer: the id that a name stands for, or the name itself. */
  datatype Entry<T> = Original(id: T) | Plain(name: Node)

  function NameOf<T>(e: Entry<T>, str: T -> Node): Node {
    match e
    case Original(id) => str(id)
    case Plain(name) => name
  }

  function NamesOf<T>(route: seq<Entry<T>>, str: T -> Node): (names: seq<Node>)
    ensures |names| == |route| && forall i :: 0 <= i < |route| ==> names[i] == NameOf(route[i], str)
  {
    seq(|route|, i requires 0 <= i < |route| => NameOf(route[i], str))
  }

  /** The last of the ids with this name, as in a dictionary written from the first to the last. */
  function Lookup<T>(ids: seq<T>, str: T -> Node, name: Node): (e: Entry<T>)
    ensures NameOf(e, str) == name
    ensures e.Plain? <==> forall i :: 0 <= i < |ids| ==> str(ids[i]) != name
  {
    if ids == [] then Plain(name)
    else if str(ids[|ids| - 1]) == name then Original(ids[|ids| - 1])
    else Lookup(ids[..|ids| - 1], str, name)
  }

  ghost predicate IsIdMap<T>(m: map<Node, T>, ids: seq<T>, str: T -> Node) {
    forall name :: Lookup(ids, str, name) == if name in m then Original(m[name]) else Plain(name)
  }

  /** The end of _extract_route. */
  method MapBack<T>(route: seq<Node>, ids: seq<T>, str: T -> Node) returns (mapped: seq<Entry<T>>)
    ensures NamesOf(mapped, str) == route
    ensures forall i :: 0 <= i < |mapped| ==> mapped[i] == Lookup(ids, str, route[i])
  {
    var idMap: map<Node, T> := map[];
    for i := 0 to |ids|
      invariant IsIdMap(idMap, ids[..i], str)
    {
      assert ids[..i + 1][..i] == ids[..i];
      idMap := idMap[str(ids[i]) := ids[i]];
    }
    assert ids[..|ids|] == ids;
    mapped := [];
    for i := 0 to |route|
      invariant |mapped| == i && forall j :: 0 <= j < i ==> mapped[j] == Lookup(ids, str, route[j])
    {
      mapped := mapped + [if route[i] in idMap then Original(idMap[route[i]]) else Plain(route[i])];
    }
  }

  /** _extract_route, for ids of any type and the way they are written. */
  method ExtractRoute<T>(solution: seq<int>, variables: seq<string>, ids: seq<T>, str: T -> Node)
    returns (route: Option<seq<Entry<T>>>)
    ensures route.None? <==>
      |solution| != |variables| || Selected(variables, solution) == [] || !Connected(Selected(variables, solution))
    ensures route.Some? && AllEven(Selected(variables, solution)) ==>
      ClosedWalkThrough(NamesOf(route.value, str), Selected(variables, solution))
    ensures route.Some? && AllTwo(Selected(variables, solution)) ==>
      VisitsEachOnce(NamesOf(route.value, str), Selected(variables, solution))
    ensures route.Some? ==> forall x :: x in NamesOf(route.value, str) ==> x in Nodes(Selected(variables, solution))
    ensures route.Some? ==> forall i :: 0 <= i < |route.value| ==>
      route.value[i] == Lookup(ids, str, NameOf(route.value[i], str))
  {
    hide Connected, AllEven, AllTwo, ClosedWalkThrough, VisitsEachOnce, Selected, Lookup;
    var names := DecodeRoute(solution, variables);
    if names.None? {
      return None;
    }
    var mapped := MapBack(names.value, ids, str);
    route := Some(mapped);
  }
}
