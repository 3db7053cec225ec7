/**
 The editor's graph rules: what each step may depend on, that nothing waits for
 itself, and that every step is reached from a start.
 */
module Workflow {
  import opened Wrappers
  import opened Graphs
  import opened Kahn

  /** A step, and whether its kind is one that starts a run. */
  datatype Node = Node(id: string, start: bool)

  datatype Problem =
    | NoSteps
    | StartDepends(id: string)
    | NothingBefore(id: string)
    | UnknownDependency(id: string, on: string)
    | DependsOnItself(id: string)
    | NoStart
    | CycleAmong(ids: seq<string>)
    | InCycle(id: string)
    | Unreachable(id: string)

  function Ids(nodes: seq<Node>): (r: seq<string>)
    ensures |r| == |nodes| && forall i :: 0 <= i < |nodes| ==> r[i] == nodes[i].id
  {
    if nodes == [] then [] else Ids(nodes[..|nodes| - 1]) + [nodes[|nodes| - 1].id]
  }

  function StartIds(nodes: seq<Node>): set<string> {
    set n | n in nodes && n.start :: n.id
  }

  function GraphOf(nodes: seq<Node>, edges: seq<Edge>): Graph {
    Graph(Elements(Ids(nodes)), edges)
  }

  /** What `t` depends on, in edge order, unknown steps included. */
  function Deps(edges: seq<Edge>, t: string): seq<string> {
    Ends(edges, t, Into, None)
  }

  // --- reachability ----------------------------------------------------------

  /** Some chain of dependencies leads from a start to `v`. */
  ghost predicate Reached(g: Graph, starts: set<string>, v: string) {
    exists p :: g.IsPath(p) && p[0] in starts && p[|p| - 1] == v
  }

  ghost predicate Closed(g: Graph, s: set<string>) {
    forall u, v :: u in s && g.Arc(u, v) ==> v in s
  }

  lemma {:induction false} ClosedHoldsPaths(g: Graph, s: set<string>, p: seq<string>)
    requires Closed(g, s) && g.IsPath(p) && p[0] in s
    ensures p[|p| - 1] in s
    decreases |p|
  {
    var n := |p| - 1;
    if n == 0 {
    } else {
      ClosedHoldsPaths(g, s, p[..n]);
      assert g.Arc(p[n - 1], p[n]);
    }
  }

  lemma ReachedStart(g: Graph, starts: set<string>, v: string)
    requires v in starts && v in g.ids
    ensures Reached(g, starts, v)
  {
    assert g.IsPath([v]);
  }

  lemma ReachedStep(g: Graph, starts: set<string>, u: string, v: string)
    requires Reached(g, starts, u) && g.Arc(u, v)
    ensures Reached(g, starts, v)
  {
    var p :| g.IsPath(p) && p[0] in starts && p[|p| - 1] == u;
    var q := p + [v];
    assert g.IsPath(q) && q[0] in starts && q[|q| - 1] == v;
  }

  /** The first `i` steps are reached, or depend on nothing that is. */
  ghost predicate Settled(nodes: seq<Node>, edges: seq<Edge>, i: nat, s: set<string>) {
    forall k, d :: 0 <= k < i <= |nodes| && d in s && d in Deps(edges, nodes[k].id) ==> nodes[k].id in s
  }

  lemma SettledIsClosed(nodes: seq<Node>, edges: seq<Edge>, s: set<string>)
    requires Settled(nodes, edges, |nodes|, s)
    ensures Closed(GraphOf(nodes, edges), s)
  {
    var g := GraphOf(nodes, edges);
    forall u, v | u in s && g.Arc(u, v) ensures v in s {
      var k :| 0 <= k < |nodes| && Ids(nodes)[k] == v;
      assert nodes[k].id == v && u in Deps(edges, v);
    }
  }

  /** One pass over the steps: those with a reached dependency join. */
  method Pass(nodes: seq<Node>, edges: seq<Edge>, deps: map<string, seq<string>>, before: set<string>)
    returns (reachable: set<string>, changed: bool)
    requires deps.Keys == Elements(Ids(nodes)) && forall v :: v in deps ==> deps[v] == Deps(edges, v)
    requires StartIds(nodes) <= before <= deps.Keys
    requires forall v :: v in before ==> Reached(GraphOf(nodes, edges), StartIds(nodes), v)
    ensures before <= reachable <= deps.Keys
    ensures forall v :: v in reachable ==> Reached(GraphOf(nodes, edges), StartIds(nodes), v)
    ensures changed <==> reachable != before
    ensures !changed ==> Closed(GraphOf(nodes, edges), reachable)
  {
    hide Reached, Closed, StartIds, Elements;
    ghost var g := GraphOf(nodes, edges);
    reachable, changed := before, false;
    for i := 0 to |nodes|
      invariant before <= reachable <= deps.Keys
      invariant forall v :: v in reachable ==> Reached(g, StartIds(nodes), v)
      invariant changed <==> reachable != before
      invariant !changed ==> Settled(nodes, edges, i, before)
    {
      var id := nodes[i].id;
      NodeKnown(nodes, i);
      if id !in reachable {
        var ds := deps[id];
        if ds != [] && exists d :: d in ds && d in reachable {
          ghost var d :| d in ds && d in reachable;
          assert g.Arc(d, id);
          ReachedStep(g, StartIds(nodes), d, id);
          reachable := reachable + {id};
          changed := true;
        }
      }
    }
    if !changed {
      SettledIsClosed(nodes, edges, reachable);
    }
  }

  lemma NodeKnown(nodes: seq<Node>, i: nat)
    requires i < |nodes|
    ensures nodes[i].id in Elements(Ids(nodes))
  {
    assert Ids(nodes)[i] == nodes[i].id;
  }

  /** The steps reached from a start, by passes until one changes nothing. */
  method ReachableSteps(nodes: seq<Node>, edges: seq<Edge>, deps: map<string, seq<string>>)
    returns (reachable: set<string>)
    requires deps.Keys == Elements(Ids(nodes)) && forall v :: v in deps ==> deps[v] == Deps(edges, v)
    ensures forall v :: v in reachable <==> Reached(GraphOf(nodes, edges), StartIds(nodes), v)
  {
    ghost var g := GraphOf(nodes, edges);
    hide Reached;
    reachable := StartIds(nodes);
    StartsKnown(nodes);
    forall v | v in reachable ensures Reached(g, StartIds(nodes), v) {
      ReachedStart(g, StartIds(nodes), v);
    }
    var changed := true;
    while changed
      invariant StartIds(nodes) <= reachable <= deps.Keys
      invariant forall v :: v in reachable ==> Reached(g, StartIds(nodes), v)
      invariant !changed ==> Closed(g, reachable)
      decreases |deps.Keys| - |reachable|, changed
    {
      var before := reachable;
      reachable, changed := Pass(nodes, edges, deps, before);
      SubsetSize(before, reachable);
      SubsetSize(reachable, deps.Keys);
    }
    forall v ensures Reached(g, StartIds(nodes), v) ==> v in reachable {
      if Reached(g, StartIds(nodes), v) {
        ReachedInClosed(g, StartIds(nodes), reachable, v);
      }
    }
  }

  lemma StartsKnown(nodes: seq<Node>)
    ensures StartIds(nodes) <= Elements(Ids(nodes))
  {
    forall v | v in StartIds(nodes) ensures v in Ids(nodes) {
      var n :| n in nodes && n.start && n.id == v;
      var i :| 0 <= i < |nodes| && nodes[i] == n;
      assert Ids(nodes)[i] == v;
    }
  }

  lemma ReachedInClosed(g: Graph, starts: set<string>, s: set<string>, v: string)
    requires starts <= s && Closed(g, s) && Reached(g, starts, v)
    ensures v in s
  {
    var p :| g.IsPath(p) && p[0] in starts && p[|p| - 1] == v;
    ClosedHoldsPaths(g, s, p);
  }

  // --- the rules on one step's edges -----------------------------------------

  ghost predicate NodeProblem(n: Node, ids: set<string>, ds: seq<string>, p: Problem) {
    match p
    case StartDepends(v) => v == n.id && n.start && ds != []
    case NothingBefore(v) => v == n.id && !n.start && ds == []
    case UnknownDependency(v, d) => v == n.id && d in ds && d !in ids
    case DependsOnItself(v) => v == n.id && v in ds
    case _ => false
  }

  method NodeProblems(n: Node, ids: set<string>, ds: seq<string>) returns (errors: seq<Problem>)
    ensures forall p :: p in errors <==> NodeProblem(n, ids, ds, p)
  {
    errors := [];
    if n.start && ds != [] {
      errors := errors + [StartDepends(n.id)];
    }
    if !n.start && ds == [] {
      errors := errors + [NothingBefore(n.id)];
    }
    for i := 0 to |ds|
      invariant forall p :: p in errors <==>
                  NodeProblem(n, ids, ds, p) && (p.UnknownDependency? ==> p.on in ds[..i]) && (p.DependsOnItself? ==>
                      n.id in ds[..i])
    {
      if ds[i] !in ids {
        errors := errors + [UnknownDependency(n.id, ds[i])];
      }
      if ds[i] == n.id {
        errors := errors + [DependsOnItself(n.id)];
      }
    }
  }

  ghost predicate EdgeProblem(nodes: seq<Node>, edges: seq<Edge>, p: Problem) {
    exists n :: n in nodes && NodeProblem(n, Elements(Ids(nodes)), Deps(edges, n.id), p)
  }

  // --- the whole check -------------------------------------------------------

  /** A graph in order: it has steps, each its own, none waits for itself, the starts are
      exactly the steps that depend on nothing, and every dependency is a step. */
  ghost predicate Sound(nodes: seq<Node>, edges: seq<Edge>) {
    && nodes != []
    && Distinct(Ids(nodes))
    && GraphOf(nodes, edges).Acyclic()
    && (forall n :: n in nodes ==> (n.start <==> Deps(edges, n.id) == []))
    && (forall n, d :: n in nodes && d in Deps(edges, n.id) ==> d in Elements(Ids(nodes)))
  }

  /** In a graph that obeys the edge and cycle rules, the reachability rule cannot fail. */
  lemma AllReached(nodes: seq<Node>, edges: seq<Edge>, v: string)
    requires GraphOf(nodes, edges).Acyclic()
    requires forall n :: n in nodes && Deps(edges, n.id) == [] ==> n.start
    requires forall n, d :: n in nodes && d in Deps(edges, n.id) ==> d in Elements(Ids(nodes))
    requires v in Elements(Ids(nodes))
    ensures Reached(GraphOf(nodes, edges), StartIds(nodes), v)
  {
    hide Reached, Graph.OnCycle;
    var g, starts := GraphOf(nodes, edges), StartIds(nodes);
    var done := set u | u in g.ids && Reached(g, starts, u);
    forall u | u in g.ids && u !in done ensures exists d :: g.Arc(d, u) && d !in done {
      var k :| 0 <= k < |nodes| && Ids(nodes)[k] == u;
      var n := nodes[k];
      if n.start {
        ReachedStart(g, starts, u);
      } else {
        var d := Deps(edges, u)[0];
        assert d in Deps(edges, n.id);
        assert g.Arc(d, u);
        if d in done {
          ReachedStep(g, starts, d, u);
        }
      }
    }
    if v !in done {
      BlockedIsStuck(g, done, v);
    }
  }

  method BuildDeps(nodes: seq<Node>, edges: seq<Edge>) returns (deps: map<string, seq<string>>)
    ensures deps.Keys == Elements(Ids(nodes)) && forall v :: v in deps ==> deps[v] == Deps(edges, v)
  {
    hide Listed, Ends;
    ghost var g := GraphOf(nodes, edges);
    deps := map id | id in Elements(Ids(nodes)) :: [];
    ListedStart(g, Into, None, deps);
    for i := 0 to |edges|
      invariant deps.Keys == g.ids && Listed(g, i, Into, None, deps)
    {
      var e := edges[i];
      ListedStep(g, i, Into, None, deps);
      if e.target in deps {
        deps := deps[e.target := deps[e.target] + [e.source]];
      }
    }
    ListedEnd(g, Into, None, deps);
  }

  method EdgeProblems(nodes: seq<Node>, edges: seq<Edge>, deps: map<string, seq<string>>) returns (errors: seq<Problem>)
    requires deps.Keys == Elements(Ids(nodes)) && forall v :: v in deps ==> deps[v] == Deps(edges, v)
    ensures forall p :: p in errors <==> EdgeProblem(nodes, edges, p)
  {
    hide NodeProblem, ProblemAmong, Deps;
    errors := [];
    ghost var ids := deps.Keys;
    NoProblems(nodes, ids, edges);
    for i := 0 to |nodes|
      invariant forall p :: p in errors <==> ProblemAmong(nodes, i, ids, edges, p)
    {
      NodeKnown(nodes, i);
      var more := NodeProblems(nodes[i], deps.Keys, deps[nodes[i].id]);
      errors := errors + more;
      MoreProblems(nodes, i, ids, edges);
    }
    AllProblems(nodes, edges);
  }

  /** The problem is one of the first `i` nodes. */
  ghost predicate ProblemAmong(nodes: seq<Node>, i: nat, ids: set<string>, edges: seq<Edge>, p: Problem) {
    exists k :: 0 <= k < i && k < |nodes| && NodeProblem(nodes[k], ids, Deps(edges, nodes[k].id), p)
  }

  lemma NoProblems(nodes: seq<Node>, ids: set<string>, edges: seq<Edge>)
    ensures forall p :: !ProblemAmong(nodes, 0, ids, edges, p)
  {
  }

  lemma MoreProblems(nodes: seq<Node>, i: nat, ids: set<string>, edges: seq<Edge>)
    requires i < |nodes|
    ensures forall p :: ProblemAmong(nodes, i + 1, ids, edges, p) <==>
              ProblemAmong(nodes, i, ids, edges, p) || NodeProblem(nodes[i], ids, Deps(edges, nodes[i].id), p)
  {
    hide NodeProblem, Deps;
  }

  lemma AllProblems(nodes: seq<Node>, edges: seq<Edge>)
    ensures forall p :: ProblemAmong(nodes, |nodes|, Elements(Ids(nodes)), edges, p) <==> EdgeProblem(nodes, edges, p)
  {
    hide NodeProblem, Deps;
    forall p, n | n in nodes && NodeProblem(n, Elements(Ids(nodes)), Deps(edges, n.id), p)
      ensures ProblemAmong(nodes, |nodes|, Elements(Ids(nodes)), edges, p)
    {
      var k :| 0 <= k < |nodes| && nodes[k] == n;
    }
  }

  method CycleProblems(nodes: seq<Node>, order: seq<string>) returns (errors: seq<Problem>)
    ensures |order| == |nodes| ==> errors == []
    ensures |order| != |nodes| ==> errors != [] && errors[0].CycleAmong?
    ensures |order| != |nodes| ==> forall v :: InCycle(v) in errors <==> v in Ids(nodes) && v !in order
    ensures forall p :: p in errors ==> p.CycleAmong? || p.InCycle?
    ensures forall us, v :: CycleAmong(us) in errors ==> (v in us <==> v in Ids(nodes) && v !in order)
  {
    if |order| == |nodes| {
      return [];
    }
    var stuck, marks: seq<Problem> := [], [];
    for i := 0 to |nodes|
      invariant forall v :: InCycle(v) in marks <==> v in Ids(nodes)[..i] && v !in order
      invariant forall p :: p in marks ==> p.InCycle?
      invariant forall v :: v in stuck <==> v in Ids(nodes)[..i] && v !in order
    {
      if nodes[i].id !in order {
        stuck := stuck + [nodes[i].id];
        marks := marks + [InCycle(nodes[i].id)];
      }
    }
    assert Ids(nodes)[..|nodes|] == Ids(nodes);
    errors := [CycleAmong(stuck)] + marks;
  }

  method ReachProblems(nodes: seq<Node>, reachable: set<string>) returns (errors: seq<Problem>)
    ensures forall p :: p in errors <==> p.Unreachable? && p.id in Ids(nodes) && p.id !in reachable
  {
    errors := [];
    for i := 0 to |nodes|
      invariant forall p :: p in errors <==> p.Unreachable? && p.id in Ids(nodes)[..i] && p.id !in reachable
    {
      if nodes[i].id !in reachable {
        errors := errors + [Unreachable(nodes[i].id)];
      }
    }
    assert Ids(nodes)[..|nodes|] == Ids(nodes);
  }

  /** Without an edge problem or a cycle the graph is sound. */
  lemma RulesMakeSound(nodes: seq<Node>, edges: seq<Edge>)
    requires nodes != [] && (forall p :: !EdgeProblem(nodes, edges, p))
    requires GraphOf(nodes, edges).Acyclic() && Distinct(Ids(nodes))
    ensures Sound(nodes, edges)
  {
    hide Graph.OnCycle, Graph.Acyclic;
    var ids := Elements(Ids(nodes));
    forall n | n in nodes ensures n.start <==> Deps(edges, n.id) == [] {
      assert !EdgeProblem(nodes, edges, StartDepends(n.id)) && !EdgeProblem(nodes, edges, NothingBefore(n.id));
      assert !NodeProblem(n, ids, Deps(edges, n.id), StartDepends(n.id));
      assert !NodeProblem(n, ids, Deps(edges, n.id), NothingBefore(n.id));
    }
    forall n, d | n in nodes && d in Deps(edges, n.id) ensures d in ids {
      assert !EdgeProblem(nodes, edges, UnknownDependency(n.id, d));
      assert !NodeProblem(n, ids, Deps(edges, n.id), UnknownDependency(n.id, d));
    }
  }

  /** A sound graph has no problem of any kind, and a start. */
  lemma SoundHasNoProblem(nodes: seq<Node>, edges: seq<Edge>)
    requires Sound(nodes, edges)
    ensures forall p :: !EdgeProblem(nodes, edges, p)
    ensures forall v :: v in Elements(Ids(nodes)) ==> Reached(GraphOf(nodes, edges), StartIds(nodes), v)
    ensures exists n :: n in nodes && n.start
  {
    var g := GraphOf(nodes, edges);
    hide Reached, Graph.OnCycle, NodeProblem, Deps, Distinct;
    forall v | v in Elements(Ids(nodes)) ensures Reached(g, StartIds(nodes), v) {
      AllReached(nodes, edges, v);
    }
    NodeKnown(nodes, 0);
    ReachedHasStart(g, StartIds(nodes), nodes[0].id);
    forall n, p | n in nodes ensures !NodeProblem(n, g.ids, Deps(edges, n.id), p) {
      SoundNode(nodes, edges, n, p);
    }
  }

  lemma SoundNode(nodes: seq<Node>, edges: seq<Edge>, n: Node, p: Problem)
    requires Sound(nodes, edges) && n in nodes
    ensures !NodeProblem(n, Elements(Ids(nodes)), Deps(edges, n.id), p)
  {
    var g := GraphOf(nodes, edges);
    hide Graph.OnCycle, Distinct;
    if p.DependsOnItself? && n.id in Deps(edges, n.id) {
      var k :| 0 <= k < |nodes| && nodes[k] == n;
      NodeKnown(nodes, k);
      assert g.IsPath([n.id, n.id]);
      CycleAt(g, [n.id, n.id]);
    }
  }

  lemma ReachedHasStart(g: Graph, starts: set<string>, v: string)
    requires Reached(g, starts, v)
    ensures starts != {}
  {
  }

  /** What each rule reports of a graph with steps. */
  method Rules(nodes: seq<Node>, edges: seq<Edge>)
    returns (edgeErrors: seq<Problem>, noStart: seq<Problem>, cycleErrors: seq<Problem>, reachErrors: seq<Problem>)
    requires nodes != []
    ensures forall p :: p in edgeErrors <==> EdgeProblem(nodes, edges, p)
    ensures noStart == if exists n :: n in nodes && n.start then [] else [NoStart]
    ensures cycleErrors == [] <==> GraphOf(nodes, edges).Acyclic() && Distinct(Ids(nodes))
    ensures cycleErrors != [] ==> cycleErrors[0].CycleAmong?
    ensures forall p :: p in cycleErrors ==> p.CycleAmong? || p.InCycle?
    ensures forall v :: v in Ids(nodes) ==> (InCycle(v) in cycleErrors <==> GraphOf(nodes, edges).Stuck(v))
    ensures forall us, v :: CycleAmong(us) in cycleErrors ==>
              (v in us <==> v in Ids(nodes) && GraphOf(nodes, edges).Stuck(v))
    ensures forall p :: p in reachErrors <==>
              p.Unreachable? && p.id in Ids(nodes) && !Reached(GraphOf(nodes, edges), StartIds(nodes), p.id)
  {
    hide Reached, Graph.Stuck, Graph.Acyclic, Distinct, Respects, Blocked, EdgeProblem, Deps;
    var deps := BuildDeps(nodes, edges);
    edgeErrors := EdgeProblems(nodes, edges, deps);
    noStart := if exists n :: n in nodes && n.start then [] else [NoStart];
    var order := TopoOrder(Ids(nodes), edges);
    cycleErrors := CycleProblems(nodes, order);
    CycleRuleExact(Ids(nodes), edges, order);
    AcyclicNeverStuck(GraphOf(nodes, edges));
    var reachable := ReachableSteps(nodes, edges, deps);
    reachErrors := ReachProblems(nodes, reachable);
  }

  /** The editor's check. It is silent exactly on sound graphs: the rule that there is a start
      and the rule that every step is reached never fire on their own. */
  method Validate(nodes: seq<Node>, edges: seq<Edge>) returns (errors: seq<Problem>)
    ensures errors == [] <==> Sound(nodes, edges)
    ensures nodes == [] ==> errors == [NoSteps]
    ensures nodes != [] ==> forall v :: v in Ids(nodes) ==>
              && (InCycle(v) in errors <==> GraphOf(nodes, edges).Stuck(v))
              && (Unreachable(v) in errors <==> !Reached(GraphOf(nodes, edges), StartIds(nodes), v))
    ensures nodes != [] ==> (NoStart in errors <==> forall n :: n in nodes ==> !n.start)
    ensures forall us, v :: CycleAmong(us) in errors ==>
              (v in us <==> v in Ids(nodes) && GraphOf(nodes, edges).Stuck(v))
    ensures nodes != [] ==> forall p :: p in errors ==>
              EdgeProblem(nodes, edges, p) || p.NoStart? || p.CycleAmong? || p.InCycle? || p.Unreachable?
    ensures nodes != [] ==> forall p :: EdgeProblem(nodes, edges, p) ==> p in errors
    ensures errors != [] ==> exists p :: p in errors && !p.NoStart? && !p.Unreachable?
  {
    hide Reached, Graph.Stuck, Graph.Acyclic, Distinct, EdgeProblem, Sound, Ids, StartIds, GraphOf;
    if nodes == [] {
      NoStepsNotSound(edges);
      errors := [NoSteps];
      assert NoSteps in errors;
      return;
    }
    var edgeErrors, noStart, cycleErrors, reachErrors := Rules(nodes, edges);
    errors := edgeErrors + noStart + cycleErrors + reachErrors;
    InOneOf(edgeErrors, noStart, cycleErrors, reachErrors);
    EdgeProblemKinds(nodes, edges);
    Verdict(nodes, edges, edgeErrors, noStart, cycleErrors, reachErrors);
    if edgeErrors + cycleErrors != [] {
      SomeIn(edgeErrors + cycleErrors);
      ghost var p :| p in edgeErrors + cycleErrors;
      assert p in errors;
    }
  }

  lemma InOneOf(a: seq<Problem>, b: seq<Problem>, c: seq<Problem>, d: seq<Problem>)
    ensures forall p :: p in a + b + c + d <==> p in a || p in b || p in c || p in d
  {
  }

  lemma NoStepsNotSound(edges: seq<Edge>)
    ensures !Sound([], edges)
  {
  }

  lemma EdgeProblemKinds(nodes: seq<Node>, edges: seq<Edge>)
    ensures forall p :: EdgeProblem(nodes, edges, p) ==> !p.NoStart? && !p.CycleAmong? && !p.InCycle? && !p.Unreachable?
  {
  }

  lemma Verdict(nodes: seq<Node>, edges: seq<Edge>, edgeErrors: seq<Problem>, noStart: seq<Problem>,
                cycleErrors: seq<Problem>, reachErrors: seq<Problem>)
    requires nodes != []
    requires forall p :: p in edgeErrors <==> EdgeProblem(nodes, edges, p)
    requires noStart == if exists n :: n in nodes && n.start then [] else [NoStart]
    requires cycleErrors == [] <==> GraphOf(nodes, edges).Acyclic() && Distinct(Ids(nodes))
    requires forall p :: p in cycleErrors ==> p.CycleAmong? || p.InCycle?
    requires forall p :: p in reachErrors <==>
               p.Unreachable? && p.id in Ids(nodes) && !Reached(GraphOf(nodes, edges), StartIds(nodes), p.id)
    ensures edgeErrors + noStart + cycleErrors + reachErrors == [] <==> Sound(nodes, edges)
    ensures edgeErrors == [] && cycleErrors == [] ==> noStart == [] && reachErrors == []
  {
    hide Reached, Graph.Acyclic, Distinct, EdgeProblem, Deps;
    if edgeErrors == [] && cycleErrors == [] {
      RulesMakeSound(nodes, edges);
      SoundHasNoProblem(nodes, edges);
      if reachErrors != [] {
        SomeIn(reachErrors);
      }
    } else if Sound(nodes, edges) {
      SoundHasNoProblem(nodes, edges);
      if edgeErrors != [] {
        SomeIn(edgeErrors);
      }
    }
  }

  lemma SomeIn(errors: seq<Problem>)
    requires errors != []
    ensures exists p :: p in errors
  {
    assert errors[0] in errors;
  }

  lemma AcyclicNeverStuck(g: Graph)
    ensures g.Acyclic() ==> forall v :: !g.Stuck(v)
  {
  }
}
