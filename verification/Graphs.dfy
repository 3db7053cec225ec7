/** Directed graphs as the workflow editor holds them, and paths and cycles in them. */
module Graphs {
  import opened Wrappers

  datatype Edge = Edge(source: string, target: string)

  /** The steps a graph knows, and its edges; one that names an unknown step is ignored. */
  datatype Graph = Graph(ids: set<string>, edges: seq<Edge>) {

    predicate Known(e: Edge) {
      e.source in ids && e.target in ids
    }

    predicate Arc(u: string, v: string) {
      u in ids && v in ids && Edge(u, v) in edges
    }

    ghost predicate IsPath(p: seq<string>) {
      && |p| > 0
      && (forall i :: 0 <= i < |p| ==> p[i] in ids)
      && (forall i :: 0 < i < |p| ==> Arc(p[i - 1], p[i]))
    }

    ghost predicate Links(u: string, v: string, p: seq<string>) {
      IsPath(p) && p[0] == u && p[|p| - 1] == v
    }

    ghost predicate OnCycle(v: string) {
      exists p :: Links(v, v, p) && |p| > 1
    }

    ghost predicate Acyclic() {
      forall v :: !OnCycle(v)
    }

    /** On a cycle, or downstream of one. */
    ghost predicate Stuck(v: string) {
      exists p :: IsPath(p) && OnCycle(p[0]) && p[|p| - 1] == v
    }
  }

  // --- the edges at a step ---------------------------------------------------

  datatype Side = Into | OutOf

  function Near(e: Edge, side: Side): string {
    if side == Into then e.target else e.source
  }

  function Far(e: Edge, side: Side): string {
    if side == Into then e.source else e.target
  }

  /** Whether an edge is one between the given steps; any edge is when none are given. */
  predicate Between(e: Edge, ids: Option<set<string>>) {
    ids.Some? ==> e.source in ids.value && e.target in ids.value
  }

  /** The other ends of the edges into or out of `v`, in edge order. */
  function Ends(edges: seq<Edge>, v: string, side: Side, ids: Option<set<string>>): (us: seq<string>)
    ensures forall u :: u in us <==>
              var e := if side == Into then Edge(u, v) else Edge(v, u);
              e in edges && Between(e, ids)
  {
    if edges == [] then []
    else
      var last := |edges| - 1;
      var e := edges[last];
      assert edges == edges[..last] + [e];
      Ends(edges[..last], v, side, ids) + (if Between(e, ids) && Near(e, side) == v then [Far(e, side)] else [])
  }

  /** Each step's other ends, once the first `i` edges were gone through. */
  ghost predicate Listed(g: Graph, i: nat, side: Side, ids: Option<set<string>>, lists: map<string, seq<string>>) {
    && i <= |g.edges| && lists.Keys == g.ids
    && forall v :: v in g.ids ==> lists[v] == Ends(g.edges[..i], v, side, ids)
  }

  lemma ListedStart(g: Graph, side: Side, ids: Option<set<string>>, lists: map<string, seq<string>>)
    requires lists == map id | id in g.ids :: []
    ensures Listed(g, 0, side, ids, lists)
  {
  }

  lemma ListedStep(g: Graph, i: nat, side: Side, ids: Option<set<string>>, lists: map<string, seq<string>>)
    requires i < |g.edges| && Listed(g, i, side, ids, lists)
    ensures var e := g.edges[i];
            Listed(g, i + 1, side, ids,
                   if Between(e, ids) && Near(e, side) in g.ids
                   then lists[Near(e, side) := lists[Near(e, side)] + [Far(e, side)]]
                   else lists)
  {
    var es := g.edges[..i + 1];
    assert es[..|es| - 1] == g.edges[..i] && es[|es| - 1] == g.edges[i];
  }

  lemma ListedEnd(g: Graph, side: Side, ids: Option<set<string>>, lists: map<string, seq<string>>)
    requires Listed(g, |g.edges|, side, ids, lists)
    ensures lists.Keys == g.ids && forall v :: v in g.ids ==> lists[v] == Ends(g.edges, v, side, ids)
  {
    assert g.edges[..|g.edges|] == g.edges;
  }

  predicate Distinct(s: seq<string>) {
    forall i, j :: 0 <= i < j < |s| ==> s[i] != s[j]
  }

  function Elements(s: seq<string>): set<string> {
    set v | v in s
  }

  lemma {:induction false} DistinctSize(s: seq<string>)
    requires Distinct(s)
    ensures |Elements(s)| == |s|
  {
    if s == [] {
    } else {
      var last := |s| - 1;
      DistinctSize(s[..last]);
      assert Elements(s) == Elements(s[..last]) + {s[last]};
    }
  }

  lemma DistinctFits(s: seq<string>, ids: set<string>)
    requires Distinct(s) && Elements(s) <= ids
    ensures |s| <= |ids|
    ensures |s| == |ids| <==> Elements(s) == ids
  {
    DistinctSize(s);
    SubsetSize(Elements(s), ids);
  }

  lemma {:induction false} SubsetSize(a: set<string>, b: set<string>)
    requires a <= b
    ensures |a| <= |b| && (|a| == |b| <==> a == b)
  {
    if a == {} {
    } else {
      var x :| x in a;
      SubsetSize(a - {x}, b - {x});
    }
  }

  // --- orders that respect the edges -----------------------------------------

  /** Every step comes after every step it depends on. */
  ghost predicate Respects(g: Graph, order: seq<string>) {
    forall j, u :: 0 <= j < |order| && g.Arc(u, order[j]) ==> u in order[..j]
  }

  /** Every step left out waits for another that was left out. */
  ghost predicate Blocked(g: Graph, done: set<string>) {
    forall v :: v in g.ids && v !in done ==> exists u :: g.Arc(u, v) && u !in done
  }

  /** Along a path, positions in such an order only grow. */
  lemma {:induction false} PositionsGrow(g: Graph, order: seq<string>, p: seq<string>, j: nat)
    requires Respects(g, order) && g.IsPath(p)
    requires j < |order| && order[j] == p[|p| - 1]
    ensures if |p| == 1 then p[0] in order[..j + 1] else p[0] in order[..j]
    decreases |p|
  {
    var n := |p| - 1;
    if n == 0 {
    } else {
      assert g.Arc(p[n - 1], p[n]);
      assert p[n - 1] in order[..j];
      var i :| 0 <= i < j && order[i] == p[n - 1];
      PositionsGrow(g, order, p[..n], i);
    }
  }

  lemma CycleNeverOrdered(g: Graph, order: seq<string>, v: string)
    requires Respects(g, order) && g.OnCycle(v)
    ensures v !in order
  {
    var p :| g.Links(v, v, p) && |p| > 1;
    if v in order {
      FirstOccurrence(order, v);
      var j :| 0 <= j < |order| && order[j] == v && v !in order[..j];
      PositionsGrow(g, order, p, j);
    }
  }

  lemma {:induction false} FirstOccurrence(s: seq<string>, v: string)
    requires v in s
    ensures exists j :: 0 <= j < |s| && s[j] == v && v !in s[..j]
  {
    if s[0] != v {
      FirstOccurrence(s[1..], v);
      var j :| 0 <= j < |s[1..]| && s[1..][j] == v && v !in s[1..][..j];
      assert s[..j + 1] == [s[0]] + s[1..][..j];
      assert s[j + 1] == v;
    }
  }

  lemma StuckNeverOrdered(g: Graph, order: seq<string>, v: string)
    requires Respects(g, order) && g.Stuck(v)
    ensures v !in order
  {
    var p :| g.IsPath(p) && g.OnCycle(p[0]) && p[|p| - 1] == v;
    if v in order {
      var j :| 0 <= j < |order| && order[j] == v;
      PositionsGrow(g, order, p, j);
      assert p[0] in order;
      CycleNeverOrdered(g, order, p[0]);
    }
  }

  lemma PrependPath(g: Graph, u: string, p: seq<string>)
    requires g.IsPath(p) && g.Arc(u, p[0])
    ensures g.IsPath([u] + p)
  {
  }

  lemma PrefixPath(g: Graph, p: seq<string>, n: nat)
    requires g.IsPath(p) && 0 < n <= |p|
    ensures g.IsPath(p[..n])
  {
  }

  lemma CycleAt(g: Graph, p: seq<string>)
    requires g.IsPath(p) && |p| > 1 && p[0] == p[|p| - 1]
    ensures g.OnCycle(p[0])
  {
    assert g.Links(p[0], p[0], p);
  }

  lemma StuckAt(g: Graph, p: seq<string>)
    requires g.IsPath(p) && g.OnCycle(p[0])
    ensures g.Stuck(p[|p| - 1])
  {
  }

  lemma DistinctPrepend(u: string, p: seq<string>)
    requires Distinct(p) && u !in p
    ensures Distinct([u] + p)
  {
  }

  lemma PathFits(g: Graph, p: seq<string>)
    requires g.IsPath(p) && Distinct(p)
    ensures |p| <= |g.ids|
  {
    DistinctFits(p, g.ids);
  }

  /** Walking back through steps that were left out must come round to one seen before. */
  lemma {:induction false} WalkBack(g: Graph, done: set<string>, p: seq<string>)
    requires Blocked(g, done) && g.IsPath(p) && Distinct(p) && p[0] !in done
    ensures g.Stuck(p[|p| - 1])
    decreases |g.ids| - |p|
  {
    hide Graph.Stuck, Graph.OnCycle, Distinct;
    assert p[0] in g.ids;
    hide Graph.IsPath;
    var u :| g.Arc(u, p[0]) && u !in done;
    var q := [u] + p;
    PrependPath(g, u, p);
    PathFits(g, p);
    if u in p {
      var i :| 0 <= i < |p| && p[i] == u;
      PrefixPath(g, q, i + 2);
      CycleAt(g, q[..i + 2]);
      StuckAt(g, q);
    } else {
      DistinctPrepend(u, p);
      PathFits(g, q);
      WalkBack(g, done, q);
    }
  }

  lemma BlockedIsStuck(g: Graph, done: set<string>, v: string)
    requires Blocked(g, done) && v in g.ids && v !in done
    ensures g.Stuck(v)
  {
    hide Graph.Stuck, Blocked;
    assert g.IsPath([v]) && Distinct([v]);
    WalkBack(g, done, [v]);
  }

  /** An order that respects the edges and leaves only blocked steps out leaves out exactly
      the steps on a cycle or downstream of one. */
  lemma LeftOutExactly(g: Graph, order: seq<string>, v: string)
    requires Respects(g, order) && Blocked(g, Elements(order)) && v in g.ids
    ensures v !in order <==> g.Stuck(v)
  {
    hide Graph.Stuck, Respects, Blocked;
    if v !in order {
      BlockedIsStuck(g, Elements(order), v);
    } else if g.Stuck(v) {
      StuckNeverOrdered(g, order, v);
    }
  }

  /** So it is complete exactly when the graph has no cycle. */
  lemma CompleteExactly(g: Graph, order: seq<string>)
    requires Respects(g, order) && Blocked(g, Elements(order)) && Distinct(order) && Elements(order) <= g.ids
    ensures |order| == |g.ids| <==> g.Acyclic()
  {
    hide Respects, Blocked, Graph.OnCycle;
    DistinctFits(order, g.ids);
    if Elements(order) == g.ids {
      forall v ensures !g.OnCycle(v) {
        if g.OnCycle(v) {
          CycleNeverOrdered(g, order, v);
          CycleIsKnown(g, v);
        }
      }
    } else {
      var v :| v in g.ids && v !in order;
      LeftOutExactly(g, order, v);
    }
  }

  lemma CycleIsKnown(g: Graph, v: string)
    requires g.OnCycle(v)
    ensures v in g.ids
  {
  }
}
