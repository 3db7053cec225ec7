/** The editor's topological order: Kahn's algorithm over in-degree and successor maps. */
module Kahn {
  import opened Wrappers
  import opened Graphs

  // --- counting edges --------------------------------------------------------

  /** How many known edges into `t` have a source that is not done. */
  function Pending(g: Graph, edges: seq<Edge>, done: seq<string>, t: string): nat {
    if edges == [] then 0
    else
      var last := |edges| - 1;
      var e := edges[last];
      Pending(g, edges[..last], done, t)
      + (if g.Known(e) && e.target == t && e.source !in done then 1 else 0)
  }

  /** The targets of the known edges out of `s`, in edge order. */
  function Targets(g: Graph, edges: seq<Edge>, s: string): seq<string> {
    Ends(edges, s, OutOf, Some(g.ids))
  }

  function Count(ts: seq<string>, t: string): nat {
    if ts == [] then 0 else Count(ts[..|ts| - 1], t) + (if ts[|ts| - 1] == t then 1 else 0)
  }

  /** Nothing is pending exactly when every known source is done. */
  lemma {:induction false} PendingZero(g: Graph, edges: seq<Edge>, done: seq<string>, t: string)
    ensures Pending(g, edges, done, t) == 0 <==>
            forall e :: e in edges && g.Known(e) && e.target == t ==> e.source in done
  {
    if edges == [] {
    } else {
      var last := |edges| - 1;
      PendingZero(g, edges[..last], done, t);
      assert edges == edges[..last] + [edges[last]];
    }
  }

  /** Finishing a step takes its own edges off the count. */
  lemma {:induction false} PendingStep(g: Graph, edges: seq<Edge>, done: seq<string>, id: string, t: string)
    requires id !in done
    ensures Pending(g, edges, done, t) == Pending(g, edges, done + [id], t) + Count(Targets(g, edges, id), t)
  {
    if edges == [] {
    } else {
      var last := |edges| - 1;
      PendingStep(g, edges[..last], done, id, t);
      TargetsStep(g, edges, id);
      hide Count, Ends, Targets;
      CountConcat(Targets(g, edges[..last], id), edges[last].target, t);
    }
  }

  lemma TargetsStep(g: Graph, edges: seq<Edge>, id: string)
    requires edges != []
    ensures var last := |edges| - 1;
            Targets(g, edges, id) ==
            Targets(g, edges[..last], id)
            + (if g.Known(edges[last]) && edges[last].source == id then [edges[last].target] else [])
  {
  }

  lemma CountConcat(ts: seq<string>, u: string, t: string)
    ensures Count(ts + [u], t) == Count(ts, t) + (if u == t then 1 else 0)
    ensures ts + [] == ts
  {
    assert (ts + [u])[..|ts|] == ts;
  }

  lemma {:induction false} CountPrefix(ts: seq<string>, j: nat)
    requires j < |ts|
    ensures Count(ts[..j], ts[j]) < Count(ts, ts[j])
    decreases |ts|
  {
    var last := |ts| - 1;
    if j < last {
      CountPrefix(ts[..last], j);
      assert ts[..last][..j] == ts[..j];
    }
  }

  // --- the maps and the queue ------------------------------------------------

  /** The in-degrees count what is pending, and zero is what is ordered or queued, once each. */
  ghost predicate Exact(g: Graph, indeg: map<string, int>, order: seq<string>) {
    indeg.Keys == g.ids && forall v :: v in g.ids ==> indeg[v] == Pending(g, g.edges, order, v)
  }

  ghost predicate Ready(g: Graph, indeg: map<string, int>, all: seq<string>) {
    && indeg.Keys == g.ids
    && Distinct(all)
    && Elements(all) <= g.ids
    && forall v :: v in g.ids ==> (indeg[v] == 0 <==> v in all)
  }

  /** The ids in the order a map of them is gone through: each at its first place. */
  function Dedup(s: seq<string>): (r: seq<string>)
    ensures Distinct(r) && Elements(r) == Elements(s)
  {
    if s == [] then []
    else
      var r := Dedup(s[..|s| - 1]);
      assert Elements(s) == Elements(s[..|s| - 1]) + {s[|s| - 1]};
      if s[|s| - 1] in r then r else r + [s[|s| - 1]]
  }

  /** The in-degrees once the first `i` edges were gone through. */
  ghost predicate Counted(g: Graph, i: nat, indeg: map<string, int>) {
    && i <= |g.edges| && indeg.Keys == g.ids
    && forall v :: v in g.ids ==> indeg[v] == Pending(g, g.edges[..i], [], v)
  }

  method BuildMaps(g: Graph) returns (indeg: map<string, int>, out: map<string, seq<string>>)
    ensures Exact(g, indeg, [])
    ensures out.Keys == g.ids && forall v :: v in g.ids ==> out[v] == Targets(g, g.edges, v)
  {
    hide Counted, Listed, Pending, Ends;
    indeg := map id | id in g.ids :: 0;
    out := map id | id in g.ids :: [];
    NothingCounted(g, indeg);
    ListedStart(g, OutOf, Some(g.ids), out);
    for i := 0 to |g.edges|
      invariant indeg.Keys == out.Keys == g.ids
      invariant Counted(g, i, indeg) && Listed(g, i, OutOf, Some(g.ids), out)
    {
      var e := g.edges[i];
      OneCounted(g, i, indeg);
      ListedStep(g, i, OutOf, Some(g.ids), out);
      if e.target in indeg && e.source in out {
        indeg := indeg[e.target := indeg[e.target] + 1];
        out := out[e.source := out[e.source] + [e.target]];
      }
    }
    AllCounted(g, indeg);
    ListedEnd(g, OutOf, Some(g.ids), out);
  }

  lemma NothingCounted(g: Graph, indeg: map<string, int>)
    requires indeg == map id | id in g.ids :: 0
    ensures Counted(g, 0, indeg)
  {
  }

  lemma OneCounted(g: Graph, i: nat, indeg: map<string, int>)
    requires i < |g.edges| && Counted(g, i, indeg)
    ensures indeg.Keys == g.ids
    ensures var e := g.edges[i];
            Counted(g, i + 1, if g.Known(e) then indeg[e.target := indeg[e.target] + 1] else indeg)
  {
    var es := g.edges[..i + 1];
    assert es[..|es| - 1] == g.edges[..i] && es[|es| - 1] == g.edges[i];
  }

  lemma AllCounted(g: Graph, indeg: map<string, int>)
    requires Counted(g, |g.edges|, indeg)
    ensures Exact(g, indeg, [])
  {
    assert g.edges[..|g.edges|] == g.edges;
  }

  /** The first queue: the steps nothing is pending for. */
  method Roots(ghost g: Graph, keys: seq<string>, indeg: map<string, int>) returns (queue: seq<string>)
    requires Distinct(keys) && Elements(keys) == g.ids && indeg.Keys == g.ids
    ensures Ready(g, indeg, queue)
  {
    queue := [];
    for i := 0 to |keys|
      invariant Distinct(queue)
      invariant forall v :: v in queue <==> v in keys[..i] && v in g.ids && indeg[v] == 0
    {
      assert keys[i] in Elements(keys);
      if indeg[keys[i]] == 0 {
        queue := queue + [keys[i]];
      }
    }
    assert forall v :: v in g.ids ==> v in keys[..|keys|];
  }

  /** Take one edge off the in-degree of each target, queueing those it leaves at zero. */
  method Release(ghost g: Graph, ghost order: seq<string>, ts: seq<string>, indeg: map<string, int>, queue: seq<string>)
    returns (indeg': map<string, int>, queue': seq<string>)
    requires Ready(g, indeg, order + queue)
    requires forall t :: t in ts ==> t in g.ids
    requires forall v :: v in g.ids ==> Count(ts, v) <= indeg[v]
    ensures Ready(g, indeg', order + queue') && indeg'.Keys == g.ids
    ensures forall v :: v in g.ids ==> indeg'[v] == indeg[v] - Count(ts, v)
  {
    indeg', queue' := indeg, queue;
    for j := 0 to |ts|
      invariant Ready(g, indeg', order + queue')
      invariant forall v :: v in g.ids ==> indeg'[v] == indeg[v] - Count(ts[..j], v)
    {
      var t := ts[j];
      CountPrefix(ts, j);
      assert ts[..j + 1] == ts[..j] + [t];
      forall v ensures Count(ts[..j + 1], v) == Count(ts[..j], v) + (if v == t then 1 else 0) {
        CountConcat(ts[..j], t, v);
      }
      assert t !in order + queue';
      indeg' := indeg'[t := indeg'[t] - 1];
      if indeg'[t] == 0 {
        assert order + (queue' + [t]) == order + queue' + [t];
        queue' := queue' + [t];
      }
    }
    assert ts[..|ts|] == ts;
  }

  /** As much of a topological order as the graph has: steps join once nothing is pending for
      them. */
  method TopoOrder(nodes: seq<string>, edges: seq<Edge>) returns (order: seq<string>)
    ensures var g := Graph(Elements(nodes), edges);
            && Distinct(order) && Elements(order) <= g.ids
            && Respects(g, order)
            && Blocked(g, Elements(order))
  {
    var g := Graph(Elements(nodes), edges);
    var indeg, out := BuildMaps(g);
    var queue := Roots(g, Dedup(nodes), indeg);
    order := [];
    assert order + queue == queue;
    while queue != []
      invariant out.Keys == g.ids && forall v :: v in g.ids ==> out[v] == Targets(g, g.edges, v)
      invariant Ready(g, indeg, order + queue) && Exact(g, indeg, order)
      invariant Respects(g, order)
      decreases |g.ids| - |order|
    {
      hide Elements, Targets, Count, Ready, Exact, Respects;
      var id := queue[0];
      NextInOrder(g, order, queue, indeg);
      ReleaseFits(g, order, id, indeg, out[id]);
      ghost var before := indeg;
      indeg, queue := Release(g, order + [id], out[id], indeg, queue[1..]);
      Released(g, order, id, before, indeg, out[id]);
      order := order + [id];
    }
    assert order + queue == order;
    NothingWaits(g, order, indeg);
  }

  lemma NextInOrder(g: Graph, order: seq<string>, queue: seq<string>, indeg: map<string, int>)
    requires queue != [] && Ready(g, indeg, order + queue) && Exact(g, indeg, order) && Respects(g, order)
    ensures queue[0] !in order && queue[0] in g.ids
    ensures order + [queue[0]] + queue[1..] == order + queue
    ensures Respects(g, order + [queue[0]])
    ensures |order| < |g.ids|
  {
    var id := queue[0];
    var all := order + queue;
    assert all[|order|] == id;
    assert id in Elements(all);
    forall i | 0 <= i < |order| ensures order[i] != id {
      assert all[i] != all[|order|];
    }
    PendingZero(g, g.edges, order, id);
    RespectsAppend(g, order, id);
    DistinctFits(all, g.ids);
  }

  lemma RespectsAppend(g: Graph, order: seq<string>, id: string)
    requires Respects(g, order) && forall u :: g.Arc(u, id) ==> u in order
    ensures Respects(g, order + [id])
  {
    var order' := order + [id];
    forall j, u | 0 <= j < |order'| && g.Arc(u, order'[j]) ensures u in order'[..j] {
      if j < |order| {
        assert u in order[..j] && order'[..j] == order[..j];
      } else {
        assert order'[..j] == order;
      }
    }
  }

  lemma Released(g: Graph, order: seq<string>, id: string, indeg: map<string, int>, indeg': map<string, int>,
                 ts: seq<string>)
    requires Exact(g, indeg, order) && id !in order && ts == Targets(g, g.edges, id) && indeg'.Keys == g.ids
    requires forall v :: v in g.ids ==> indeg'[v] == indeg[v] - Count(ts, v)
    ensures Exact(g, indeg', order + [id])
  {
    hide Targets, Pending, Count;
    ReleaseFits(g, order, id, indeg, ts);
  }

  lemma ReleaseFits(g: Graph, order: seq<string>, id: string, indeg: map<string, int>, ts: seq<string>)
    requires Exact(g, indeg, order) && id !in order && ts == Targets(g, g.edges, id)
    ensures indeg.Keys == g.ids && forall t :: t in ts ==> t in g.ids
    ensures forall v :: v in g.ids ==>
              Count(ts, v) <= indeg[v] && Pending(g, g.edges, order + [id], v) == indeg[v] - Count(ts, v)
  {
    forall v | v in g.ids
      ensures Count(ts, v) <= indeg[v] && Pending(g, g.edges, order + [id], v) == indeg[v] - Count(ts, v)
    {
      PendingStep(g, g.edges, order, id, v);
    }
  }

  lemma NothingWaits(g: Graph, order: seq<string>, indeg: map<string, int>)
    requires Ready(g, indeg, order) && Exact(g, indeg, order)
    ensures Blocked(g, Elements(order))
  {
    forall v | v in g.ids && v !in Elements(order) ensures exists u :: g.Arc(u, v) && u !in Elements(order) {
      PendingZero(g, g.edges, order, v);
      var e :| e in g.edges && g.Known(e) && e.target == v && e.source !in order;
      assert g.Arc(e.source, v);
    }
  }

  /** What the cycle rule reports: the steps on a cycle or downstream of one, and none exactly
      when the graph has no cycle and every node its own id. */
  lemma CycleRuleExact(nodes: seq<string>, edges: seq<Edge>, order: seq<string>)
    requires var g := Graph(Elements(nodes), edges);
             Distinct(order) && Elements(order) <= g.ids && Respects(g, order) && Blocked(g, Elements(order))
    ensures var g := Graph(Elements(nodes), edges);
            && (forall v :: v in nodes ==> (v !in order <==> g.Stuck(v)))
            && (|order| == |nodes| <==> g.Acyclic() && Distinct(nodes))
  {
    hide Respects, Blocked, Graph.Stuck, Graph.Acyclic;
    var g := Graph(Elements(nodes), edges);
    forall v | v in nodes ensures v !in order <==> g.Stuck(v) {
      LeftOutExactly(g, order, v);
    }
    CompleteExactly(g, order);
    DistinctFits(order, g.ids);
    ElementsSize(nodes);
  }

  lemma {:induction false} ElementsSize(s: seq<string>)
    ensures |Elements(s)| <= |s| && (|Elements(s)| == |s| <==> Distinct(s))
  {
    if s == [] {
    } else {
      var init, x := s[..|s| - 1], s[|s| - 1];
      ElementsSize(init);
      DistinctLast(init, x);
      assert s == init + [x];
      assert Elements(s) == Elements(init) + {x};
    }
  }

  lemma DistinctLast(s: seq<string>, x: string)
    ensures Distinct(s + [x]) <==> Distinct(s) && x !in s
  {
    var t := s + [x];
    if x in s {
      var i :| 0 <= i < |s| && s[i] == x;
      assert t[i] == t[|s|];
    }
    if Distinct(t) {
      forall i, j | 0 <= i < j < |s| ensures s[i] != s[j] {
        assert t[i] != t[j];
      }
    }
  }
}
