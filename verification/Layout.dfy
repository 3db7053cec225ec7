/** The editor's layered layout: a memoised longest-path rank, then a row within the rank. */
module Layout {
  import opened Wrappers
  import opened Graphs

  // --- chains ----------------------------------------------------------------

  ghost predicate EndsAt(g: Graph, p: seq<string>, v: string) {
    g.IsPath(p) && p[|p| - 1] == v
  }

  /** `r` is the number of edges of the longest chain that reaches `v`. */
  ghost predicate Longest(g: Graph, v: string, r: int) {
    && (exists p :: EndsAt(g, p, v) && |p| == r + 1)
    && (forall p :: EndsAt(g, p, v) ==> |p| <= r + 1)
  }

  /** The known sources of the edges into `t`, in edge order. */
  function Preds(g: Graph, edges: seq<Edge>, t: string): seq<string> {
    Ends(edges, t, Into, Some(g.ids))
  }

  lemma LongestRoot(g: Graph, v: string)
    requires v in g.ids && forall u :: !g.Arc(u, v)
    ensures Longest(g, v, 0)
  {
    assert EndsAt(g, [v], v);
    forall p | EndsAt(g, p, v) ensures |p| <= 1 {
      if |p| > 1 {
        ChainPrefix(g, p, v);
      }
    }
  }

  lemma ExtendChain(g: Graph, p: seq<string>, u: string, v: string)
    requires EndsAt(g, p, u) && g.Arc(u, v)
    ensures EndsAt(g, p + [v], v)
  {
  }

  lemma ChainPrefix(g: Graph, p: seq<string>, v: string)
    requires EndsAt(g, p, v) && |p| > 1
    ensures EndsAt(g, p[..|p| - 1], p[|p| - 2]) && g.Arc(p[|p| - 2], v)
  {
  }

  /** One more than the greatest rank before it is the longest chain to `v`. */
  lemma LongestStep(g: Graph, v: string, ranks: map<string, int>, best: string)
    requires g.Arc(best, v) && best in ranks
    requires forall u :: g.Arc(u, v) ==> u in ranks && Longest(g, u, ranks[u]) && ranks[u] <= ranks[best]
    ensures Longest(g, v, ranks[best] + 1)
  {
    hide EndsAt, Graph.Arc;
    var p :| EndsAt(g, p, best) && |p| == ranks[best] + 1;
    ExtendChain(g, p, best, v);
    forall q | EndsAt(g, q, v) ensures |q| <= ranks[best] + 2 {
      if |q| > 1 {
        ChainPrefix(g, q, v);
      } else {
        ChainLength(g, p, best);
      }
    }
  }

  lemma ChainLength(g: Graph, p: seq<string>, v: string)
    requires EndsAt(g, p, v)
    ensures |p| > 0
  {
  }

  lemma LongestUnique(g: Graph, v: string, r: int, s: int)
    requires Longest(g, v, r) && Longest(g, v, s)
    ensures r == s
  {
    var p :| EndsAt(g, p, v) && |p| == r + 1;
    var q :| EndsAt(g, q, v) && |q| == s + 1;
  }

  /** Every edge goes to a strictly higher rank. */
  lemma RanksClimb(g: Graph, u: string, v: string, r: int, s: int)
    requires g.Arc(u, v) && Longest(g, u, r) && Longest(g, v, s)
    ensures r < s
  {
    var p :| EndsAt(g, p, u) && |p| == r + 1;
    ExtendChain(g, p, u, v);
  }

  ghost predicate LongestAll(g: Graph, nodes: seq<string>, ranks: seq<int>) {
    |ranks| == |nodes| && forall i :: 0 <= i < |nodes| ==> Longest(g, nodes[i], ranks[i])
  }

  lemma RanksUnique(g: Graph, nodes: seq<string>, ranks: seq<int>, other: seq<int>)
    requires LongestAll(g, nodes, ranks) && LongestAll(g, nodes, other)
    ensures other == ranks
  {
    hide Longest;
    forall i | 0 <= i < |nodes| ensures other[i] == ranks[i] {
      LongestUnique(g, nodes[i], other[i], ranks[i]);
    }
  }

  // --- the memoised rank -----------------------------------------------------

  ghost predicate Ranked(g: Graph, rank: map<string, int>) {
    forall v :: v in rank ==> Longest(g, v, rank[v])
  }

  /** Every step being visited lies ahead of `id`. */
  ghost predicate Ahead(g: Graph, id: string, visiting: set<string>) {
    forall v :: v in visiting ==> exists p :: g.Links(id, v, p) && |p| > 1
  }

  lemma AheadStep(g: Graph, x: string, id: string, visiting: set<string>)
    requires g.Arc(x, id) && Ahead(g, id, visiting)
    ensures Ahead(g, x, visiting + {id})
  {
    forall v | v in visiting + {id} ensures exists p :: g.Links(x, v, p) && |p| > 1 {
      if v == id {
        assert g.Links(x, id, [x, id]);
      } else {
        var p :| g.Links(id, v, p) && |p| > 1;
        PrependPath(g, x, p);
        assert g.Links(x, v, [x] + p);
      }
    }
  }

  ghost predicate Grows(rank: map<string, int>, rank': map<string, int>) {
    forall v :: v in rank ==> v in rank' && rank'[v] == rank[v]
  }

  method RankOf(g: Graph, preds: map<string, seq<string>>, id: string, rank: map<string, int>, visiting: set<string>)
    returns (r: int, rank': map<string, int>)
    requires preds.Keys == g.ids && forall v :: v in g.ids ==> preds[v] == Preds(g, g.edges, v)
    requires id in g.ids && rank.Keys <= g.ids && visiting <= g.ids
    ensures Grows(rank, rank') && rank'.Keys <= g.ids
    ensures id !in visiting ==> id in rank' && rank'[id] == r
    ensures g.Acyclic() && Ranked(g, rank) && Ahead(g, id, visiting) ==>
              id !in visiting && Ranked(g, rank') && Longest(g, id, r)
    decreases g.ids - visiting, 1
  {
    hide Longest, Graph.IsPath, Graph.Links, Graph.OnCycle, Ahead, Preds;
    AheadAcyclic(g, id, visiting);
    if id in rank {
      return rank[id], rank;
    }
    if id in visiting {
      return 0, rank;
    }
    r, rank' := MaxRank(g, preds, id, rank, visiting);
    rank' := rank'[id := r];
  }

  lemma AheadAcyclic(g: Graph, id: string, visiting: set<string>)
    ensures g.Acyclic() && Ahead(g, id, visiting) ==> id !in visiting
  {
    if g.Acyclic() {
      assert !g.OnCycle(id);
    }
  }

  /** One more than the greatest rank of what `id` depends on; 0 when that is nothing. */
  method MaxRank(g: Graph, preds: map<string, seq<string>>, id: string, rank: map<string, int>, visiting: set<string>)
    returns (r: int, rank': map<string, int>)
    requires preds.Keys == g.ids && forall v :: v in g.ids ==> preds[v] == Preds(g, g.edges, v)
    requires id in g.ids && id !in visiting && rank.Keys <= g.ids && visiting <= g.ids
    ensures Grows(rank, rank') && rank'.Keys <= g.ids
    ensures g.Acyclic() && Ranked(g, rank) && Ahead(g, id, visiting) ==> Ranked(g, rank') && Longest(g, id, r)
    decreases g.ids - visiting, 0
  {
    hide Longest, Graph.Acyclic, Graph.Arc, Graph.Links, Ahead, Preds, Ranked, Best;
    ghost var nice := g.Acyclic() && Ranked(g, rank) && Ahead(g, id, visiting);
    var ps := preds[id];
    PredsAreArcs(g, id);
    r, rank' := 0, rank;
    ghost var best := 0;
    NoneBest(ps, rank);
    for i := 0 to |ps|
      invariant Grows(rank, rank') && rank'.Keys <= g.ids
      invariant nice ==> Ranked(g, rank') && Best(ps, i, rank', best, r)
    {
      var x := ps[i];
      if nice {
        AheadStep(g, x, id, visiting);
      }
      ghost var before := rank';
      var rx;
      rx, rank' := RankOf(g, preds, x, rank', visiting + {id});
      if nice {
        BestStep(ps, i, before, rank', best, r);
      }
      if i == 0 || rx + 1 > r {
        r := rx + 1;
        best := i;
      }
    }
    if nice {
      MaxIsLongest(g, id, rank', ps, best, r);
    }
  }

  /** `r` is one more than the greatest rank of the first `i`, that of `ps[best]`; 0 for none. */
  ghost predicate Best(ps: seq<string>, i: nat, rank: map<string, int>, best: nat, r: int) {
    && i <= |ps|
    && (forall k :: 0 <= k < i ==> ps[k] in rank && rank[ps[k]] + 1 <= r)
    && (if i == 0 then r == 0 else best < i && rank[ps[best]] + 1 == r)
  }

  lemma NoneBest(ps: seq<string>, rank: map<string, int>)
    ensures Best(ps, 0, rank, 0, 0)
  {
  }

  lemma BestStep(ps: seq<string>, i: nat, rank: map<string, int>, rank': map<string, int>, best: nat, r: int)
    requires i < |ps| && Best(ps, i, rank, best, r) && Grows(rank, rank') && ps[i] in rank'
    ensures var rx := rank'[ps[i]];
            if i == 0 || rx + 1 > r then Best(ps, i + 1, rank', i, rx + 1) else Best(ps, i + 1, rank', best, r)
  {
  }

  lemma MaxIsLongest(g: Graph, id: string, rank: map<string, int>, ps: seq<string>, best: nat, r: int)
    requires id in g.ids && Ranked(g, rank) && forall u :: u in ps <==> g.Arc(u, id)
    requires Best(ps, |ps|, rank, best, r)
    ensures Longest(g, id, r)
  {
    hide Longest, Graph.Arc;
    if ps == [] {
      LongestRoot(g, id);
    } else {
      assert ps[best] in ps;
      LongestStep(g, id, rank, ps[best]);
    }
  }

  lemma PredsAreArcs(g: Graph, id: string)
    ensures forall u :: u in Preds(g, g.edges, id) <==> g.Arc(u, id)
    ensures forall u :: u in Preds(g, g.edges, id) ==> u in g.ids
  {
  }

  // --- positions -------------------------------------------------------------

  datatype Position = Position(x: real, y: real)

  function Place(rank: int, row: int, dx: real, dy: real): Position {
    Position(40.0 + rank as real * dx, 60.0 + row as real * dy)
  }

  lemma PlaceInjective(r: int, s: int, i: int, j: int, dx: real, dy: real)
    requires dx > 0.0 && dy > 0.0 && Place(r, i, dx, dy) == Place(s, j, dx, dy)
    ensures r == s && i == j
  {
    ScaleInjective(r as real, s as real, dx);
    ScaleInjective(i as real, j as real, dy);
  }

  lemma ScaleInjective(a: real, b: real, k: real)
    requires k > 0.0 && a * k == b * k
    ensures a == b
  {
    assert (a - b) * k == 0.0;
  }

  method BuildPreds(g: Graph) returns (preds: map<string, seq<string>>)
    ensures preds.Keys == g.ids && forall v :: v in g.ids ==> preds[v] == Preds(g, g.edges, v)
  {
    hide Listed, Ends;
    preds := map id | id in g.ids :: [];
    ListedStart(g, Into, Some(g.ids), preds);
    for i := 0 to |g.edges|
      invariant preds.Keys == g.ids && Listed(g, i, Into, Some(g.ids), preds)
    {
      var e := g.edges[i];
      ListedStep(g, i, Into, Some(g.ids), preds);
      if e.source in g.ids && e.target in g.ids {
        preds := preds[e.target := preds[e.target] + [e.source]];
      }
    }
    ListedEnd(g, Into, Some(g.ids), preds);
  }

  /** The rank of every node, in node order. */
  method RankAll(g: Graph, nodes: seq<string>) returns (rank: map<string, int>)
    requires g.ids == Elements(nodes)
    ensures rank.Keys == g.ids
    ensures g.Acyclic() ==> Ranked(g, rank)
  {
    hide Longest, Graph.Acyclic, Preds, Graph.Links;
    var preds := BuildPreds(g);
    rank := map[];
    for i := 0 to |nodes|
      invariant rank.Keys <= g.ids && forall k :: 0 <= k < i ==> nodes[k] in rank
      invariant g.Acyclic() ==> Ranked(g, rank)
    {
      assert nodes[i] in g.ids;
      assert Ahead(g, nodes[i], {});
      var r;
      r, rank := RankOf(g, preds, nodes[i], rank, {});
    }
  }

  /** How many of the ranks are `r`: the row the next node of that rank gets. */
  function RowsUsed(ranks: seq<int>, r: int): nat {
    if ranks == [] then 0 else RowsUsed(ranks[..|ranks| - 1], r) + (if ranks[|ranks| - 1] == r then 1 else 0)
  }

  lemma RowsAppend(ranks: seq<int>, r: int)
    ensures forall q :: RowsUsed(ranks + [r], q) == RowsUsed(ranks, q) + (if q == r then 1 else 0)
  {
    assert (ranks + [r])[..|ranks|] == ranks;
  }

  lemma {:induction false} RowsGrow(ranks: seq<int>, i: nat, j: nat)
    requires i < j <= |ranks|
    ensures RowsUsed(ranks[..i], ranks[i]) < RowsUsed(ranks[..j], ranks[i])
    decreases j
  {
    assert ranks[..j][..j - 1] == ranks[..j - 1];
    if i < j - 1 {
      RowsGrow(ranks, i, j - 1);
    }
  }

  /** Where the ranks put the nodes: the column of the rank, the next free row in it. */
  ghost predicate Placed(at: seq<Position>, ranks: seq<int>, dx: real, dy: real) {
    && |at| == |ranks|
    && forall i :: 0 <= i < |at| ==> Stands(at[i], ranks[i], RowsUsed(ranks[..i], ranks[i]), dx, dy)
  }

  predicate Stands(p: Position, rank: int, row: nat, dx: real, dy: real) {
    p.x == 40.0 + rank as real * dx && p.y == 60.0 + row as real * dy
  }

  lemma PlaceStands(rank: int, row: nat, dx: real, dy: real)
    ensures forall p :: Stands(p, rank, row, dx, dy) <==> p == Place(rank, row, dx, dy)
  {
  }

  lemma PlacedApart(at: seq<Position>, ranks: seq<int>, dx: real, dy: real, i: nat, j: nat)
    requires Placed(at, ranks, dx, dy) && dx > 0.0 && dy > 0.0 && i < j < |at|
    ensures at[i] != at[j]
  {
    hide Stands, Place;
    PlaceStands(ranks[i], RowsUsed(ranks[..i], ranks[i]), dx, dy);
    PlaceStands(ranks[j], RowsUsed(ranks[..j], ranks[j]), dx, dy);
    if at[i] == at[j] {
      PlaceInjective(ranks[i], ranks[j], RowsUsed(ranks[..i], ranks[i]), RowsUsed(ranks[..j], ranks[j]), dx, dy);
      RowsGrow(ranks, i, j);
    }
  }

  lemma PlacedAppend(at: seq<Position>, ranks: seq<int>, dx: real, dy: real, r: int)
    requires Placed(at, ranks, dx, dy)
    ensures Placed(at + [Place(r, RowsUsed(ranks, r), dx, dy)], ranks + [r], dx, dy)
  {
    hide Stands, Place, RowsUsed;
    PlaceStands(r, RowsUsed(ranks, r), dx, dy);
    forall i | 0 <= i <= |ranks| ensures (ranks + [r])[..i] == ranks[..i] {
    }
    assert ranks[..|ranks|] == ranks;
  }

  /** Lay the nodes out: each in the column of its rank, below those of the same rank before
      it. On a graph without cycles the rank is the length of the longest chain that reaches
      the node, so the ranks are the only such, and every edge leads to a higher one; on any
      graph no two nodes stand in the same place. */
  method Layout(nodes: seq<string>, edges: seq<Edge>, dx: real, dy: real)
    returns (at: seq<Position>, ghost ranks: seq<int>)
    ensures |ranks| == |nodes| && Placed(at, ranks, dx, dy)
    ensures var g := Graph(Elements(nodes), edges);
            g.Acyclic() ==>
              && LongestAll(g, nodes, ranks)
              && (forall other :: LongestAll(g, nodes, other) ==> other == ranks)
              && (forall i, j :: 0 <= i < |nodes| && 0 <= j < |nodes| && g.Arc(nodes[i], nodes[j]) ==>
                  ranks[i] < ranks[j])
    ensures dx > 0.0 && dy > 0.0 ==> forall i, j :: 0 <= i < j < |nodes| ==> at[i] != at[j]
  {
    hide Longest, Graph.Acyclic, Graph.Arc, Place, Placed, RowsUsed;
    var g := Graph(Elements(nodes), edges);
    var rank := RankAll(g, nodes);
    var perRank: map<int, int> := map[];
    at, ranks := [], [];
    PlacedNone(dx, dy);
    for i := 0 to |nodes|
      invariant |ranks| == i && Placed(at, ranks, dx, dy)
      invariant forall k :: 0 <= k < i ==> nodes[k] in rank && ranks[k] == rank[nodes[k]]
      invariant forall r :: RowsUsed(ranks, r) == if r in perRank then perRank[r] else 0
    {
      assert nodes[i] in g.ids;
      var r := rank[nodes[i]];
      var row := if r in perRank then perRank[r] else 0;
      PlacedAppend(at, ranks, dx, dy, r);
      RowsAppend(ranks, r);
      at := at + [Place(r, row, dx, dy)];
      ranks := ranks + [r];
      perRank := perRank[r := row + 1];
    }
    PlacedSize(at, ranks, dx, dy);
    if dx > 0.0 && dy > 0.0 {
      forall i, j | 0 <= i < j < |nodes| ensures at[i] != at[j] {
        PlacedApart(at, ranks, dx, dy, i, j);
      }
    }
    if g.Acyclic() {
      forall i, j | 0 <= i < |nodes| && 0 <= j < |nodes| && g.Arc(nodes[i], nodes[j]) ensures ranks[i] < ranks[j] {
        RanksClimb(g, nodes[i], nodes[j], ranks[i], ranks[j]);
      }
      forall other | LongestAll(g, nodes, other) ensures other == ranks {
        RanksUnique(g, nodes, ranks, other);
      }
    }
  }

  lemma PlacedNone(dx: real, dy: real)
    ensures Placed([], [], dx, dy) && forall r :: RowsUsed([], r) == 0
  {
  }

  lemma PlacedSize(at: seq<Position>, ranks: seq<int>, dx: real, dy: real)
    requires Placed(at, ranks, dx, dy)
    ensures |at| == |ranks|
  {
  }
}
