/**
 * `dijkstra` of lsDijkstra.c over the index-keyed graph it reads: `n` nodes,
 * a label per node (`graph->key`) and per node a list of `(dest, cost)`
 * adjacency entries (`graph->array[u].head`). `INT_MAX` is the "unreached"
 * sentinel; costs are mathematical integers, and the precondition
 * `n * MaxCost(adj) < INT_MAX` rules out the overflow of `adjNode->cost + cost[u]`.
 *
 * Correctness is stated against paths: a path from `s` to `t` is a sequence of
 * hops, each naming a node and one of its adjacency entries.
 */
module LsDijkstra {
  import opened LsPacket
  import opened LsHeap

  const INT_MAX: int := 2147483647

  /** struct AdjListNode without its `next` link. */
  datatype AdjNode = AdjNode(dest: int, cost: int)

  /** struct Graph: `key[u]` labels node `u`, `adj[u]` lists its outgoing entries in list order. */
  datatype Graph = Graph(key: seq<Label>, adj: seq<seq<AdjNode>>)

  /** One step of a path: adjacency entry `edge` of node `from`. */
  datatype Hop = Hop(from: int, edge: int)

  /** A reported route: the printed line `key cost path`. */
  datatype Route = Route(dest: Label, cost: int, nextHop: char)

  /** Every entry points to a node of the graph and has a non-negative cost. */
  ghost predicate WellFormed(g: Graph)
  {
    && |g.key| == |g.adj|
    && forall u, e :: 0 <= u < |g.adj| && 0 <= e < |g.adj[u]| ==>
         0 <= g.adj[u][e].dest < |g.adj| && g.adj[u][e].cost >= 0
  }

  ghost predicate Positive(g: Graph)
  {
    forall u, e :: 0 <= u < |g.adj| && 0 <= e < |g.adj[u]| ==> g.adj[u][e].cost > 0
  }

  /** No node is labelled with the "no first hop yet" marker '-'. */
  ghost predicate NoDash(g: Graph)
  {
    forall i :: 0 <= i < |g.key| ==> g.key[i] != '-'
  }

  /** An upper bound on the costs of one adjacency list: the largest one, or 0. */
  function MaxEdgeCost(es: seq<AdjNode>): (m: int)
    ensures m >= 0 && forall e :: 0 <= e < |es| ==> es[e].cost <= m
  {
    if |es| == 0 then 0
    else
      var m := MaxEdgeCost(es[..|es| - 1]);
      if es[|es| - 1].cost > m then es[|es| - 1].cost else m
  }

  /** An upper bound on the costs of every adjacency entry: the largest one, or 0. */
  function MaxCost(adj: seq<seq<AdjNode>>): (m: int)
    ensures m >= 0 && forall u, e :: 0 <= u < |adj| && 0 <= e < |adj[u]| ==> adj[u][e].cost <= m
  {
    if |adj| == 0 then 0
    else
      var m := MaxCost(adj[..|adj| - 1]);
      var last := MaxEdgeCost(adj[|adj| - 1]);
      assert forall u :: 0 <= u < |adj| - 1 ==> adj[u] == adj[..|adj| - 1][u];
      if last > m then last else m
  }

  /**
   * getIndex: the first node carrying `name`, or -1. (getIndex itself is not
   * part of this model; this is the behaviour dijkstra relies on.)
   */
  function KeyIndex(key: seq<Label>, name: Label): (i: int)
    ensures -1 <= i < |key|
    ensures 0 <= i ==> key[i] == name && forall j :: 0 <= j < i ==> key[j] != name
    ensures i == -1 <==> forall j :: 0 <= j < |key| ==> key[j] != name
    decreases |key|
  {
    if |key| == 0 then -1
    else if key[0] == name then 0
    else
      var k := KeyIndex(key[1..], name);
      if k < 0 then -1 else k + 1
  }

  predicate ValidHop(g: Graph, h: Hop)
  {
    0 <= h.from < |g.adj| && 0 <= h.edge < |g.adj[h.from]|
  }

  function HopDest(g: Graph, h: Hop): int
  {
    if ValidHop(g, h) then g.adj[h.from][h.edge].dest else -1
  }

  function HopCost(g: Graph, h: Hop): int
  {
    if ValidHop(g, h) then g.adj[h.from][h.edge].cost else 0
  }

  /** `p` leads from node `s` to node `t`. */
  ghost predicate IsPath(g: Graph, s: int, p: seq<Hop>, t: int)
    decreases |p|
  {
    if |p| == 0 then 0 <= s < |g.adj| && t == s
    else
      && ValidHop(g, p[|p| - 1])
      && HopDest(g, p[|p| - 1]) == t
      && IsPath(g, s, p[..|p| - 1], p[|p| - 1].from)
  }

  /** The sum of the entry costs along `p`. */
  function PathCost(g: Graph, p: seq<Hop>): int
    decreases |p|
  {
    if |p| == 0 then 0 else PathCost(g, p[..|p| - 1]) + HopCost(g, p[|p| - 1])
  }

  ghost predicate Reachable(g: Graph, s: int, t: int)
  {
    exists p :: IsPath(g, s, p, t)
  }

  /** The first node after the start of a non-empty path. */
  function FirstHop(g: Graph, p: seq<Hop>): int
    requires |p| > 0
  {
    HopDest(g, p[0])
  }

  /** The lines dijkstra prints, in node order: one per node whose cost is not INT_MAX. */
  function Report(key: seq<Label>, cost: seq<int>, path: seq<char>): (r: seq<Route>)
    requires |key| == |cost| == |path|
    ensures |r| <= |cost|
    ensures forall k :: 0 <= k < |r| ==> r[k].cost != INT_MAX
    decreases |cost|
  {
    if |cost| == 0 then []
    else
      var n := |cost| - 1;
      Report(key[..n], cost[..n], path[..n]) + (if cost[n] != INT_MAX then [Route(key[n], cost[n], path[n])] else [])
  }

  /** The indices of the reached nodes (cost below INT_MAX), in increasing order, each once. */
  function Reached(cost: seq<int>): (idx: seq<int>)
    ensures forall k :: 0 <= k < |idx| ==> 0 <= idx[k] < |cost| && cost[idx[k]] != INT_MAX
    ensures forall j, k :: 0 <= j < k < |idx| ==> idx[j] < idx[k]
    ensures forall i :: 0 <= i < |cost| && cost[i] != INT_MAX ==> i in idx
    decreases |cost|
  {
    if |cost| == 0 then []
    else
      var n := |cost| - 1;
      Reached(cost[..n]) + (if cost[n] != INT_MAX then [n] else [])
  }

  /** The k-th printed line is the one of the k-th reached node: one line per reached node, in index order. */
  lemma {:induction false} ReportInOrder(key: seq<Label>, cost: seq<int>, path: seq<char>)
    requires |key| == |cost| == |path|
    ensures var r, idx := Report(key, cost, path), Reached(cost);
            |r| == |idx| && forall k :: 0 <= k < |idx| ==> r[k] == Route(key[idx[k]], cost[idx[k]], path[idx[k]])
    decreases |cost|
  {
    if |cost| > 0 {
      var n := |cost| - 1;
      ReportInOrder(key[..n], cost[..n], path[..n]);
      var r0, idx0 := Report(key[..n], cost[..n], path[..n]), Reached(cost[..n]);
      var r, idx := Report(key, cost, path), Reached(cost);
      forall k | 0 <= k < |idx0|
        ensures r[k] == Route(key[idx[k]], cost[idx[k]], path[idx[k]])
      {
        assert r[k] == r0[k] && idx[k] == idx0[k];
        assert key[..n][idx0[k]] == key[idx0[k]] && cost[..n][idx0[k]] == cost[idx0[k]] && path[..n][idx0[k]] == path[idx0[k]];
      }
    }
  }

  /** Exactly the reached nodes are reported, each with its label, cost and first hop. */
  lemma {:induction false} ReportLines(key: seq<Label>, cost: seq<int>, path: seq<char>, r: Route)
    requires |key| == |cost| == |path|
    ensures r in Report(key, cost, path)
            <==> exists i :: 0 <= i < |cost| && cost[i] != INT_MAX && r == Route(key[i], cost[i], path[i])
    decreases |cost|
  {
    if |cost| > 0 {
      var n := |cost| - 1;
      ReportLines(key[..n], cost[..n], path[..n], r);
      if r in Report(key[..n], cost[..n], path[..n]) {
        var i :| 0 <= i < n && cost[..n][i] != INT_MAX && r == Route(key[..n][i], cost[..n][i], path[..n][i]);
        assert cost[i] != INT_MAX && r == Route(key[i], cost[i], path[i]);
      }
      if exists i :: 0 <= i < |cost| && cost[i] != INT_MAX && r == Route(key[i], cost[i], path[i]) {
        var i :| 0 <= i < |cost| && cost[i] != INT_MAX && r == Route(key[i], cost[i], path[i]);
        if i < n {
          assert cost[..n][i] != INT_MAX && r == Route(key[..n][i], cost[..n][i], path[..n][i]);
        }
      }
    }
  }

  /** Every path has a non-negative cost. */
  lemma {:induction false} PathCostNonNegative(g: Graph, p: seq<Hop>)
    requires WellFormed(g)
    ensures PathCost(g, p) >= 0
    decreases |p|
  {
    if |p| > 0 {
      PathCostNonNegative(g, p[..|p| - 1]);
    }
  }

  /** With positive entry costs, only the empty path costs nothing. */
  lemma PositivePathCost(g: Graph, s: int, p: seq<Hop>, t: int)
    requires WellFormed(g) && Positive(g) && IsPath(g, s, p, t) && |p| > 0
    ensures PathCost(g, p) > 0
  {
    PathCostNonNegative(g, p[..|p| - 1]);
  }

  /** A path from a node that does not exist is impossible (dijkstra with an unknown source reaches nothing). */
  lemma {:induction false} PathStartsInGraph(g: Graph, s: int, p: seq<Hop>, t: int)
    requires IsPath(g, s, p, t)
    ensures 0 <= s < |g.adj|
    decreases |p|
  {
    if |p| > 0 {
      PathStartsInGraph(g, s, p[..|p| - 1], p[|p| - 1].from);
    }
  }

  /** Following entry `e` of the path's end extends it; cost and first hop behave as expected. */
  lemma PathExtend(g: Graph, s: int, p: seq<Hop>, t: int, e: int)
    requires IsPath(g, s, p, t) && 0 <= t < |g.adj| && 0 <= e < |g.adj[t]|
    ensures IsPath(g, s, p + [Hop(t, e)], g.adj[t][e].dest)
    ensures PathCost(g, p + [Hop(t, e)]) == PathCost(g, p) + g.adj[t][e].cost
    ensures FirstHop(g, p + [Hop(t, e)]) == if |p| > 0 then FirstHop(g, p) else g.adj[t][e].dest
  {
    assert (p + [Hop(t, e)])[..|p|] == p;
  }

  /** Sizes and ranges of dijkstra's state; `H` is the set of keys still in the heap. */
  ghost predicate Shape(g: Graph, B: int, steps: int, costs: seq<int>, wit: seq<seq<Hop>>, H: set<int>)
  {
    && WellFormed(g) && B >= 0
    && |costs| == |g.adj| && |wit| == |g.adj|
    && (forall v :: v in H ==> 0 <= v < |g.adj|)
    && 0 <= steps <= |g.adj|
    && (forall v :: 0 <= v < |costs| ==> 0 <= costs[v] <= INT_MAX)
  }

  /**
   * A finite cost is the cost of a witness path from the source, and grows by
   * at most `B` per settled node; the source costs 0.
   */
  ghost predicate Witnessed(g: Graph, src: int, B: int, steps: int, costs: seq<int>, wit: seq<seq<Hop>>)
    requires |costs| == |wit|
  {
    && (forall v :: 0 <= v < |costs| && costs[v] < INT_MAX ==>
          IsPath(g, src, wit[v], v) && PathCost(g, wit[v]) == costs[v] && costs[v] <= Times(steps, B))
    && (0 <= src < |costs| ==> costs[src] == 0)
  }

  /** A node out of the heap is reached by no cheaper path, and is finite when reachable at all. */
  ghost predicate Settled(g: Graph, src: int, costs: seq<int>, H: set<int>)
  {
    forall v, p :: 0 <= v < |costs| && v !in H && IsPath(g, src, p, v) ==>
      costs[v] <= PathCost(g, p) && costs[v] < INT_MAX
  }

  /** The loop invariant of dijkstra's main loop, over the value of its cost array. */
  ghost predicate Inv(g: Graph, src: int, B: int, steps: int, costs: seq<int>, wit: seq<seq<Hop>>, H: set<int>)
  {
    Shape(g, B, steps, costs, wit, H) && Witnessed(g, src, B, steps, costs, wit) && Settled(g, src, costs, H)
  }

  /**
   * Every entry out of a finite settled node into the heap has been relaxed,
   * except entries `j` and beyond of the node `u` being processed.
   */
  ghost predicate Relaxed(g: Graph, costs: seq<int>, H: set<int>, u: int, j: int)
    requires WellFormed(g) && |costs| == |g.adj|
  {
    forall y, e :: 0 <= y < |g.adj| && y !in H && costs[y] < INT_MAX && 0 <= e < |g.adj[y]|
                   && (y != u || e < j) && g.adj[y][e].dest in H ==>
      costs[g.adj[y][e].dest] <= costs[y] + g.adj[y][e].cost && costs[g.adj[y][e].dest] < INT_MAX
  }

  /**
   * First hops: `path[v]` of a finite settled node is the label of the first
   * node after the source on its witness path; a node still in the heap either
   * carries that label already or carries '-' and is itself that first node.
   */
  ghost predicate HopsRecorded(g: Graph, src: int, costs: seq<int>, path: seq<char>, wit: seq<seq<Hop>>, H: set<int>)
    requires |costs| == |path| == |wit| == |g.adj| == |g.key|
  {
    && (0 <= src < |path| ==> path[src] == '-')
    && forall v :: 0 <= v < |costs| && v != src && costs[v] < INT_MAX && |wit[v]| > 0 ==>
         && 0 <= FirstHop(g, wit[v]) < |g.key|
         && (v !in H ==> path[v] == g.key[FirstHop(g, wit[v])])
         && (v in H ==> (path[v] == '-' && FirstHop(g, wit[v]) == v)
                        || (path[v] != '-' && path[v] == g.key[FirstHop(g, wit[v])]))
  }

  /** The state after dijkstra's first loop satisfies the invariant. */
  lemma InitialState(g: Graph, src: int, B: int, costs: seq<int>, path: seq<char>, wit: seq<seq<Hop>>, H: set<int>)
    requires WellFormed(g) && B >= 0
    requires |costs| == |path| == |wit| == |g.adj|
    requires forall v :: 0 <= v < |costs| ==> costs[v] == (if v == src then 0 else INT_MAX) && path[v] == '-' && wit[v] == []
    requires forall v :: v in H <==> 0 <= v < |g.adj|
    ensures Inv(g, src, B, 0, costs, wit, H) && Relaxed(g, costs, H, -1, 0)
    ensures Positive(g) && NoDash(g) ==> HopsRecorded(g, src, costs, path, wit, H)
  {
  }

  /**
   * The heart of Dijkstra's argument: when every node of the heap costs at
   * least `m`, every path into the heap costs at least `m`, and `m` is finite.
   */
  lemma {:induction false} NoShorterPath(g: Graph, src: int, B: int, steps: int, costs: seq<int>,
                                         wit: seq<seq<Hop>>, H: set<int>, m: int, p: seq<Hop>, t: int)
    requires Inv(g, src, B, steps, costs, wit, H) && Relaxed(g, costs, H, -1, 0)
    requires forall k :: k in H ==> m <= costs[k]
    requires t in H && IsPath(g, src, p, t)
    ensures m <= PathCost(g, p) && m < INT_MAX
    decreases |p|
  {
    if |p| > 0 {
      var q := p[..|p| - 1];
      var y := p[|p| - 1].from;
      if y in H {
        NoShorterPath(g, src, B, steps, costs, wit, H, m, q, y);
      } else {
        assert costs[y] <= PathCost(g, q) && costs[y] < INT_MAX;
      }
    }
  }

  /** Extracting a cheapest heap node `u` settles it. */
  lemma SettleCheapest(g: Graph, src: int, B: int, steps: int, costs: seq<int>, wit: seq<seq<Hop>>, H: set<int>, u: int)
    requires Inv(g, src, B, steps, costs, wit, H) && Relaxed(g, costs, H, -1, 0)
    requires u in H && forall k :: k in H ==> costs[u] <= costs[k]
    ensures Settled(g, src, costs, H - {u})
  {
    forall p | IsPath(g, src, p, u)
      ensures costs[u] <= PathCost(g, p) && costs[u] < INT_MAX
    {
      NoShorterPath(g, src, B, steps, costs, wit, H, costs[u], p, u);
    }
  }

  /** The per-step cost bound only loosens as one more node is settled. */
  lemma WitnessedNextStep(g: Graph, src: int, B: int, steps: int, costs: seq<int>, wit: seq<seq<Hop>>)
    requires |costs| == |wit| && B >= 0 && steps >= 0 && Witnessed(g, src, B, steps, costs, wit)
    ensures Witnessed(g, src, B, steps + 1, costs, wit)
  {
    assert Times(steps + 1, B) == Times(steps, B) + B;
  }

  /** dijkstra's fix-up `path[u] = key[u]` for an extracted node that still has no first hop keeps the first hops recorded. */
  lemma ExtractHops(g: Graph, src: int, B: int, steps: int, costs: seq<int>, path: seq<char>, wit: seq<seq<Hop>>, H: set<int>, u: int)
    requires Inv(g, src, B, steps, costs, wit, H) && Positive(g) && NoDash(g)
    requires |path| == |g.adj| && u in H && HopsRecorded(g, src, costs, path, wit, H)
    ensures var path' := if path[u] == '-' && costs[u] > 0 then path[u := g.key[u]] else path;
            HopsRecorded(g, src, costs, path', wit, H - {u})
  {
    if u != src && costs[u] < INT_MAX && |wit[u]| > 0 {
      PositivePathCost(g, src, wit[u], u);
    }
  }

  /** One iteration of dijkstra's main loop before the inner loop: the extracted node is settled. */
  lemma ExtractStep(g: Graph, src: int, B: int, steps: int, costs: seq<int>, path: seq<char>,
                    wit: seq<seq<Hop>>, H: set<int>, u: int)
    requires Inv(g, src, B, steps, costs, wit, H) && Relaxed(g, costs, H, -1, 0) && |path| == |g.adj|
    requires u in H && (forall k :: k in H ==> costs[u] <= costs[k]) && steps < |g.adj|
    requires Positive(g) && NoDash(g) ==> HopsRecorded(g, src, costs, path, wit, H)
    ensures Inv(g, src, B, steps + 1, costs, wit, H - {u})
    ensures Relaxed(g, costs, H - {u}, u, 0)
    ensures costs[u] < INT_MAX ==> costs[u] + B <= Times(steps + 1, B)
    ensures var path' := if path[u] == '-' && costs[u] > 0 then path[u := g.key[u]] else path;
            Positive(g) && NoDash(g) ==> HopsRecorded(g, src, costs, path', wit, H - {u})
  {
    SettleCheapest(g, src, B, steps, costs, wit, H, u);
    WitnessedNextStep(g, src, B, steps, costs, wit);
    assert Times(steps + 1, B) == Times(steps, B) + B;
    if Positive(g) && NoDash(g) {
      ExtractHops(g, src, B, steps, costs, path, wit, H, u);
    }
  }

  /** Entry `j` of the settled node `u` is left alone: it was already relaxed. */
  lemma RelaxSkip(g: Graph, src: int, B: int, steps: int, costs: seq<int>, wit: seq<seq<Hop>>, H: set<int>, u: int, j: int)
    requires Inv(g, src, B, steps, costs, wit, H) && B == MaxCost(g.adj) && Times(|g.adj|, B) < INT_MAX
    requires 0 <= u < |g.adj| && u !in H && 0 <= j < |g.adj[u]| && Relaxed(g, costs, H, u, j)
    requires costs[u] < INT_MAX ==> costs[u] + B <= Times(steps, B)
    requires var v := g.adj[u][j].dest;
             !(v in H && costs[u] != INT_MAX && g.adj[u][j].cost + costs[u] < costs[v])
    ensures Relaxed(g, costs, H, u, j + 1)
  {
    TimesMonotone(steps, |g.adj|, B);
  }

  /** Relaxing entry `j` of `u` keeps every finite cost witnessed and bounded. */
  lemma RelaxWitnessed(g: Graph, src: int, B: int, steps: int, costs: seq<int>, wit: seq<seq<Hop>>, H: set<int>, u: int, j: int)
    requires Inv(g, src, B, steps, costs, wit, H) && B == MaxCost(g.adj)
    requires 0 <= u < |g.adj| && u !in H && 0 <= j < |g.adj[u]|
    requires costs[u] < INT_MAX && costs[u] + B <= Times(steps, B)
    requires var v := g.adj[u][j].dest; v in H && g.adj[u][j].cost + costs[u] < costs[v]
    ensures var v, w := g.adj[u][j].dest, g.adj[u][j].cost;
            Witnessed(g, src, B, steps, costs[v := costs[u] + w], wit[v := wit[u] + [Hop(u, j)]])
  {
    PathExtend(g, src, wit[u], u, j);
  }

  /** Relaxing entry `j` of `u` keeps the whole path invariant. */
  lemma RelaxInv(g: Graph, src: int, B: int, steps: int, costs: seq<int>, wit: seq<seq<Hop>>, H: set<int>, u: int, j: int, lowered: int)
    requires Inv(g, src, B, steps, costs, wit, H) && B == MaxCost(g.adj) && Times(|g.adj|, B) < INT_MAX
    requires 0 <= u < |g.adj| && u !in H && 0 <= j < |g.adj[u]|
    requires costs[u] < INT_MAX && costs[u] + B <= Times(steps, B)
    requires var v := g.adj[u][j].dest; v in H && g.adj[u][j].cost + costs[u] < costs[v]
    requires lowered == costs[u] + g.adj[u][j].cost
    ensures var v := g.adj[u][j].dest;
            Inv(g, src, B, steps, costs[v := lowered], wit[v := wit[u] + [Hop(u, j)]], H)
  {
    var v, w := g.adj[u][j].dest, g.adj[u][j].cost;
    var costs', wit' := costs[v := lowered], wit[v := wit[u] + [Hop(u, j)]];
    assert costs' == costs[v := costs[u] + w];
    RelaxWitnessed(g, src, B, steps, costs, wit, H, u, j);
    assert Shape(g, B, steps, costs', wit', H);
    assert Settled(g, src, costs', H);
  }

  /** Relaxing entry `j` of `u` keeps the other entries relaxed and relaxes this one. */
  lemma RelaxRelaxed(g: Graph, costs: seq<int>, H: set<int>, u: int, j: int, lowered: int)
    requires WellFormed(g) && |costs| == |g.adj|
    requires 0 <= u < |g.adj| && u !in H && 0 <= j < |g.adj[u]| && Relaxed(g, costs, H, u, j)
    requires costs[u] < INT_MAX && g.adj[u][j].cost + costs[u] < INT_MAX
    requires var v := g.adj[u][j].dest; v in H && g.adj[u][j].cost + costs[u] < costs[v]
    requires lowered == costs[u] + g.adj[u][j].cost
    ensures Relaxed(g, costs[g.adj[u][j].dest := lowered], H, u, j + 1)
  {
  }

  /** Relaxing entry `j` of `u` hands `u`'s first hop on to the entry's target. */
  lemma RelaxHops(g: Graph, src: int, B: int, steps: int, costs: seq<int>, path: seq<char>, wit: seq<seq<Hop>>, H: set<int>, u: int, j: int, lowered: int)
    requires Inv(g, src, B, steps, costs, wit, H) && Positive(g) && NoDash(g) && |path| == |g.adj|
    requires 0 <= u < |g.adj| && u !in H && 0 <= j < |g.adj[u]| && HopsRecorded(g, src, costs, path, wit, H)
    requires costs[u] < INT_MAX
    requires var v := g.adj[u][j].dest; v in H && g.adj[u][j].cost + costs[u] < costs[v]
    requires lowered == costs[u] + g.adj[u][j].cost
    ensures var v := g.adj[u][j].dest;
            HopsRecorded(g, src, costs[v := lowered], path[v := path[u]], wit[v := wit[u] + [Hop(u, j)]], H)
  {
    PathExtend(g, src, wit[u], u, j);
    if u == src && |wit[u]| > 0 {
      PositivePathCost(g, src, wit[u], u);
    }
  }

  /** One pass of dijkstra's inner loop that lowers the cost of entry `j`'s target `v` to `lowered`, via `u`. */
  lemma RelaxApply(g: Graph, src: int, B: int, steps: int, costs: seq<int>, path: seq<char>,
                   wit: seq<seq<Hop>>, H: set<int>, u: int, j: int, lowered: int, hop: char)
    requires Inv(g, src, B, steps, costs, wit, H) && B == MaxCost(g.adj) && Times(|g.adj|, B) < INT_MAX && |path| == |g.adj|
    requires 0 <= u < |g.adj| && u !in H && 0 <= j < |g.adj[u]| && Relaxed(g, costs, H, u, j)
    requires costs[u] < INT_MAX ==> costs[u] + B <= Times(steps, B)
    requires Positive(g) && NoDash(g) ==> HopsRecorded(g, src, costs, path, wit, H)
    requires var v := g.adj[u][j].dest;
             v in H && costs[u] != INT_MAX && g.adj[u][j].cost + costs[u] < costs[v]
    requires lowered == costs[u] + g.adj[u][j].cost && hop == path[u]
    ensures var v := g.adj[u][j].dest;
            && v != u && v != src
            && Inv(g, src, B, steps, costs[v := lowered], wit[v := wit[u] + [Hop(u, j)]], H)
            && Relaxed(g, costs[v := lowered], H, u, j + 1)
            && (Positive(g) && NoDash(g) ==>
                  HopsRecorded(g, src, costs[v := lowered], path[v := hop], wit[v := wit[u] + [Hop(u, j)]], H))
  {
    assert costs[u] < INT_MAX && costs[u] + B <= Times(steps, B);
    RelaxInv(g, src, B, steps, costs, wit, H, u, j, lowered);
    RelaxRelaxed(g, costs, H, u, j, lowered);
    if Positive(g) && NoDash(g) {
      RelaxHops(g, src, B, steps, costs, path, wit, H, u, j, lowered);
    }
  }

  /**
   * `k * b` for `k >= 0`, as `k` additions of `b`: the invariant's cost bound
   * is stated with it so that the bound grows linearly from one step to the next.
   */
  ghost function Times(k: int, b: int): int
    decreases k
  {
    if k <= 0 then 0 else Times(k - 1, b) + b
  }

  /** `Times` is multiplication. */
  lemma {:induction false} TimesIsProduct(k: nat, b: int)
    ensures Times(k, b) == k * b
  {
    if k > 0 {
      TimesIsProduct(k - 1, b);
    }
  }

  /** With a non-negative `b`, the bound grows with `k`. */
  lemma {:induction false} TimesMonotone(a: int, c: int, b: int)
    requires 0 <= a <= c && b >= 0
    ensures Times(a, b) <= Times(c, b)
    decreases c - a
  {
    if a < c {
      TimesMonotone(a, c - 1, b);
    }
  }


  /**
   * What dijkstra computes: a cost is finite exactly for the nodes reachable
   * from the source, is no more than the cost of any path to the node, and is
   * the cost of the witness path; with positive costs and no '-' label, the
   * first hop of a non-source node is the label of its witness's first hop.
   */
  ghost predicate ShortestPaths(g: Graph, src: int, costs: seq<int>, path: seq<char>, wit: seq<seq<Hop>>)
    requires |costs| == |path| == |wit| == |g.adj| == |g.key|
  {
    && (forall v :: 0 <= v < |costs| ==> (costs[v] < INT_MAX <==> Reachable(g, src, v)))
    && (forall v, p :: 0 <= v < |costs| && IsPath(g, src, p, v) ==> costs[v] <= PathCost(g, p))
    && (forall v :: 0 <= v < |costs| && costs[v] < INT_MAX ==> IsPath(g, src, wit[v], v) && PathCost(g, wit[v]) == costs[v])
    && (Positive(g) && NoDash(g) ==>
          forall v :: 0 <= v < |costs| && v != src && costs[v] < INT_MAX ==>
            |wit[v]| > 0 && 0 <= FirstHop(g, wit[v]) < |g.key| && path[v] == g.key[FirstHop(g, wit[v])])
  }

  /** Once the heap is empty, every node is settled: the invariant yields dijkstra's result. */
  lemma FinalState(g: Graph, src: int, B: int, steps: int, costs: seq<int>, path: seq<char>, wit: seq<seq<Hop>>)
    requires Inv(g, src, B, steps, costs, wit, {}) && |path| == |g.adj|
    requires Positive(g) && NoDash(g) ==> HopsRecorded(g, src, costs, path, wit, {})
    ensures ShortestPaths(g, src, costs, path, wit)
  {
    forall v | 0 <= v < |costs| && Reachable(g, src, v)
      ensures costs[v] < INT_MAX
    {
      var p :| IsPath(g, src, p, v);
    }
  }

  /** The node indices of a graph with `n` nodes. */
  ghost function AllNodes(n: int): (r: set<int>)
    ensures forall k :: k in r <==> 0 <= k < n
    decreases n
  {
    if n <= 0 then {} else AllNodes(n - 1) + {n - 1}
  }

  /**
   * dijkstra's first loop: every node gets first hop '-' and cost INT_MAX,
   * except the source at 0, and is inserted into a fresh heap of capacity `n`.
   */
  method Seed(g: Graph, src: int) returns (cost: seq<int>, path: seq<char>, heap: MinHeap)
    requires |g.key| == |g.adj|
    ensures fresh(heap) && fresh(heap.pos) && fresh(heap.slots)
    ensures |cost| == |g.adj| && |path| == |g.adj|
    ensures heap.Valid() && heap.cap == |g.adj| && heap.size == |g.adj|
    ensures forall k :: 0 <= k < |cost| ==> cost[k] == (if k == src then 0 else INT_MAX) && path[k] == '-'
    ensures forall k :: k in heap.Costs <==> 0 <= k < |g.adj|
    ensures forall k :: k in heap.Costs ==> heap.Costs[k] == cost[k]
    ensures heap.Tracked == AllNodes(|g.adj|)
  {
    var n := |g.key|;
    cost, path := [], [];
    heap := new MinHeap(n);
    var i := 0;
    while i < n
      invariant 0 <= i <= n && |cost| == i && |path| == i
      invariant heap.Valid() && heap.cap == n && heap.size == i
      invariant forall k :: 0 <= k < i ==> cost[k] == (if k == src then 0 else INT_MAX) && path[k] == '-'
      invariant forall k :: k in heap.Costs <==> 0 <= k < i
      invariant forall k :: k in heap.Costs ==> heap.Costs[k] == cost[k]
      invariant forall k :: k in heap.Tracked <==> 0 <= k < i
    {
      path := path + ['-'];
      cost := cost + [if i == src then 0 else INT_MAX];
      heap.Insert(HeapNode(i, cost[i]));
      i := i + 1;
    }
    assert heap.Tracked == AllNodes(n);
  }

  /**
   * The relaxing branch of dijkstra's inner loop: `cost[v]` becomes the
   * cheaper detour through `u`, `path[v]` becomes `path[u]`, and the heap
   * entry of `v` is updated.
   */
  method Lower(g: Graph, heap: MinHeap, cost0: seq<int>, path0: seq<char>, u: int, j: int,
               ghost src: int, ghost B: int, ghost steps: int, ghost H: set<int>, ghost wit0: seq<seq<Hop>>)
    returns (cost: seq<int>, path: seq<char>, ghost wit: seq<seq<Hop>>)
    requires heap.Valid() && heap.cap == |g.adj| && |path0| == |g.adj| && |cost0| == |g.adj|
    requires heap.Costs.Keys == H && (forall k :: k in heap.Costs ==> heap.Costs[k] == cost0[k])
    requires Inv(g, src, B, steps, cost0, wit0, H) && B == MaxCost(g.adj) && Times(|g.adj|, B) < INT_MAX
    requires 0 <= u < |g.adj| && u !in H && 0 <= j < |g.adj[u]| && Relaxed(g, cost0, H, u, j)
    requires cost0[u] < INT_MAX ==> cost0[u] + B <= Times(steps, B)
    requires g.adj[u][j].dest in H && cost0[u] != INT_MAX && g.adj[u][j].cost + cost0[u] < cost0[g.adj[u][j].dest]
    requires 0 <= src < |g.adj| ==> path0[src] == '-'
    requires Positive(g) && NoDash(g) ==> HopsRecorded(g, src, cost0, path0, wit0, H)
    modifies heap, heap.pos, heap.slots
    ensures heap.Valid() && heap.size == old(heap.size) && heap.Tracked == old(heap.Tracked)
    ensures |cost| == |g.adj| && |path| == |g.adj|
    ensures var v := g.adj[u][j].dest; cost[v] == cost0[u] + g.adj[u][j].cost && path[v] == path0[u]
    ensures forall k :: 0 <= k < |g.adj| && k != g.adj[u][j].dest ==> cost[k] == cost0[k] && path[k] == path0[k]
    ensures heap.Costs.Keys == H && (forall k :: k in heap.Costs ==> heap.Costs[k] == cost[k])
    ensures Inv(g, src, B, steps, cost, wit, H) && Relaxed(g, cost, H, u, j + 1)
    ensures 0 <= src < |g.adj| ==> path[src] == '-'
    ensures Positive(g) && NoDash(g) ==> HopsRecorded(g, src, cost, path, wit, H)
  {
    var v := g.adj[u][j].dest;
    var lowered := cost0[u] + g.adj[u][j].cost;
    RelaxApply(g, src, B, steps, cost0, path0, wit0, H, u, j, lowered, path0[u]);
    cost := cost0[v := lowered];
    path := path0[v := path0[u]];
    wit := wit0[v := wit0[u] + [Hop(u, j)]];
    heap.UpdateHeap(v, lowered);
  }

  /**
   * One pass of dijkstra's inner loop: entry `j` of the extracted node `u`,
   * to `v`, lowers `cost[v]` and hands on `path[u]` when `v` is still in the
   * heap, `u` is reached and the detour is strictly cheaper; the heap is
   * re-sifted for `v`.
   */
  method RelaxEntry(g: Graph, heap: MinHeap, cost0: seq<int>, path0: seq<char>, u: int, j: int,
                    ghost src: int, ghost B: int, ghost steps: int, ghost H: set<int>, ghost wit0: seq<seq<Hop>>)
    returns (cost: seq<int>, path: seq<char>, ghost wit: seq<seq<Hop>>)
    requires heap.Valid() && heap.cap == |g.adj| && |path0| == |g.adj| && |cost0| == |g.adj|
    requires heap.Costs.Keys == H && (forall k :: k in heap.Costs ==> heap.Costs[k] == cost0[k])
    requires heap.Tracked == AllNodes(|g.adj|)
    requires Inv(g, src, B, steps, cost0, wit0, H) && B == MaxCost(g.adj) && Times(|g.adj|, B) < INT_MAX
    requires 0 <= u < |g.adj| && u !in H && 0 <= j < |g.adj[u]| && Relaxed(g, cost0, H, u, j)
    requires cost0[u] < INT_MAX ==> cost0[u] + B <= Times(steps, B)
    requires 0 <= src < |g.adj| ==> path0[src] == '-'
    requires Positive(g) && NoDash(g) ==> HopsRecorded(g, src, cost0, path0, wit0, H)
    modifies heap, heap.pos, heap.slots
    ensures heap.Valid() && heap.size == old(heap.size) && heap.Tracked == old(heap.Tracked)
    ensures |cost| == |g.adj| && |path| == |g.adj|
    ensures heap.Costs.Keys == H && (forall k :: k in heap.Costs ==> heap.Costs[k] == cost[k])
    ensures Inv(g, src, B, steps, cost, wit, H) && Relaxed(g, cost, H, u, j + 1)
    ensures cost[u] == cost0[u]
    ensures 0 <= src < |g.adj| ==> path[src] == '-'
    ensures Positive(g) && NoDash(g) ==> HopsRecorded(g, src, cost, path, wit, H)
  {
    cost, path, wit := cost0, path0, wit0;
    var v := g.adj[u][j].dest;
    var inHeap := heap.IsInHeap(v);
    if inHeap && cost[u] != INT_MAX && g.adj[u][j].cost + cost[u] < cost[v] {
      cost, path, wit := Lower(g, heap, cost, path, u, j, src, B, steps, H, wit);
    } else {
      RelaxSkip(g, src, B, steps, cost, wit, H, u, j);
    }
  }

  /** dijkstra's inner loop for the extracted node `u`: its adjacency list is walked in list order. */
  method RelaxEntries(g: Graph, heap: MinHeap, cost0: seq<int>, path0: seq<char>, u: int,
                      ghost src: int, ghost B: int, ghost steps: int, ghost H: set<int>, ghost wit0: seq<seq<Hop>>)
    returns (cost: seq<int>, path: seq<char>, ghost wit: seq<seq<Hop>>)
    requires heap.Valid() && heap.cap == |g.adj| && |path0| == |g.adj| && |cost0| == |g.adj|
    requires steps + heap.size == |g.adj| && |g.key| == |g.adj|
    requires heap.Costs.Keys == H && (forall k :: k in heap.Costs ==> heap.Costs[k] == cost0[k])
    requires heap.Tracked == AllNodes(|g.adj|)
    requires Inv(g, src, B, steps, cost0, wit0, H) && B == MaxCost(g.adj) && Times(|g.adj|, B) < INT_MAX
    requires 0 <= u < |g.adj| && u !in H && Relaxed(g, cost0, H, u, 0)
    requires cost0[u] < INT_MAX ==> cost0[u] + B <= Times(steps, B)
    requires 0 <= src < |g.adj| ==> path0[src] == '-'
    requires Positive(g) && NoDash(g) ==> HopsRecorded(g, src, cost0, path0, wit0, H)
    modifies heap, heap.pos, heap.slots
    ensures heap.size == old(heap.size) && heap.Costs.Keys == H
    ensures Progress(g, heap, src, B, steps, cost, path, wit)
  {
    cost, path, wit := cost0, path0, wit0;
    var j := 0;
    while j < |g.adj[u]|
      invariant 0 <= j <= |g.adj[u]| && |path| == |g.adj| && |cost| == |g.adj|
      invariant heap.Valid() && heap.size == old(heap.size) && heap.Tracked == old(heap.Tracked)
      invariant heap.Costs.Keys == H && (forall k :: k in heap.Costs ==> heap.Costs[k] == cost[k])
      invariant Inv(g, src, B, steps, cost, wit, H)
      invariant Relaxed(g, cost, H, u, j)
      invariant cost[u] < INT_MAX ==> cost[u] + B <= Times(steps, B)
      invariant 0 <= src < |g.adj| ==> path[src] == '-'
      invariant Positive(g) && NoDash(g) ==> HopsRecorded(g, src, cost, path, wit, H)
    {
      cost, path, wit := RelaxEntry(g, heap, cost, path, u, j, src, B, steps, H, wit);
      j := j + 1;
    }
  }

  /** dijkstra's output loop: one line per node whose cost is not INT_MAX, in node order. */
  method Routes(key: seq<Label>, cost: seq<int>, path: seq<char>) returns (routes: seq<Route>)
    requires |key| == |cost| == |path|
    ensures routes == Report(key, cost, path)
  {
    routes := [];
    var i := 0;
    while i < |cost|
      invariant 0 <= i <= |cost|
      invariant routes == Report(key[..i], cost[..i], path[..i])
    {
      if cost[i] != INT_MAX {
        routes := routes + [Route(key[i], cost[i], path[i])];
      }
      i := i + 1;
      assert key[..i][..i - 1] == key[..i - 1];
      assert cost[..i][..i - 1] == cost[..i - 1];
      assert path[..i][..i - 1] == path[..i - 1];
    }
    assert key[..i] == key && cost[..i] == cost && path[..i] == path;
  }

  /**
   * The first half of an iteration of dijkstra's main loop: the cheapest node
   * `u` is extracted and settled, and takes its own label as first hop when
   * it has none yet and a positive cost.
   */
  method ExtractCheapest(g: Graph, heap: MinHeap, cost: seq<int>, path0: seq<char>,
                         ghost src: int, ghost B: int, ghost steps: int, ghost wit: seq<seq<Hop>>)
    returns (u: int, path: seq<char>, ghost H: set<int>)
    requires heap.size > 0 && Progress(g, heap, src, B, steps, cost, path0, wit)
    modifies heap, heap.pos, heap.slots
    ensures heap.size == old(heap.size) - 1 && u in old(heap.Costs) && H == old(heap.Costs.Keys) - {u}
    ensures forall k :: k in old(heap.Costs) ==> cost[u] <= old(heap.Costs)[k]
    ensures path == if path0[u] == '-' && cost[u] > 0 then path0[u := g.key[u]] else path0
    ensures heap.Valid() && heap.cap == |g.adj| && |path| == |g.adj| && |cost| == |g.adj|
    ensures steps + 1 + heap.size == |g.adj| && |g.key| == |g.adj|
    ensures heap.Costs.Keys == H && (forall k :: k in heap.Costs ==> heap.Costs[k] == cost[k])
    ensures heap.Tracked == AllNodes(|g.adj|)
    ensures Inv(g, src, B, steps + 1, cost, wit, H) && B == MaxCost(g.adj) && Times(|g.adj|, B) < INT_MAX
    ensures 0 <= u < |g.adj| && u !in H && Relaxed(g, cost, H, u, 0)
    ensures cost[u] < INT_MAX ==> cost[u] + B <= Times(steps + 1, B)
    ensures 0 <= src < |g.adj| ==> path[src] == '-'
    ensures Positive(g) && NoDash(g) ==> HopsRecorded(g, src, cost, path, wit, H)
  {
    path := path0;
    ghost var H0 := heap.Costs.Keys;
    var heapNode := heap.Extract();
    u := heapNode.value.index;
    H := H0 - {u};
    assert u in H0 && 0 <= u < |g.adj| && (0 <= src < |g.adj| ==> cost[src] == 0);
    ExtractStep(g, src, B, steps, cost, path, wit, H0, u);
    if path[u] == '-' && cost[u] > 0 {
      path := path[u := g.key[u]];
    }
  }



  /**
   * The state between two iterations of dijkstra's main loop after `steps`
   * nodes were settled: the heap holds exactly the unsettled nodes with their
   * current costs, answers `isInHeap` for every node, and the path invariant
   * holds with every settled node fully relaxed.
   */
  ghost predicate Progress(g: Graph, heap: MinHeap, src: int, B: int, steps: int,
                           cost: seq<int>, path: seq<char>, wit: seq<seq<Hop>>)
    reads heap, heap.pos, heap.slots
  {
    && heap.Valid() && heap.cap == |g.adj| && steps + heap.size == |g.adj|
    && |path| == |g.adj| && |cost| == |g.adj| && |g.key| == |g.adj|
    && (0 <= src < |g.adj| ==> path[src] == '-')
    && (forall k :: k in heap.Costs ==> heap.Costs[k] == cost[k]) && heap.Tracked == AllNodes(|g.adj|)
    && Inv(g, src, B, steps, cost, wit, heap.Costs.Keys) && B == MaxCost(g.adj) && Times(|g.adj|, B) < INT_MAX
    && Relaxed(g, cost, heap.Costs.Keys, -1, 0)
    && (Positive(g) && NoDash(g) ==> HopsRecorded(g, src, cost, path, wit, heap.Costs.Keys))
  }

  /** dijkstra's first loop together with the invariant it establishes. */
  method Start(g: Graph, src: int) returns (cost: seq<int>, path: seq<char>, heap: MinHeap, ghost wit: seq<seq<Hop>>)
    requires WellFormed(g) && |g.adj| * MaxCost(g.adj) < INT_MAX
    ensures fresh(heap) && fresh(heap.pos) && fresh(heap.slots)
    ensures Progress(g, heap, src, MaxCost(g.adj), 0, cost, path, wit)
  {
    cost, path, heap := Seed(g, src);
    wit := seq(|g.adj|, _ => []);
    TimesIsProduct(|g.adj|, MaxCost(g.adj));
    InitialState(g, src, MaxCost(g.adj), cost, path, wit, heap.Costs.Keys);
  }

  /** dijkstra's main loop: nodes are settled one by one until the heap is empty. */
  method SettleAll(g: Graph, heap: MinHeap, cost0: seq<int>, path0: seq<char>,
                   ghost src: int, ghost B: int, ghost wit0: seq<seq<Hop>>)
    returns (cost: seq<int>, path: seq<char>, ghost wit: seq<seq<Hop>>)
    requires Progress(g, heap, src, B, 0, cost0, path0, wit0)
    modifies heap, heap.pos, heap.slots
    ensures |path| == |g.adj| && |cost| == |g.adj|
    ensures 0 <= src < |g.adj| ==> path[src] == '-'
    ensures |wit| == |g.adj|
    ensures forall v :: 0 <= v < |cost| ==> 0 <= cost[v] <= INT_MAX
    ensures 0 <= src < |g.adj| ==> cost[src] == 0
    ensures ShortestPaths(g, src, cost, path, wit)
  {
    cost, path, wit := cost0, path0, wit0;
    ghost var steps := 0;
    var empty := heap.IsEmpty();
    while !empty
      invariant Progress(g, heap, src, B, steps, cost, path, wit)
      invariant empty <==> heap.size == 0
      decreases heap.size
    {
      var u;
      ghost var H;
      u, path, H := ExtractCheapest(g, heap, cost, path, src, B, steps, wit);
      cost, path, wit := RelaxEntries(g, heap, cost, path, u, src, B, steps + 1, H, wit);
      steps := steps + 1;
      empty := heap.IsEmpty();
    }
    assert heap.Costs.Keys == {};
    FinalState(g, src, B, steps, cost, path, wit);
  }

  /**
   * dijkstra: every node starts at INT_MAX except the source at 0; the
   * cheapest heap node is extracted, gets its own label as first hop when it
   * has none and a positive cost, and relaxes its entries into the heap.
   * Returns the cost and first-hop arrays and the reported lines.
   */
  method Dijkstra(g: Graph, source: Label) returns (cost: seq<int>, path: seq<char>, routes: seq<Route>, ghost wit: seq<seq<Hop>>)
    requires WellFormed(g) && |g.adj| * MaxCost(g.adj) < INT_MAX
    ensures |cost| == |g.adj| && |path| == |g.adj| && |wit| == |g.adj|
    ensures forall v :: 0 <= v < |cost| ==> 0 <= cost[v] <= INT_MAX
    ensures forall v :: 0 <= v < |cost| ==> (cost[v] < INT_MAX <==> Reachable(g, KeyIndex(g.key, source), v))
    ensures forall v, p :: 0 <= v < |cost| && IsPath(g, KeyIndex(g.key, source), p, v) ==> cost[v] <= PathCost(g, p)
    ensures forall v :: 0 <= v < |cost| && cost[v] < INT_MAX ==>
              IsPath(g, KeyIndex(g.key, source), wit[v], v) && PathCost(g, wit[v]) == cost[v]
    ensures var src := KeyIndex(g.key, source); 0 <= src ==> cost[src] == 0 && path[src] == '-'
    ensures Positive(g) && NoDash(g) ==>
              forall v :: 0 <= v < |cost| && v != KeyIndex(g.key, source) && cost[v] < INT_MAX ==>
                |wit[v]| > 0 && 0 <= FirstHop(g, wit[v]) < |g.key| && path[v] == g.key[FirstHop(g, wit[v])]
    ensures routes == Report(g.key, cost, path)
  {
    var srcI := KeyIndex(g.key, source);
    var heap;
    cost, path, heap, wit := Start(g, srcI);
    cost, path, wit := SettleAll(g, heap, cost, path, srcI, MaxCost(g.adj), wit);
    routes := Routes(g.key, cost, path);
  }
}
