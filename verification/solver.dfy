/** The graph search of the path graph (`CMap::Solve`): a best-first
    search over areas by index, with per-area scratch nodes that persist
    between searches and are recognised as current by a query id.

    The edges of an area are whatever the cost model emits for it, given
    as `adj`; `heur(i)` is the straight-line distance from area i's center
    to the goal's. The search is reproduced as written, including that a
    node whose cost improves while it waits in the open set is not pushed
    again (its stale entry is skipped when popped), so nothing is claimed
    about optimality or completeness: only that a path returned is a chain
    of emitted edges from start to goal. */
module Solver {
  import opened Util
  import opened Nav

  datatype Edge = Edge(to: nat, cost: real)

  /** A scratch node: best cost so far, cost plus estimate, the area it was
      reached from, the search that last touched it, and whether it waits
      in the open set. */
  datatype Node = Node(g: real, f: real, parent: Option<nat>, query: nat, inOpen: bool)

  const FreshNode: Node := Node(FLT_MAX, FLT_MAX, None, 0, false)

  /** The scratch nodes and the id of the last search. */
  datatype Pather = Pather(nodes: seq<Node>, queryId: nat)

  const InitialPather: Pather := Pather([], 0)

  /** No node claims to belong to a search that has not happened yet. */
  predicate ValidPather(p: Pather) {
    forall i | 0 <= i < |p.nodes| :: p.nodes[i].query <= p.queryId
  }

  /** Return codes 0, 1 and 2 of the search. */
  datatype Outcome = Solved(path: seq<nat>, cost: real) | NoPath | Invalid

  function Code(o: Outcome): nat {
    match o
    case Solved(_, _) => 0
    case NoPath => 1
    case Invalid => 2
  }

  /** The graph as the search sees it: expanding area a in state c yields
      the edges out of a and the state afterwards, since the cost model
      writes to its caches while it expands. Expansions keep `inv`; every
      edge leads to an area of the mesh, costs something and satisfies
      `step` in the state its expansion leaves; and a later expansion never
      undoes `step` for a pair it held for. */
  ghost predicate Graph<C(!new)>(n: nat, adj: (C, nat) -> (seq<Edge>, C), step: (C, nat, nat) -> bool, inv: C -> bool) {
    && (forall c: C, a: nat | inv(c) :: inv(adj(c, a).1))
    && (forall c: C, a: nat, k | inv(c) && 0 <= k < |adj(c, a).0| ::
          && adj(c, a).0[k].to < n && adj(c, a).0[k].cost > 0.0
          && step(adj(c, a).1, a, adj(c, a).0[k].to))
    && (forall c: C, a: nat, x: nat, y: nat | inv(c) && step(c, x, y) :: step(adj(c, a).1, x, y))
  }

  /** `step` holds in c' for every pair it holds for in c. */
  ghost predicate Kept<C>(step: (C, nat, nat) -> bool, c: C, c': C) {
    forall x: nat, y: nat | step(c, x, y) :: step(c', x, y)
  }

  /** A path is a chain of steps from `start` to `end`. */
  ghost predicate Chain<C>(step: (C, nat, nat) -> bool, c: C, path: seq<nat>, start: nat, end: nat) {
    && |path| >= 1
    && path[0] == start
    && path[|path| - 1] == end
    && forall i | 0 <= i < |path| - 1 :: step(c, path[i], path[i + 1])
  }

  // ---------------------------------------------------------------------
  // The search tree invariant

  /** Node i's parent is a current node with a smaller cost, joined to i by
      a step, and is itself the start or has a parent. */
  ghost predicate Linked<C>(nodes: seq<Node>, qid: nat, start: nat, step: (C, nat, nat) -> bool, c: C, i: nat)
    requires i < |nodes| && nodes[i].parent.Some?
  {
    var p := nodes[i].parent.value;
    && p < |nodes|
    && nodes[p].query == qid
    && nodes[p].g < nodes[i].g
    && step(c, p, i)
    && (p == start || nodes[p].parent.Some?)
  }

  /** A current node that is the start or has been reached from somewhere. */
  predicate Rooted(nodes: seq<Node>, qid: nat, start: nat, x: nat) {
    x < |nodes| && nodes[x].query == qid && (x == start || nodes[x].parent.Some?)
  }

  ghost predicate Tree<C>(nodes: seq<Node>, qid: nat, start: nat, step: (C, nat, nat) -> bool, c: C) {
    && start < |nodes|
    && (forall i | 0 <= i < |nodes| :: nodes[i].query <= qid)
    && nodes[start].query == qid && nodes[start].parent.None? && nodes[start].g == 0.0
    && (forall i | 0 <= i < |nodes| && nodes[i].query == qid :: nodes[i].g >= 0.0)
    && (forall i | 0 <= i < |nodes| && nodes[i].query == qid && nodes[i].parent.Some? ::
          Linked(nodes, qid, start, step, c, i))
  }

  predicate OpenOk(nodes: seq<Node>, qid: nat, start: nat, openSet: seq<(real, nat)>) {
    forall k | 0 <= k < |openSet| :: Rooted(nodes, qid, start, openSet[k].1)
  }

  /** The tree survives a change of state that keeps every step. */
  lemma TreeKept<C>(nodes: seq<Node>, qid: nat, start: nat, step: (C, nat, nat) -> bool, c: C, c': C)
    requires Tree(nodes, qid, start, step, c) && Kept(step, c, c')
    ensures Tree(nodes, qid, start, step, c')
  {
    forall i | 0 <= i < |nodes| && nodes[i].query == qid && nodes[i].parent.Some?
      ensures Linked(nodes, qid, start, step, c', i)
    {
      assert Linked(nodes, qid, start, step, c, i);
    }
  }

  // ---------------------------------------------------------------------
  // Path reconstruction

  /** The current nodes cheaper than x. */
  function Below(nodes: seq<Node>, qid: nat, x: nat): set<nat>
    requires x < |nodes|
  {
    set j | 0 <= j < |nodes| && nodes[j].query == qid && nodes[j].g < nodes[x].g
  }

  /** Follows parents from x back to a node without one, then lists the
      areas from there to x. Parents are strictly cheaper, so this ends. */
  function Walk<C>(nodes: seq<Node>, qid: nat, start: nat, ghost step: (C, nat, nat) -> bool, ghost c: C, x: nat): (w: seq<nat>)
    requires Tree(nodes, qid, start, step, c) && Rooted(nodes, qid, start, x)
    ensures |w| >= 1 && w[|w| - 1] == x
    ensures forall i | 0 <= i < |w| :: w[i] < |nodes|
    decreases Below(nodes, qid, x)
  {
    match nodes[x].parent
    case None => [x]
    case Some(p) =>
      assert Linked(nodes, qid, start, step, c, x);
      assert p in Below(nodes, qid, x) && p !in Below(nodes, qid, p);
      Walk(nodes, qid, start, step, c, p) + [x]
  }

  lemma {:induction false} WalkIsChain<C>(nodes: seq<Node>, qid: nat, start: nat, step: (C, nat, nat) -> bool, c: C, x: nat)
    requires Tree(nodes, qid, start, step, c) && Rooted(nodes, qid, start, x)
    ensures Chain(step, c, Walk(nodes, qid, start, step, c, x), start, x)
    decreases Below(nodes, qid, x)
  {
    match nodes[x].parent
    case None =>
    case Some(p) =>
      assert Linked(nodes, qid, start, step, c, x);
      assert p in Below(nodes, qid, x) && p !in Below(nodes, qid, p);
      WalkIsChain(nodes, qid, start, step, c, p);
      var w := Walk(nodes, qid, start, step, c, p);
      assert Walk(nodes, qid, start, step, c, x) == w + [x];
  }

  // ---------------------------------------------------------------------
  // One step of the search

  /** The lexicographic order of (score, index) pairs the open set pops by. */
  predicate PairLess(a: (real, nat), b: (real, nat)) {
    a.0 < b.0 || (a.0 == b.0 && a.1 < b.1)
  }

  /** Where the smallest pair of the open set sits. */
  function MinAt(openSet: seq<(real, nat)>): (i: nat)
    requires |openSet| > 0
    ensures i < |openSet|
    ensures forall j | 0 <= j < |openSet| :: !PairLess(openSet[j], openSet[i])
  {
    if |openSet| == 1 then 0
    else
      var i := MinAt(openSet[1..]) + 1;
      assert forall j | 1 <= j < |openSet| :: openSet[j] == openSet[1..][j - 1];
      if PairLess(openSet[0], openSet[i]) then 0 else i
  }

  function RemoveAt(s: seq<(real, nat)>, i: nat): (r: seq<(real, nat)>)
    requires i < |s|
    ensures |r| == |s| - 1
    ensures forall k | 0 <= k < |r| :: r[k] == s[if k < i then k else k + 1]
  {
    s[..i] + s[i + 1..]
  }

  /** Relaxes one edge out of `cur`: a node not yet touched by this search
      is reset first; if the edge improves it, it is re-parented and, unless
      it already waits in the open set, pushed. */
  function Relax<C>(nodes: seq<Node>, openSet: seq<(real, nat)>, qid: nat, start: nat,
                    ghost step: (C, nat, nat) -> bool, ghost c: C, heur: nat -> real, cur: nat, e: Edge): (r: (seq<Node>, seq<(real, nat)>))
    requires Tree(nodes, qid, start, step, c) && OpenOk(nodes, qid, start, openSet)
    requires Rooted(nodes, qid, start, cur)
    requires e.to < |nodes| && e.cost > 0.0 && step(c, cur, e.to)
    ensures |r.0| == |nodes|
    ensures Tree(r.0, qid, start, step, c) && OpenOk(r.0, qid, start, r.1)
    ensures Rooted(r.0, qid, start, cur)
  {
    var next := nodes[e.to];
    var reset := if next.query != qid then Node(FLT_MAX, FLT_MAX, None, qid, false) else next;
    var newG := nodes[cur].g + e.cost;
    if newG < reset.g then
      var improved := reset.(parent := Some(cur), g := newG, f := newG + heur(e.to));
      if !improved.inOpen then
        var pushed := improved.(inOpen := true);
        var nodes' := nodes[e.to := pushed];
        RelaxKeepsTree(nodes, qid, start, step, c, cur, e.to, pushed);
        (nodes', openSet + [(pushed.f, e.to)])
      else
        var nodes' := nodes[e.to := improved];
        RelaxKeepsTree(nodes, qid, start, step, c, cur, e.to, improved);
        (nodes', openSet)
    else
      var nodes' := nodes[e.to := reset];
      ResetKeepsTree(nodes, openSet, qid, start, step, c, e.to);
      (nodes', openSet)
  }

  /** Re-parenting a node under the current one keeps the tree. */
  lemma RelaxKeepsTree<C>(nodes: seq<Node>, qid: nat, start: nat, step: (C, nat, nat) -> bool, c: C,
                          cur: nat, to: nat, v: Node)
    requires Tree(nodes, qid, start, step, c) && Rooted(nodes, qid, start, cur)
    requires to < |nodes| && step(c, cur, to)
    requires v.query == qid && v.parent == Some(cur) && v.g > nodes[cur].g
    requires nodes[to].query == qid ==> v.g < nodes[to].g
    ensures var nodes' := nodes[to := v];
      && Tree(nodes', qid, start, step, c)
      && (forall x | Rooted(nodes, qid, start, x) :: Rooted(nodes', qid, start, x))
      && Rooted(nodes', qid, start, to)
  {
    var nodes' := nodes[to := v];
    assert to != start by {
      assert nodes[start].g == 0.0 && nodes[cur].g >= 0.0;
    }
    forall i | 0 <= i < |nodes'| && nodes'[i].query == qid && nodes'[i].parent.Some?
      ensures Linked(nodes', qid, start, step, c, i)
    {
      if i != to {
        assert Linked(nodes, qid, start, step, c, i);
        var p := nodes[i].parent.value;
        if p == to {
          assert nodes[to].query == qid;
        }
      }
    }
  }

  /** Resetting a node the search has not touched yet keeps the tree: no
      current node points at it and it is not in the open set. */
  lemma ResetKeepsTree<C>(nodes: seq<Node>, openSet: seq<(real, nat)>, qid: nat, start: nat,
                          step: (C, nat, nat) -> bool, c: C, to: nat)
    requires Tree(nodes, qid, start, step, c) && OpenOk(nodes, qid, start, openSet)
    requires to < |nodes|
    ensures var v := if nodes[to].query != qid then Node(FLT_MAX, FLT_MAX, None, qid, false) else nodes[to];
      var nodes' := nodes[to := v];
      && Tree(nodes', qid, start, step, c)
      && OpenOk(nodes', qid, start, openSet)
      && (forall x | Rooted(nodes, qid, start, x) :: Rooted(nodes', qid, start, x))
  {
    if nodes[to].query != qid {
      var v := Node(FLT_MAX, FLT_MAX, None, qid, false);
      var nodes' := nodes[to := v];
      forall i | 0 <= i < |nodes'| && nodes'[i].query == qid && nodes'[i].parent.Some?
        ensures Linked(nodes', qid, start, step, c, i)
      {
        assert i != to;
        assert Linked(nodes, qid, start, step, c, i);
      }
    } else {
      assert nodes[to := nodes[to]] == nodes;
    }
  }

  /** Edges out of `cur` that lead into the mesh, cost something and are
      steps in state c. */
  ghost predicate EdgesOk<C>(n: nat, step: (C, nat, nat) -> bool, c: C, cur: nat, edges: seq<Edge>) {
    forall k | 0 <= k < |edges| :: edges[k].to < n && edges[k].cost > 0.0 && step(c, cur, edges[k].to)
  }

  /** Relaxes the edges of `cur` from the j-th on. */
  function RelaxFrom<C>(nodes: seq<Node>, openSet: seq<(real, nat)>, qid: nat, start: nat, n: nat,
                        ghost step: (C, nat, nat) -> bool, ghost c: C, heur: nat -> real, cur: nat,
                        edges: seq<Edge>, j: nat): (r: (seq<Node>, seq<(real, nat)>))
    requires EdgesOk(n, step, c, cur, edges) && |nodes| == n
    requires Tree(nodes, qid, start, step, c) && OpenOk(nodes, qid, start, openSet)
    requires Rooted(nodes, qid, start, cur) && j <= |edges|
    ensures |r.0| == n
    ensures Tree(r.0, qid, start, step, c) && OpenOk(r.0, qid, start, r.1)
    decreases |edges| - j
  {
    if j == |edges| then (nodes, openSet)
    else
      var step1 := Relax(nodes, openSet, qid, start, step, c, heur, cur, edges[j]);
      RelaxFrom(step1.0, step1.1, qid, start, n, step, c, heur, cur, edges, j + 1)
  }

  /** The expansion of `cur` in state c: its edges, the state afterwards,
      and the tree carried over to that state. */
  lemma Expanded<C(!new)>(nodes: seq<Node>, qid: nat, start: nat, n: nat, adj: (C, nat) -> (seq<Edge>, C),
                    step: (C, nat, nat) -> bool, inv: C -> bool, c: C, cur: nat)
    requires Graph(n, adj, step, inv) && inv(c) && Tree(nodes, qid, start, step, c)
    ensures inv(adj(c, cur).1) && EdgesOk(n, step, adj(c, cur).1, cur, adj(c, cur).0)
    ensures Kept(step, c, adj(c, cur).1)
    ensures Tree(nodes, qid, start, step, adj(c, cur).1)
  {
    TreeKept(nodes, qid, start, step, c, adj(c, cur).1);
  }

  /** The main loop, with `fuel` bounding the number of pops. */
  function Search<C(!new)>(nodes: seq<Node>, openSet: seq<(real, nat)>, qid: nat, start: nat, end: nat, n: nat,
                     adj: (C, nat) -> (seq<Edge>, C), ghost step: (C, nat, nat) -> bool, ghost inv: C -> bool,
                     heur: nat -> real, c: C, fuel: nat): (r: (Outcome, seq<Node>, C))
    requires Graph(n, adj, step, inv) && inv(c) && |nodes| == n && end < n
    requires Tree(nodes, qid, start, step, c) && OpenOk(nodes, qid, start, openSet)
    ensures |r.1| == n && inv(r.2) && Kept(step, c, r.2)
    ensures forall i | 0 <= i < n :: r.1[i].query <= qid
    ensures r.0.Solved? ==> Chain(step, r.2, r.0.path, start, end)
    ensures r.0.Solved? ==> forall i | 0 <= i < |r.0.path| :: r.0.path[i] < n
    ensures !r.0.Invalid?
    decreases fuel
  {
    if |openSet| == 0 || fuel == 0 then (NoPath, nodes, c)
    else
      var i := MinAt(openSet);
      var (score, idx) := openSet[i];
      var rest := RemoveAt(openSet, i);
      assert Rooted(nodes, qid, start, idx);
      if idx == end then
        WalkIsChain(nodes, qid, start, step, c, end);
        (Solved(Walk(nodes, qid, start, step, c, end), nodes[end].g), nodes, c)
      else
        var nodes1 := nodes[idx := nodes[idx].(inOpen := false)];
        assert Tree(nodes1, qid, start, step, c) by {
          forall j | 0 <= j < |nodes1| && nodes1[j].query == qid && nodes1[j].parent.Some?
            ensures Linked(nodes1, qid, start, step, c, j)
          {
            assert Linked(nodes, qid, start, step, c, j);
          }
        }
        assert OpenOk(nodes1, qid, start, rest);
        if score > nodes1[idx].f then
          Search(nodes1, rest, qid, start, end, n, adj, step, inv, heur, c, fuel - 1)
        else
          var ex := adj(c, idx);
          Expanded(nodes1, qid, start, n, adj, step, inv, c, idx);
          var relaxed := RelaxFrom(nodes1, rest, qid, start, n, step, ex.1, heur, idx, ex.0, 0);
          var r := Search(relaxed.0, relaxed.1, qid, start, end, n, adj, step, inv, heur, ex.1, fuel - 1);
          assert Kept(step, c, r.2) by {
            assert Kept(step, c, ex.1) && Kept(step, ex.1, r.2);
          }
          r
  }

  /** `Solve`: code 2 for a null end, an empty mesh or an index outside it;
      otherwise a fresh query id and a search from the start node. The
      state the expansions write is threaded through and handed back; a
      rejected request leaves it as it was. */
  function Solve<C(!new)>(p: Pather, n: nat, start: Option<nat>, end: Option<nat>,
                    adj: (C, nat) -> (seq<Edge>, C), ghost step: (C, nat, nat) -> bool, ghost inv: C -> bool,
                    heur: nat -> real, c: C, fuel: nat): (r: (Outcome, Pather, C))
    requires Graph(n, adj, step, inv) && inv(c) && ValidPather(p)
    ensures ValidPather(r.1) && inv(r.2) && Kept(step, c, r.2)
    ensures r.0.Invalid? <==> start.None? || end.None? || n == 0 || start.value >= n || end.value >= n
    ensures r.0.Invalid? ==> r.2 == c
    ensures r.0.Solved? ==> Chain(step, r.2, r.0.path, start.value, end.value)
    ensures r.0.Solved? ==> forall i | 0 <= i < |r.0.path| :: r.0.path[i] < n
  {
    if start.None? || end.None? || n == 0 then (Invalid, p, c)
    else
      var nodes := if |p.nodes| != n then seq(n, k => FreshNode) else p.nodes;
      var qid := p.queryId + 1;
      if start.value >= n || end.value >= n then (Invalid, Pather(nodes, qid), c)
      else
        var s := start.value;
        var nodes1 := nodes[s := Node(0.0, heur(s), None, qid, true)];
        assert forall i | 0 <= i < |nodes1| && nodes1[i].query == qid :: i == s;
        var openSet := [(heur(s), s)];
        var r := Search(nodes1, openSet, qid, s, end.value, n, adj, step, inv, heur, c, fuel);
        (r.0, Pather(r.1, qid), r.2)
  }

  /** A search from an area to itself finds the one-area path at no cost,
      without expanding anything. */
  lemma SolveSame<C(!new)>(p: Pather, n: nat, a: nat, adj: (C, nat) -> (seq<Edge>, C), step: (C, nat, nat) -> bool,
                     inv: C -> bool, heur: nat -> real, c: C, fuel: nat)
    requires Graph(n, adj, step, inv) && inv(c) && ValidPather(p)
    requires a < n && fuel >= 1
    ensures Solve(p, n, Some(a), Some(a), adj, step, inv, heur, c, fuel) == (Solved([a], 0.0), Solve(p, n, Some(a), Some(a), adj, step, inv, heur, c, fuel).1, c)
  {
  }
}
