/** The incremental A* search over the maze (`Board` in src/board.py). */
module Boards {
  import opened Nodes

  /** A heuristic value: the scaled straight-line distance is never negative. */
  type Length = r: real | 0.0 <= r

  /** The search state at one moment: the two frontier lists (as node indices) and every node. */
  datatype Snapshot = Snapshot(open: seq<nat>, closed: seq<nat>, nodes: seq<Node>)

  /** `numpy.minimum` on two integers. */
  function Min(a: int, b: int): (r: int)
    ensures r <= a && r <= b && (r == a || r == b)
  {
    if a <= b then a else b
  }

  /** `numpy.minimum` on two distances. */
  function MinReal(a: real, b: real): (r: real)
    ensures r <= a && r <= b && (r == a || r == b)
  {
    if a <= b then a else b
  }

  /** The position of the first occurrence of `x` in `s`. */
  function FirstIndex(s: seq<nat>, x: nat): (i: nat)
    requires x in s
    ensures i < |s| && s[i] == x && x !in s[..i]
  {
    if s[0] == x then 0 else 1 + FirstIndex(s[1..], x)
  }

  /** `list.remove`: drops the first occurrence of `x` and nothing else. */
  function RemoveFirst(s: seq<nat>, x: nat): (r: seq<nat>)
    requires x in s
    ensures r == s[..FirstIndex(s, x)] + s[FirstIndex(s, x) + 1..]
    ensures |r| == |s| - 1
    ensures multiset(r) == multiset(s) - multiset{x}
    ensures forall w :: w in r ==> w in s
  {
    var i := FirstIndex(s, x);
    assert s == s[..i] + [x] + s[i + 1..];
    s[..i] + s[i + 1..]
  }

  /** The strict comparison of `next_state`: a lower f-score wins, and on equal f-scores
      a lower distance to the end wins. */
  predicate Better(a: Node, b: Node)
    ensures Total(a) < Total(b) ==> Better(a, b)
    ensures Better(a, b) ==> Total(a) <= Total(b)
  {
    Total(a) < Total(b) || (Total(a) == Total(b) && a.toEnd < b.toEnd)
  }

  /** Position `j` of the open list takes part in the selection: the scan starts from position 0
      whatever it holds, and afterwards only considers nodes that are not closed. */
  predicate Candidate(s: Snapshot, j: int)
  {
    0 <= j < |s.open| && (j == 0 || s.open[j] !in s.closed)
  }

  ghost predicate Indexed(s: Snapshot)
  {
    forall j :: 0 <= j < |s.open| ==> s.open[j] < |s.nodes|
  }

  /** Position `k` is the one the scan of `next_state` ends on: no candidate is better than it,
      and every candidate before it is strictly worse (so an exact tie keeps the earlier entry). */
  ghost predicate IsSelection(s: Snapshot, k: nat)
    requires Indexed(s)
  {
    Candidate(s, k) &&
    (forall j {:trigger Candidate(s, j)} :: 0 <= j < k && Candidate(s, j) ==> Better(s.nodes[s.open[k]], s.nodes[s.open[j]])) &&
    (forall j {:trigger Candidate(s, j)} :: Candidate(s, j) ==> !Better(s.nodes[s.open[j]], s.nodes[s.open[k]]))
  }

  /** `Better` is a strict weak order: irreflexive, transitive, and two nodes are incomparable
      exactly when they tie on both keys. */
  lemma BetterIsStrictWeakOrder(a: Node, b: Node, c: Node)
    ensures !Better(a, a)
    ensures Better(a, b) && Better(b, c) ==> Better(a, c)
    ensures !Better(a, b) && !Better(b, a) <==> Total(a) == Total(b) && a.toEnd == b.toEnd
  {
  }

  /** The selection is unique: the scan is deterministic for a given open-list order. */
  lemma SelectionIsUnique(s: Snapshot, k1: nat, k2: nat)
    requires Indexed(s) && IsSelection(s, k1) && IsSelection(s, k2)
    ensures k1 == k2
  {
  }

  /** The selected node has the least f-score among the candidates, and among those of equal
      f-score the least distance to the end. */
  lemma SelectionIsMinimal(s: Snapshot, k: nat, j: nat)
    requires Indexed(s) && IsSelection(s, k) && Candidate(s, j)
    ensures Total(s.nodes[s.open[k]]) <= Total(s.nodes[s.open[j]])
    ensures Total(s.nodes[s.open[k]]) == Total(s.nodes[s.open[j]]) ==>
              s.nodes[s.open[k]].toEnd <= s.nodes[s.open[j]].toEnd
  {
  }

  /** When another candidate ties with the selected one on both keys, the selected one is the
      earlier entry of the open list. */
  lemma TieKeepsEarlier(s: Snapshot, k: nat, j: nat)
    requires Indexed(s) && IsSelection(s, k) && Candidate(s, j) && j != k
    requires Total(s.nodes[s.open[j]]) == Total(s.nodes[s.open[k]])
    requires s.nodes[s.open[j]].toEnd == s.nodes[s.open[k]].toEnd
    ensures k < j
  {
  }

  /** The scan starts from the head of the open list without asking whether it is closed, so a
      head, closed or not, that no candidate beats is the selection. */
  lemma ClosedHeadCanBeSelected(s: Snapshot)
    requires Indexed(s) && |s.open| > 0
    requires forall j :: Candidate(s, j) ==> !Better(s.nodes[s.open[j]], s.nodes[s.open[0]])
    ensures IsSelection(s, 0)
  {
  }

  /** The node list after the visited node has been given type 4. */
  function Closing(ns: seq<Node>, v: nat): (r: seq<Node>)
    requires v < |ns|
    ensures |r| == |ns| && r[v].kind == Code(4)
    ensures r[v].loc == ns[v].loc && r[v].fromStart == ns[v].fromStart && r[v].toEnd == ns[v].toEnd
    ensures r[v].parent == ns[v].parent && r[v].nodeType == ns[v].nodeType
    ensures forall i :: 0 <= i < |ns| && i != v ==> r[i] == ns[i]
  {
    ns[v := ns[v].(kind := Code(4))]
  }

  class Board {
    const rows: int
    const columns: int
    /** The node list; a node is identified by its index in it. */
    const nodes: array<Node>
    const start: nat
    const end: nat
    /** `NODE_STRAIGHT_DISTANCE` and `NODE_DIAGONAL_DISTANCE`. */
    const straightCost: int
    const diagonalCost: int
    /** `get_distance_to_end` for a node at the first position when the end node is at the second. */
    const heuristic: (Loc, Loc) -> Length

    /** `open_nodes`: nodes next to a visited node; may hold repeats. */
    var open: seq<nat>
    /** `closed_nodes`: nodes that have been visited. */
    var closed: seq<nat>

    ghost predicate Valid()
      reads this
    {
      start < nodes.Length && end < nodes.Length &&
      0 < straightCost && 0 < diagonalCost &&
      (forall j :: 0 <= j < |open| ==> open[j] < nodes.Length) &&
      (forall j :: 0 <= j < |closed| ==> closed[j] < nodes.Length)
    }

    function State(): (s: Snapshot)
      reads this, nodes
      ensures s.open == open && s.closed == closed && s.nodes == nodes[..]
    {
      Snapshot(open, closed, nodes[..])
    }

    /** `Board.__init__` after the node list, start and end have been loaded: the frontier is the
        start node alone. */
    constructor (rows: int, columns: int, nodeList: seq<Node>, start: nat, end: nat,
                 straightCost: int, diagonalCost: int, heuristic: (Loc, Loc) -> Length)
      requires start < |nodeList| && end < |nodeList|
      requires 0 < straightCost && 0 < diagonalCost
      ensures Valid() && fresh(nodes)
      ensures this.rows == rows && this.columns == columns && this.start == start && this.end == end
      ensures this.straightCost == straightCost && this.diagonalCost == diagonalCost
      ensures this.heuristic == heuristic
      ensures nodes[..] == nodeList && open == [start] && closed == []
    {
      this.rows, this.columns := rows, columns;
      this.start, this.end := start, end;
      this.straightCost, this.diagonalCost := straightCost, diagonalCost;
      this.heuristic := heuristic;
      nodes := new Node[|nodeList|](i requires 0 <= i < |nodeList| => nodeList[i]);
      closed := [];
      open := [start];
    }

    /** `is_border_node`: the frame at x == 0, x == columns, y == 0 or y == rows. */
    predicate IsBorder(l: Loc)
      ensures IsBorder(l) <==> l.x == 0 || l.x == columns || l.y == 0 || l.y == rows
    {
      if l.x == 0 || l.x == columns then true
      else if l.y == 0 || l.y == rows then true
      else false
    }

    /** For a position inside the grid, only the first row and column are masked: a grid
        `columns` wide has no node at x == columns, nor one `rows` high at y == rows. */
    lemma BorderInsideGrid(l: Loc)
      requires 0 <= l.x < columns && 0 <= l.y < rows
      ensures IsBorder(l) <==> l.x == 0 || l.y == 0
    {
    }

    /** The step cost of `visit_node`: straight when the two positions share x or y. */
    function StepCost(from: Loc, to: Loc): (c: int)
      ensures c == straightCost || c == diagonalCost
      ensures to.x == from.x || to.y == from.y ==> c == straightCost
      ensures to.x != from.x && to.y != from.y ==> c == diagonalCost
    {
      if to.x == from.x || to.y == from.y then straightCost else diagonalCost
    }

    /** Between neighbours, the straight cost applies exactly to the four orthogonal moves. */
    lemma StepCostOfNeighbor(from: Loc, to: Loc)
      requires IsNeighbor(from, to)
      ensures StepCost(from, to) ==
                if (to.x - from.x) * (to.x - from.x) + (to.y - from.y) * (to.y - from.y) == 1
                then straightCost else diagonalCost
    {
    }

    /** What `visit_node` does to one non-border neighbour `n` of the visited node `via`, at index `v`:
        the parent becomes `v` unconditionally, both distances are lowered by `min`, and
        `node_type` becomes 3; the type and position are untouched. */
    function Relax(n: Node, v: nat, via: Node, endLoc: Loc): (r: Node)
      ensures r.kind == n.kind && r.loc == n.loc
      ensures r.parent == Some(v) && r.nodeType == Some(3)
      ensures r.fromStart <= n.fromStart && r.fromStart <= via.fromStart + StepCost(via.loc, n.loc)
      ensures r.fromStart == n.fromStart || r.fromStart == via.fromStart + StepCost(via.loc, n.loc)
      ensures r.toEnd <= n.toEnd && r.toEnd <= heuristic(n.loc, endLoc)
      ensures r.toEnd == n.toEnd || r.toEnd == heuristic(n.loc, endLoc)
    {
      n.(parent := Some(v),
         fromStart := Min(n.fromStart, via.fromStart + StepCost(via.loc, n.loc)),
         toEnd := MinReal(n.toEnd, heuristic(n.loc, endLoc)),
         nodeType := Some(3))
    }

    /** The entries of `nb` that are not border nodes, in order. */
    function Kept(nb: seq<nat>, ns: seq<Node>): (r: seq<nat>)
      requires forall j :: 0 <= j < |nb| ==> nb[j] < |ns|
      ensures |r| <= |nb|
      ensures forall j :: 0 <= j < |r| ==> r[j] < |ns| && !IsBorder(ns[r[j]].loc)
      decreases |nb|
    {
      if nb == [] then []
      else
        var last := nb[|nb| - 1];
        var prev := Kept(nb[..|nb| - 1], ns);
        if IsBorder(ns[last].loc) then prev else prev + [last]
    }

    /** A node index is kept exactly when it is among the neighbours and not a border node. */
    lemma {:induction false} KeptMembers(nb: seq<nat>, ns: seq<Node>, w: nat)
      requires forall j :: 0 <= j < |nb| ==> nb[j] < |ns|
      ensures w in Kept(nb, ns) <==> w in nb && !IsBorder(ns[w].loc)
      decreases |nb|
    {
      if nb != [] {
        var front := nb[..|nb| - 1];
        KeptMembers(front, ns, w);
        assert nb == front + [nb[|nb| - 1]];
      }
    }

    /** `Kept` keeps the order of its input: from strictly increasing indices it gives strictly
        increasing indices, so no neighbour is appended twice. */
    lemma {:induction false} KeptInOrder(nb: seq<nat>, ns: seq<Node>)
      requires forall j :: 0 <= j < |nb| ==> nb[j] < |ns|
      requires forall j, k :: 0 <= j < k < |nb| ==> nb[j] < nb[k]
      ensures forall j, k :: 0 <= j < k < |Kept(nb, ns)| ==> Kept(nb, ns)[j] < Kept(nb, ns)[k]
      decreases |nb|
    {
      if nb != [] {
        var front := nb[..|nb| - 1];
        var last := nb[|nb| - 1];
        KeptInOrder(front, ns);
        var prev := Kept(front, ns);
        forall j | 0 <= j < |prev|
          ensures prev[j] < last
        {
          KeptMembers(front, ns, prev[j]);
          var i :| 0 <= i < |front| && front[i] == prev[j];
          assert nb[i] < nb[|nb| - 1];
        }
      }
    }

    /** In a strictly increasing sequence every value occurs at most once. */
    lemma {:induction false} CountInIncreasing(r: seq<nat>, w: nat)
      requires forall j, k :: 0 <= j < k < |r| ==> r[j] < r[k]
      ensures multiset(r)[w] == if w in r then 1 else 0
      decreases |r|
    {
      if r != [] {
        var front := r[..|r| - 1];
        CountInIncreasing(front, w);
        assert r == front + [r[|r| - 1]];
        forall j | 0 <= j < |front|
          ensures front[j] < r[|r| - 1]
        {
        }
      }
    }

    /** The effect of `visit_node(v)` on state `s0`, giving `s1`: the first occurrence of `v` leaves
        the open list, `v` is appended to the closed list and given type 4, every non-border
        neighbour is relaxed through `v` and appended to the open list in node-list order, and
        every other node, border neighbours included, is left as it was. */
    ghost predicate VisitPost(s0: Snapshot, v: nat, s1: Snapshot)
    {
      v in s0.open && v < |s0.nodes| && end < |s0.nodes| &&
      var ns := Closing(s0.nodes, v);
      var nb := NeighborIndices(ns[v], ns, |ns|);
      s1.open == RemoveFirst(s0.open, v) + Kept(nb, ns) &&
      s1.closed == s0.closed + [v] &&
      |s1.nodes| == |ns| &&
      s1.nodes[v] == ns[v] &&
      forall i :: 0 <= i < |ns| && i != v ==>
        s1.nodes[i] == if i in nb && !IsBorder(ns[i].loc) then Relax(ns[i], v, ns[v], ns[end].loc) else ns[i]
    }

    /** The state `visit_node(v)` leaves, computed the way its body runs: the list updates, type 4
        for `v`, then the neighbour loop over the list `get_neighbors` returns. */
    ghost function Visit(s0: Snapshot, v: nat): (s1: Snapshot)
      requires v in s0.open && v < |s0.nodes| && end < |s0.nodes|
      ensures s1.closed == s0.closed + [v] && |s1.nodes| == |s0.nodes|
    {
      var ns := Closing(s0.nodes, v);
      var nb := NeighborIndices(ns[v], ns, |ns|);
      Snapshot(RemoveFirst(s0.open, v) + Kept(nb, ns), s0.closed + [v], RelaxAll(ns, v, nb))
    }

    /** The node list after the neighbours in `nb` have been relaxed through `v` one after another,
        border neighbours skipped, as the loop of `visit_node` does it. */
    ghost function RelaxAll(ns: seq<Node>, v: nat, nb: seq<nat>): (r: seq<Node>)
      requires v < |ns| && end < |ns|
      requires forall j :: 0 <= j < |nb| ==> nb[j] < |ns|
      ensures |r| == |ns|
      ensures forall i :: 0 <= i < |ns| ==> r[i].loc == ns[i].loc
      decreases |nb|
    {
      if nb == [] then ns
      else
        var prev := RelaxAll(ns, v, nb[..|nb| - 1]);
        var w := nb[|nb| - 1];
        if IsBorder(prev[w].loc) then prev else prev[w := Relax(prev[w], v, prev[v], prev[end].loc)]
    }

    /** Relaxing a list of distinct neighbours that excludes `v` changes each of them once, from
        its original value, and no other node. */
    lemma {:induction false} RelaxAllAt(ns: seq<Node>, v: nat, nb: seq<nat>)
      requires v < |ns| && end < |ns|
      requires forall j :: 0 <= j < |nb| ==> nb[j] < |ns|
      requires forall j, k :: 0 <= j < k < |nb| ==> nb[j] < nb[k]
      requires v !in nb
      ensures forall i :: 0 <= i < |ns| ==>
        RelaxAll(ns, v, nb)[i] == if i in nb && !IsBorder(ns[i].loc) then Relax(ns[i], v, ns[v], ns[end].loc) else ns[i]
      decreases |nb|
    {
      if nb != [] {
        var front := nb[..|nb| - 1];
        var w := nb[|nb| - 1];
        RelaxAllAt(ns, v, front);
        forall j | 0 <= j < |front|
          ensures front[j] != w
        {
          assert nb[j] < nb[|nb| - 1];
        }
        assert forall i :: i in nb <==> i in front || i == w;
      }
    }

    /** `visit_node` never raises a distance: each node's distance from the start, distance to the
        end and f-score are at most what they were, and the visited node keeps its distances. */
    lemma VisitNeverIncreases(s0: Snapshot, v: nat, s1: Snapshot, i: nat)
      requires VisitPost(s0, v, s1) && i < |s0.nodes|
      ensures s1.nodes[i].fromStart <= s0.nodes[i].fromStart
      ensures s1.nodes[i].toEnd <= s0.nodes[i].toEnd
      ensures Total(s1.nodes[i]) <= Total(s0.nodes[i])
      ensures s1.nodes[i].loc == s0.nodes[i].loc
      ensures i == v ==> s1.nodes[i].fromStart == s0.nodes[i].fromStart && s1.nodes[i].toEnd == s0.nodes[i].toEnd
    {
    }

    /** `visit_node` removes one occurrence of the visited node from the open list and appends one
        entry per non-border neighbour, in node-list order; the closed list grows by exactly one. */
    lemma VisitCounts(s0: Snapshot, v: nat, s1: Snapshot)
      requires VisitPost(s0, v, s1)
      ensures var ns := Closing(s0.nodes, v);
              var added := Kept(NeighborIndices(ns[v], ns, |ns|), ns);
              |s1.open| == |s0.open| - 1 + |added| &&
              multiset(s1.open) == multiset(s0.open) - multiset{v} + multiset(added)
      ensures var ns := Closing(s0.nodes, v);
              var nb := NeighborIndices(ns[v], ns, |ns|);
              var added := Kept(nb, ns);
              (forall j, k :: 0 <= j < k < |added| ==> added[j] < added[k]) &&
              forall w :: w < |s0.nodes| ==>
                multiset(added)[w] == if w in nb && !IsBorder(ns[w].loc) then 1 else 0
      ensures |s1.closed| == |s0.closed| + 1 && s1.closed[|s0.closed|] == v
    {
      var ns := Closing(s0.nodes, v);
      var nb := NeighborIndices(ns[v], ns, |ns|);
      var added: seq<nat> := Kept(nb, ns);
      KeptInOrder(nb, ns);
      forall w: nat | w < |s0.nodes|
        ensures multiset(added)[w] == if w in nb && !IsBorder(ns[w].loc) then 1 else 0
      {
        KeptMembers(nb, ns, w);
        CountInIncreasing(added, w);
      }
    }

    /** A node is appended to the open list exactly when it neighbours the visited node, is not a
        wall by the string test, and is not a border node. Nothing excludes a node that is already
        closed, which is then both closed and open again. */
    lemma VisitAppends(s0: Snapshot, v: nat, s1: Snapshot, w: nat)
      requires VisitPost(s0, v, s1) && w < |s0.nodes|
      ensures var ns := Closing(s0.nodes, v);
              w in s1.open[|s0.open| - 1..] <==>
                IsNeighbor(s0.nodes[v].loc, s0.nodes[w].loc) && s0.nodes[w].kind != Label("wall") &&
                !IsBorder(s0.nodes[w].loc)
      ensures w in s1.open[|s0.open| - 1..] && w in s0.closed ==> w in s1.open && w in s1.closed
    {
      var ns := Closing(s0.nodes, v);
      var nb := NeighborIndices(ns[v], ns, |ns|);
      KeptMembers(nb, ns, w);
      SelfNotAmongNeighbors(ns[v], ns, v);
      assert s1.open[|s0.open| - 1..] == Kept(nb, ns);
    }

    /** `get_distance_to_end`. */
    function DistanceToEnd(n: Node): (d: Length)
      requires end < nodes.Length
      reads nodes
      ensures 0.0 <= d && d == heuristic(n.loc, nodes[end].loc)
    {
      heuristic(n.loc, nodes[end].loc)
    }

    /** `visit_node`. */
    method VisitNode(v: nat)
      requires Valid() && v in open
      modifies this, nodes
      ensures Valid()
      ensures State() == Visit(old(State()), v)
      ensures VisitPost(old(State()), v, State())
    {
      ghost var s0 := State();
      open := RemoveFirst(open, v);
      closed := closed + [v];
      nodes[v] := nodes[v].(kind := Code(4));
      assert nodes[..] == Closing(s0.nodes, v);

      var neighbors := GetNeighbors(nodes[v], nodes[..]);
      RelaxNeighbors(v, neighbors);
      assert State() == Visit(s0, v);
      VisitPostOfLoop(s0, v);
    }

    /** The loop of `visit_node`: every non-border neighbour in turn is relaxed through `v`
        and appended to the open list. */
    method RelaxNeighbors(v: nat, neighbors: seq<nat>)
      requires Valid() && v < nodes.Length
      requires forall j :: 0 <= j < |neighbors| ==> neighbors[j] < nodes.Length
      modifies this`open, nodes
      ensures Valid()
      ensures open == old(open) + Kept(neighbors, old(nodes[..]))
      ensures nodes[..] == RelaxAll(old(nodes[..]), v, neighbors)
    {
      ghost var ns := nodes[..];
      var k := 0;
      assert neighbors[..0] == [];
      while k < |neighbors|
        invariant 0 <= k <= |neighbors| && Valid()
        invariant open == old(open) + Kept(neighbors[..k], ns)
        invariant nodes[..] == RelaxAll(ns, v, neighbors[..k])
      {
        assert neighbors[..k + 1][..k] == neighbors[..k];
        var neighbor := neighbors[k];
        if !IsBorder(nodes[neighbor].loc) {
          RelaxNeighbor(v, neighbor);
          open := open + [neighbor];
        }
        k := k + 1;
      }
      assert neighbors[..k] == neighbors;
    }

    /** The body of the loop of `visit_node` for one non-border neighbour `w` of `v`. */
    method RelaxNeighbor(v: nat, w: nat)
      requires v < nodes.Length && w < nodes.Length && end < nodes.Length
      modifies nodes
      ensures nodes[..] == old(nodes[..])[w := Relax(old(nodes[w]), v, old(nodes[v]), old(nodes[end]).loc)]
    {
      var node := nodes[v];
      var neighbor := nodes[w];
      var distance;
      if neighbor.loc.x == node.loc.x || neighbor.loc.y == node.loc.y {
        distance := node.fromStart + straightCost;
      } else {
        distance := node.fromStart + diagonalCost;
      }
      neighbor := neighbor.(parent := Some(v));
      neighbor := neighbor.(fromStart := Min(neighbor.fromStart, distance));
      neighbor := neighbor.(toEnd := MinReal(neighbor.toEnd, DistanceToEnd(neighbor)));
      neighbor := neighbor.(nodeType := Some(3));
      nodes[w] := neighbor;
    }

    /** The state the loop of `visit_node` leaves behind satisfies VisitPost. */
    lemma VisitPostOfLoop(s0: Snapshot, v: nat)
      requires v in s0.open && v < |s0.nodes| && end < |s0.nodes|
      ensures VisitPost(s0, v, Visit(s0, v))
    {
      var ns := Closing(s0.nodes, v);
      SelfNotAmongNeighbors(ns[v], ns, v);
      RelaxAllAt(ns, v, NeighborIndices(ns[v], ns, |ns|));
    }

    /** The scan of `next_state` (the loop over `open_nodes`), returning the position it ends on. */
    method SelectNode() returns (k: nat)
      requires Valid() && |open| > 0
      ensures IsSelection(State(), k)
    {
      ghost var s := State();
      k := 0;
      var i := 0;
      while i < |open|
        invariant 0 <= i <= |open|
        invariant Candidate(s, k) && (k == 0 || k < i)
        invariant forall j :: 0 <= j < k && Candidate(s, j) ==> Better(nodes[open[k]], nodes[open[j]])
        invariant forall j :: (j == 0 || j < i) && Candidate(s, j) ==> !Better(nodes[open[j]], nodes[open[k]])
      {
        var node := open[i];
        if node !in closed {
          if Total(nodes[node]) < Total(nodes[open[k]]) {
            k := i;
          } else if Total(nodes[node]) == Total(nodes[open[k]]) && nodes[node].toEnd < nodes[open[k]].toEnd {
            k := i;
          }
        }
        i := i + 1;
      }
    }

    /** `show_path`: its body is empty. */
    method ShowPath()
      ensures unchanged(this, nodes)
    {
    }

    /** One call of `next_state` from state `s0`, giving `s1`: once the end node is closed or the open
        list is empty the call is idle (the same as zero calls); otherwise the node the scan selects
        is visited. `Step`, `Steps` and `LastStep` are defined together, ordered by their measures. */
    ghost predicate Step(s0: Snapshot, s1: Snapshot)
      decreases 0, 2
    {
      if end in s0.closed || |s0.open| == 0 then Steps(s0, s1, 0) else VisitsSelected(s0, s1)
    }

    /** The node the scan of `next_state` selects in `s0` is visited, giving `s1`. */
    ghost predicate VisitsSelected(s0: Snapshot, s1: Snapshot)
    {
      Indexed(s0) && end < |s0.nodes| && exists k: nat :: IsSelection(s0, k) && s1 == Visit(s0, s0.open[k])
    }

    /** `n` calls of `next_state` in a row lead from `s0` to `s1`. */
    ghost predicate Steps(s0: Snapshot, s1: Snapshot, n: nat)
      decreases n, 1
    {
      if n == 0 then s1 == s0 else LastStep(s0, s1, n)
    }

    /** `n - 1` calls lead from `s0` to some state, and one more call leads from there to `s1`. */
    ghost predicate LastStep(s0: Snapshot, s1: Snapshot, n: nat)
      requires n > 0
      decreases n, 0
    {
      exists mid :: Steps(s0, mid, n - 1) && Step(mid, s1)
    }

    /** One more call of `next_state` after `n` calls makes `n + 1` calls. */
    lemma StepsThenStep(s0: Snapshot, s1: Snapshot, s2: Snapshot, n: nat)
      requires Steps(s0, s1, n) && Steps(s1, s2, 1)
      ensures Steps(s0, s2, n + 1)
    {
      assert LastStep(s1, s2, 1);
      var mid :| Steps(s1, mid, 0) && Step(mid, s2);
      assert LastStep(s0, s2, n + 1);
    }

    /** Once the end node is closed, further calls of `next_state` change nothing. */
    lemma {:induction false} StepsFromSolvedAreIdle(s0: Snapshot, s1: Snapshot, n: nat)
      requires end in s0.closed && Steps(s0, s1, n)
      ensures s1 == s0
      decreases n
    {
      if n > 0 {
        var mid := LastStepOf(s0, s1, n);
        StepsFromSolvedAreIdle(s0, mid, n - 1);
        assert LastStep(mid, s1, 1);
        assert Step(mid, s1);
        assert Steps(mid, s1, 0);
      }
    }

    /** Over `n` calls of `next_state` the closed list only grows, by at most one node per call. */
    lemma {:induction false} StepsGrowClosed(s0: Snapshot, s1: Snapshot, n: nat)
      requires Steps(s0, s1, n)
      ensures s0.closed <= s1.closed && |s1.closed| <= |s0.closed| + n
      decreases n
    {
      if n > 0 {
        var mid := LastStepOf(s0, s1, n);
        StepsGrowClosed(s0, mid, n - 1);
        StepGrowsClosed(mid, s1);
      }
    }

    /** The state before the last of `n` calls. */
    lemma LastStepOf(s0: Snapshot, s1: Snapshot, n: nat) returns (mid: Snapshot)
      requires n > 0 && Steps(s0, s1, n)
      ensures Steps(s0, mid, n - 1) && Steps(mid, s1, 1)
    {
      assert LastStep(s0, s1, n);
      mid :| Steps(s0, mid, n - 1) && Step(mid, s1);
      assert Steps(mid, mid, 0) && LastStep(mid, s1, 1);
    }

    /** One call of `next_state` adds at most one node to the closed list and removes none. */
    lemma StepGrowsClosed(s0: Snapshot, s1: Snapshot)
      requires Steps(s0, s1, 1)
      ensures s0.closed <= s1.closed && |s1.closed| <= |s0.closed| + 1
    {
      assert LastStep(s0, s1, 1);
      assert Step(s0, s1);
      if end in s0.closed || |s0.open| == 0 {
        assert Steps(s0, s1, 0);
      } else {
        var k: nat :| IsSelection(s0, k) && s1 == Visit(s0, s0.open[k]);
      }
    }

    /** `next_state`: one expansion, unless the end node is already closed or nothing is open,
        in which case nothing changes. */
    method NextState()
      requires Valid()
      modifies this, nodes
      ensures Valid()
      ensures Steps(old(State()), State(), 1)
      ensures old(end in closed || |open| == 0) ==> State() == old(State())
      ensures old(end !in closed && |open| > 0) ==>
                exists k: nat :: IsSelection(old(State()), k) && VisitPost(old(State()), old(open)[k], State())
      ensures old(closed) <= closed && |closed| <= |old(closed)| + 1
    {
      ghost var s0 := State();
      if end !in closed && |open| > 0 {
        var k := SelectNode();
        VisitNode(open[k]);
        assert IsSelection(s0, k) && VisitPost(s0, s0.open[k], State());
        assert VisitsSelected(s0, State());
      } else {
        ShowPath();
      }
      assert Steps(s0, s0, 0) && Step(s0, State());
      assert LastStep(s0, State(), 1);
    }

    /** One pass of the loop of `solve`: a call of `next_state` after `n` earlier ones. */
    method Advance(ghost s0: Snapshot, ghost n: nat)
      requires Valid() && Steps(s0, State(), n)
      modifies this, nodes
      ensures Valid() && Steps(s0, State(), n + 1)
      ensures old(closed) <= closed
      ensures old(end in closed) ==> State() == old(State())
    {
      ghost var before := State();
      NextState();
      StepsThenStep(s0, before, State(), n);
    }

    /** `solve`: runs `next_state` until the end node is closed. The program loops forever when the
        end is unreachable; here at most `fuel` calls are made, and `solved` says whether the
        loop ended because the end node was closed. The final state is reached from the initial one
        by `steps` calls of `next_state`, and `steps` is the fuel whenever the end node is still open. */
    method Solve(fuel: nat) returns (solved: bool, ghost steps: nat)
      requires Valid()
      modifies this, nodes
      ensures Valid()
      ensures solved <==> end in closed
      ensures old(closed) <= closed
      ensures old(end in closed) ==> State() == old(State())
      ensures steps <= fuel && Steps(old(State()), State(), steps) && (!solved ==> steps == fuel)
    {
      var remaining := fuel;
      steps := 0;
      while end !in closed && remaining > 0
        invariant Valid() && old(closed) <= closed
        invariant old(end in closed) ==> State() == old(State())
        invariant 0 <= remaining <= fuel && steps == fuel - remaining
        invariant Steps(old(State()), State(), steps)
        decreases remaining
      {
        Advance(old(State()), steps);
        steps := steps + 1;
        remaining := remaining - 1;
      }
      ShowPath();
      solved := end in closed;
    }

    /** `reset_board`: every node on either list gets `node_type` 1, and the frontier is the start
        node alone. Distances, parents and types are not reset. */
    method ResetBoard()
      requires Valid()
      modifies this, nodes
      ensures Valid()
      ensures open == [start] && closed == []
      ensures forall i :: 0 <= i < nodes.Length ==>
        nodes[i] == if i in old(open) || i in old(closed) then old(nodes[i]).(nodeType := Some(1)) else old(nodes[i])
    {
      var k := 0;
      while k < |open|
        invariant 0 <= k <= |open| && open == old(open) && closed == old(closed)
        invariant forall i :: 0 <= i < nodes.Length ==>
          nodes[i] == if i in open[..k] then old(nodes[i]).(nodeType := Some(1)) else old(nodes[i])
      {
        nodes[open[k]] := nodes[open[k]].(nodeType := Some(1));
        assert forall i :: i in open[..k + 1] <==> i in open[..k] || i == open[k];
        k := k + 1;
      }
      assert open[..k] == open;
      open := [];
      k := 0;
      while k < |closed|
        invariant 0 <= k <= |closed| && closed == old(closed) && open == []
        invariant forall i :: 0 <= i < nodes.Length ==>
          nodes[i] == if i in old(open) || i in closed[..k] then old(nodes[i]).(nodeType := Some(1)) else old(nodes[i])
      {
        nodes[closed[k]] := nodes[closed[k]].(nodeType := Some(1));
        assert forall i :: i in closed[..k + 1] <==> i in closed[..k] || i == closed[k];
        k := k + 1;
      }
      assert closed[..k] == closed;
      closed := [];
      open := open + [start];
    }
  }
}
