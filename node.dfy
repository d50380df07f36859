/** One cell of the maze (`Node` in src/node.py): its record and the pure neighbour logic. */
module Nodes {

  datatype Option<T> = None | Some(value: T)

  /** A grid position. The program keeps positions in two-component vectors; here they are integers. */
  datatype Loc = Loc(x: int, y: int)

  /** The value held in a node's `type` attribute. The program stores integer codes there
      (4 for a visited node, 5 for the start, 6 for the end), but the neighbour filter compares
      it with the string 'wall', so a textual value is representable too. */
  datatype NodeType = Code(code: int) | Label(name: string)

  /** A node. Nodes are identified by their index in the board's node list, so `parent` is such
      an index. `parent` is None until the attribute is first assigned; `nodeType` models the
      attribute `node_type`, which the board writes and nothing reads, and is distinct from `kind`,
      which models `type`. */
  datatype Node = Node(
    kind: NodeType,
    loc: Loc,
    fromStart: int,
    toEnd: real,
    parent: Option<nat>,
    nodeType: Option<int>)

  /** `Node.__init__`: both distances start at the sentinel `maxSize`, no parent is set. */
  function NewNode(kind: NodeType, loc: Loc, maxSize: int): (n: Node)
    ensures n.kind == kind && n.loc == loc
    ensures n.fromStart == maxSize && n.toEnd == maxSize as real
    ensures n.parent == None && n.nodeType == None
    ensures Total(n) == 2.0 * maxSize as real
  {
    Node(kind, loc, maxSize, maxSize as real, None, None)
  }

  /** `get_distance_total`: the f-score of a node. */
  function Total(n: Node): (t: real)
    ensures t == n.fromStart as real + n.toEnd
  {
    n.fromStart as real + n.toEnd
  }

  /** `is_neighbor`, as the chain of eight offset tests it is written as. Two positions are
      neighbours exactly when they differ and are at most one apart in each coordinate. */
  predicate IsNeighbor(self: Loc, other: Loc)
    ensures IsNeighbor(self, other) <==>
              self != other && -1 <= self.x - other.x <= 1 && -1 <= self.y - other.y <= 1
  {
    if self == Loc(other.x + 1, other.y) then true
    else if self == Loc(other.x - 1, other.y) then true
    else if self == Loc(other.x, other.y + 1) then true
    else if self == Loc(other.x, other.y - 1) then true
    else if self == Loc(other.x + 1, other.y + 1) then true
    else if self == Loc(other.x + 1, other.y - 1) then true
    else if self == Loc(other.x - 1, other.y + 1) then true
    else if self == Loc(other.x - 1, other.y - 1) then true
    else false
  }

  /** The eight offsets are closed under negation. */
  lemma NeighborSymmetric(a: Loc, b: Loc)
    ensures IsNeighbor(a, b) == IsNeighbor(b, a)
  {
  }

  /** The offset (0, 0) is not among the eight: no position neighbours itself. */
  lemma NotOwnNeighbor(a: Loc)
    ensures !IsNeighbor(a, a)
  {
  }

  /** The test `get_neighbors` applies to each candidate node. A kept node never shares the
      caller's position, and for a node with an integer type only adjacency decides. */
  predicate Keeps(self: Node, n: Node)
    ensures Keeps(self, n) ==> self.loc != n.loc
    ensures n.kind.Code? ==> (Keeps(self, n) <==> IsNeighbor(self.loc, n.loc))
  {
    IsNeighbor(self.loc, n.loc) && n.kind != Label("wall")
  }

  /** The indices among the first `upto` entries of `list` that `get_neighbors` keeps, in list order:
      strictly increasing (an order-preserving subsequence without repeats), and containing an
      index exactly when its node passes the neighbour and wall tests. */
  function NeighborIndices(self: Node, list: seq<Node>, upto: nat): (r: seq<nat>)
    requires upto <= |list|
    ensures forall j, k :: 0 <= j < k < |r| ==> r[j] < r[k]
    ensures forall j :: 0 <= j < |r| ==> r[j] < upto
    ensures forall i :: i in r ==> i < upto && Keeps(self, list[i])
    ensures forall i :: 0 <= i < upto && Keeps(self, list[i]) ==> i in r
    decreases upto
  {
    if upto == 0 then []
    else
      var prev := NeighborIndices(self, list, upto - 1);
      if Keeps(self, list[upto - 1]) then prev + [upto - 1] else prev
  }

  /** `get_neighbors`: scans the node list and collects the nodes that pass the test.
      A node is returned as its index in the list. */
  method GetNeighbors(self: Node, list: seq<Node>) returns (result: seq<nat>)
    ensures result == NeighborIndices(self, list, |list|)
  {
    result := [];
    var i := 0;
    while i < |list|
      invariant 0 <= i <= |list|
      invariant result == NeighborIndices(self, list, i)
    {
      if Keeps(self, list[i]) {
        result := result + [i];
      }
      i := i + 1;
    }
  }

  /** A node is never among its own neighbours. */
  lemma {:induction false} SelfNotAmongNeighbors(self: Node, list: seq<Node>, i: nat)
    requires i < |list| && list[i].loc == self.loc
    ensures i !in NeighborIndices(self, list, |list|)
  {
    NotOwnNeighbor(self.loc);
  }

  /** When every node's type is an integer code, as the program always makes it, the comparison
      with 'wall' excludes nothing: the result is exactly the positional neighbours. */
  lemma WallTestExcludesNothing(self: Node, list: seq<Node>, i: nat)
    requires forall j :: 0 <= j < |list| ==> list[j].kind.Code?
    requires i < |list|
    ensures i in NeighborIndices(self, list, |list|) <==> IsNeighbor(self.loc, list[i].loc)
  {
    assert list[i].kind.Code?;
  }
}
