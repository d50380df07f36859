# Maze solver: the incremental A* search

This project models the search core of a small maze solver. It models the cell record and its
neighbour logic in `src/node.py` and the search state machine in `src/board.py`.

- **Node** (`node.dfy`, module `Nodes`): a node is a record. It holds a type, an integer position,
  a distance from the start, a distance to the end, a parent and the separate `node_type`
  attribute. The board owns all nodes in one array, and a node's identity is its index in the
  node list. The program compares nodes by identity, so `parent`, the open list and the closed
  list hold indices. `get_neighbors` becomes a loop (`GetNeighbors`) proved against a filter
  function (`NeighborIndices`). The filter's contract says the result is an order-preserving
  subsequence of the node list, and that an index is in it exactly when its node passes the
  adjacency and wall tests.
- **Board** (`board.dfy`, module `Boards`): a class. Its `open` and `closed` sequences are
  reassigned the way the program appends to and removes from its lists, and the node array is
  updated in place. The visit, the scan of `next_state`, `next_state` itself and `solve` relate
  the new state to the old one through `Snapshot` values: `VisitPost` for one visit,
  `IsSelection` for the scan, `Step` for one call of `next_state` and `Steps` for a run of calls,
  as `solve` makes them. Lemmas state what those relations imply. `show_path` and `reset_board`
  state their effect directly with `old(...)` and `unchanged`.

The model follows the code, including where it departs from a textbook A*:
- The parent is overwritten even when the distance does not improve.
- Nodes already closed are appended to the open list again.
- The open list can hold repeats, and `list.remove` drops only the first occurrence.
- The visited node gets type 4 even when it is the start or the end node.
- The neighbour loop and `reset_board` write `node_type`, which nothing reads, not `type`.
- The heuristic is lowered by `min` on every visit rather than computed once.
- `reset_board` resets neither distances, parents nor types.
- The scan starts from the head of the open list even when that node is closed.
- The comparison of a node's type with the string `'wall'` excludes nothing, because the program
  stores integer types (`Nodes.WallTestExcludesNothing`).
- `is_border_node` masks x == columns and y == rows. A grid `columns` wide and `rows` high has no
  node there, so inside the grid only the first column and the first row are masked
  (`Boards.Board.BorderInsideGrid`).

The straight and diagonal step costs and the `MAX_SIZE` sentinel come from a constants module
that is not part of this model. The costs are positive constants of the board, and the sentinel
is a parameter of `NewNode`. `get_distance_to_end` becomes the board's `heuristic`, a
non-negative real-valued function of the node's position and the end position, given to the
constructor. Nothing is assumed about its values.

## Model

| member | source | states |
|---|---|---|
| `Nodes.NewNode` | src/node.py:8-15 | a new node keeps the given type and position, both distances equal the sentinel `MAX_SIZE` (so its f-score is twice it), and no parent is set |
| `Nodes.Total` | src/node.py:26-27 | a node's f-score is its distance from the start plus its distance to the end |
| `Nodes.IsNeighbor` | src/node.py:30-52 | the chain of eight offset tests holds iff the positions differ and differ by at most one in each coordinate |
| `Nodes.NeighborSymmetric` | src/node.py:32-49 | `is_neighbor` is symmetric |
| `Nodes.NotOwnNeighbor` | src/node.py:51-52 | no position is its own neighbour |
| `Nodes.Keeps` | src/node.py:22 | a node kept by the neighbour test never shares the caller's position, and for a node with an integer type the test is adjacency alone |
| `Nodes.NeighborIndices` | src/node.py:19-24 | the filtered indices are strictly increasing (list order, no repeats), and an index is in the result iff its node is a neighbour whose type is not `'wall'` |
| `Nodes.GetNeighbors` | src/node.py:19-24 | the appending loop returns exactly the filter `NeighborIndices` over the whole list |
| `Nodes.SelfNotAmongNeighbors` | src/node.py:19-24 | a node at the same position as the caller is never returned |
| `Nodes.WallTestExcludesNothing` | src/node.py:22-23 | when all types are integers, the result is exactly the adjacent nodes |
| `Boards.FirstIndex` | src/board.py:100 | the position found holds the value and no earlier position does |
| `Boards.RemoveFirst` | src/board.py:100 | `list.remove` deletes exactly the first occurrence: the rest is kept in order, the length drops by one and the multiset loses one copy |
| `Boards.Better` | src/board.py:136-139 | the scan's comparison prefers a strictly lower f-score outright, and never prefers a node with a higher f-score |
| `Boards.BetterIsStrictWeakOrder` | src/board.py:136-139 | the comparison is irreflexive and transitive, and two nodes are incomparable iff they tie on both the f-score and the distance to the end |
| `Boards.SelectionIsUnique` | src/board.py:132-140 | the scan's outcome is determined by the open list, the closed list and the nodes |
| `Boards.SelectionIsMinimal` | src/board.py:132-140 | the selected node has the least f-score among the candidates, and the least distance to the end among those tied on f-score |
| `Boards.TieKeepsEarlier` | src/board.py:136-139 | when a candidate ties with the selected node on both keys, the selected node is the earlier open entry |
| `Boards.ClosedHeadCanBeSelected` | src/board.py:132-135 | the head of the open list, closed or not, is the selection whenever no candidate beats it |
| `Boards.Closing` | src/board.py:102 | the visited node gets type 4 and keeps its position, distances, parent and `node_type`; every other node is unchanged |
| `Boards.Board.constructor` | src/board.py:14-35 | after construction the open list is the start node alone, the closed list is empty, and the node list is the one given |
| `Boards.Board.IsBorder` | src/board.py:122-127 | `is_border_node` holds iff x is 0 or `columns`, or y is 0 or `rows` |
| `Boards.Board.BorderInsideGrid` | src/board.py:122-127 | for a position inside the grid, `is_border_node` holds iff x == 0 or y == 0 |
| `Boards.Board.StepCost` | src/board.py:109-112 | a step costs the straight cost when the positions share a column or a row, and the diagonal cost otherwise |
| `Boards.Board.StepCostOfNeighbor` | src/board.py:109-112 | between neighbours, the straight cost applies exactly to the four orthogonal moves and the diagonal cost to the other four |
| `Boards.Board.Relax` | src/board.py:109-120 | a relaxed neighbour gets the visited node as parent whatever its distance. Its distance from the start becomes the smaller of the old value and the visited node's distance plus the step cost. Its distance to the end becomes the smaller of the old value and the heuristic. Its `node_type` becomes 3, and its type and position are kept |
| `Boards.Board.Kept` | src/board.py:107 | the neighbours that are appended are in range and are not border nodes |
| `Boards.Board.KeptMembers` | src/board.py:106-107 | a neighbour is appended iff it is not a border node |
| `Boards.Board.KeptInOrder` | src/board.py:106-119 | neighbours taken in increasing node-list order are appended in that order, so none is appended twice |
| `Boards.Board.RelaxAll` | src/board.py:106-120 | relaxing neighbours one after another moves no node |
| `Boards.Board.RelaxAllAt` | src/board.py:106-120 | relaxing distinct neighbours that exclude the visited node changes each non-border one once, from its value before the visit, and changes nothing else |
| `Boards.Board.Visit` | src/board.py:99-120 | the state `visit_node` leaves, computed in the order its body runs, has the visited node appended to the closed list and the same number of nodes |
| `Boards.Board.VisitPostOfLoop` | src/board.py:99-120 | the list and node updates of `visit_node`, done in order (`Visit`), give the per-node effect `VisitPost` |
| `Boards.Board.VisitNeverIncreases` | src/board.py:115-116 | no distance and no f-score rises during a visit, positions do not change, and the visited node keeps its distances |
| `Boards.Board.VisitCounts` | src/board.py:100-119 | the open list loses one copy of the visited node and gains, in increasing node-list order, exactly one entry for each non-border neighbour and none for any other node, and the closed list grows by exactly the visited node |
| `Boards.Board.VisitAppends` | src/board.py:104-119 | a node is appended iff it neighbours the visited node, is not `'wall'` and is not a border node; a closed node appended this way ends up both closed and open |
| `Boards.Board.VisitNode` | src/board.py:99-120 | `visit_node` establishes `VisitPost`: first occurrence removed from open, node appended to closed with type 4, every non-border neighbour relaxed and appended in node-list order, border neighbours and all other nodes unchanged |
| `Boards.Board.RelaxNeighbors` | src/board.py:106-120 | the neighbour loop appends the non-border neighbours to the open list and relaxes each of them in turn |
| `Boards.Board.RelaxNeighbor` | src/board.py:109-117 | one pass of the loop replaces exactly the neighbour's record with its relaxed form |
| `Boards.Board.SelectNode` | src/board.py:131-140 | the scan returns a position that is the head of the open list or holds a node that is not closed. No candidate beats it, and every candidate before it is strictly worse |
| `Boards.Board.ShowPath` | src/board.py:168-174 | `show_path` changes neither the board's lists nor any node |
| `Boards.Board.NextState` | src/board.py:130-144 | nothing changes when the end node is closed or the open list is empty. Otherwise the selected node is visited, and the closed list only grows. The change is one `Step`: idle, or the visit of the selected node |
| `Boards.Board.StepGrowsClosed` | src/board.py:130-144 | one call of `next_state` removes nothing from the closed list and adds at most one node |
| `Boards.Board.StepsGrowClosed` | src/board.py:147-149 | over `n` calls of `next_state` the closed list only grows, by at most `n` nodes |
| `Boards.Board.StepsFromSolvedAreIdle` | src/board.py:130 | once the end node is closed, any number of further calls of `next_state` change nothing |
| `Boards.Board.Advance` | src/board.py:148-149 | one pass of the loop of `solve` extends a run of `n` calls of `next_state` to `n + 1` |
| `Boards.Board.DistanceToEnd` | src/board.py:152-157 | the distance to the end is the non-negative heuristic applied to the node's position and the end node's position |
| `Boards.Board.Solve` | src/board.py:147-150 | the final state is reached from the initial one by `steps` calls of `next_state`, with `steps` at most the fuel and equal to it whenever the end node is still open. On return, `solved` is true iff the end node is closed. The closed list only grows, and nothing changes when the end node was already closed |
| `Boards.Board.ResetBoard` | src/board.py:159-166 | the open list becomes the start node alone and the closed list becomes empty. Every node that was on either list gets `node_type` 1, and no other field of any node changes |

## Left out

- Rendering (`draw_lines`, `draw_nodes`), the window and key loop in `screen.py`, and frame timing: user-interface code.
- `new_nodes` and `place_start_end`: random generation and a file save. The board is built from a given node list, start and end.
- Loading the node list from its file in `Board.__init__`, and `utils/scripts.py`: file I/O and JSON parsing.
- `get_distance_to_end`'s formula (a square root on floats): the board takes the heuristic as a given non-negative function. Distances to the end are reals, so floating-point rounding is not modelled.
- Integer width: distances from the start are unbounded integers. After the first `np.minimum` (src/board.py:115) the program holds a numpy 64-bit integer, so `distance_from_start + cost` (src/board.py:110-112) is fixed-width. A node loaded from a file keeps the sentinel `MAX_SIZE`, so a visit from it computes `MAX_SIZE + cost`. The model agrees with the program only while `MAX_SIZE` plus the larger of the two step costs stays below 2^63. The f-scores compared in the scan (src/board.py:136-138) are float sums of an integer and a float distance to the end; the model adds them exactly as reals.
- `show_path`: its body is empty (its logic is commented out), so it is a no-op.
- Solve: when the end is unreachable, the program loops forever once nothing is left to expand. The model takes a `fuel` bound on the number of calls of `next_state`; the ghost result `steps` counts the calls made, and `solved` is false only when all the fuel was used.
- The exception `list.remove` raises for a missing node: `next_state` never passes one, so `VisitNode` requires the node to be open.
- A missing start or end node (`None` after loading a file without one): the board requires both to be nodes of the list.
