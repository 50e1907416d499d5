# A* search for the 15-puzzle, modelled in Dafny

This project models the search engine of a 15-puzzle solver (`TreeSearch`)
and proves properties of that model. The engine does the following:

- It builds the goal configuration in a 4x4 array. Tiles 1 to 15 go in reading order and the blank (0) goes last.
- It tests boards against that goal.
- It estimates the distance to the goal with one of two heuristics: the misplaced-tile count or a Manhattan sum.
- It generates the child of a node by sliding the blank up, down, left or right.
- It counts a node's depth by walking its parent links.
- It runs A*. Each round polls a node of least priority from the frontier and increments `nodeCount`. It returns the node at once if it passes the goal test. Otherwise it adds the node to the explored set and offers every child to the frontier.

A board is a sequence of 16 integers in row-major order, so row `i`, column `j` is index `4 * i + j`.

Modules:

- `Board` (board.dfy): the goal, the blank, the four moves and their letters, and the move function with its inverse.
- `Heuristics` (heuristics.dfy): the two estimates as pure functions. The Manhattan formula uses Java's truncating `/` and `%`.
- `Nodes` (nodes.dfy): search nodes as values linked to their parents. Covers depth, one child step, and how a chain of parent links replays the move string.
- `Frontier` (frontier.dfy): the frontier as a sequence. Membership and removal go by board, and poll takes a node of least priority.
- `Search` (search.dfy): the class `TreeSearch`, with the goal array, `nodeCount` and the engine's methods as loops. It also holds the invariants of the search loop and the lemmas that keep them.

Two details are kept as the engine writes them:

- The priority of a child is `h + depth - 1`.
- The decrease-key branch compares the recomputed priority with the priority the freshly built child itself carries, not with the priority of the frontier entry it replaces.

A newly built node's move string, path length and priority come from the node class, which this model does not include. They are a parameter (`NodeDefaults`), and nothing assumes whether the decrease-key branch ever fires.

The Manhattan sum is the engine's formula exactly as written:

- Tile `v`'s home is row `v / 4`, column `v % 4 - 1`.
- The blank's home is (3, 3), and the blank is counted.
- So tiles 4, 8 and 12 are given an off-board home, and the sum on the goal board is 15 (`Heuristics.HomeOfTile`, `Heuristics.ManhattanSum`).

The search is proved to terminate. Every round explores a new rearrangement of the starting board, and there are finitely many of those.

When the frontier runs out without the goal, the explored set is exactly the set of boards reachable from the start by legal moves. So the goal is unreachable, and `nodeCount` has grown by the number of reachable boards (`Search.ExhaustedIsComplete`).

## Model

| member | source | states |
|---|---|---|
| Search.TreeSearch.constructor | src/edu/uic/ai/puzzle/TreeSearch.java:15-18 | records the problem and runs the goal construction, so the goal array holds the goal configuration and `nodeCount` starts at 0 |
| Search.TreeSearch.InitGoalState | src/edu/uic/ai/puzzle/TreeSearch.java:24-35 | after the nested loops, cell (i, j) of the goal array holds 4 * i + j + 1, except (3, 3), which holds 0 |
| Board.GoalCells | src/edu/uic/ai/puzzle/TreeSearch.java:24-35 | the goal board agrees, cell by cell, with what the goal construction writes |
| Board.GoalIsState | src/edu/uic/ai/puzzle/TreeSearch.java:24-35 | the goal holds each of 0..15 exactly once |
| Search.TreeSearch.GoalTest | src/edu/uic/ai/puzzle/TreeSearch.java:200-209 | the cell-by-cell comparison answers true exactly when the board equals the goal, and it changes nothing |
| Search.TreeSearch.MisplacedTilesHeuristic | src/edu/uic/ai/puzzle/TreeSearch.java:127-139 | the loop over the 16 cells returns the misplaced-tile count |
| Heuristics.MisplacedCountIsCardinality | src/edu/uic/ai/puzzle/TreeSearch.java:127-139 | the count is the number of cells holding a tile other than the blank that differs from the goal's tile there |
| Heuristics.MisplacedZeroIff | src/edu/uic/ai/puzzle/TreeSearch.java:127-139 | the count is 0 exactly when every tile, the blank aside, sits where the goal has it |
| Heuristics.MisplacedCount | src/edu/uic/ai/puzzle/TreeSearch.java:127-139 | the count of misplaced tiles is at most 16, and 0 on the goal board |
| Heuristics.MisplacedAtMost15 | src/edu/uic/ai/puzzle/TreeSearch.java:127-139 | on a board with a blank the count is at most 15 |
| Heuristics.TruncRem4 | src/edu/uic/ai/puzzle/TreeSearch.java:161-162 | Java's `/ 4` and `% 4`: the quotient times 4 plus the remainder gives back the dividend, and the remainder has the dividend's sign and magnitude below 4 |
| Heuristics.HomeOfTile | src/edu/uic/ai/puzzle/TreeSearch.java:157-163 | the home the formula gives a tile not divisible by 4 is its goal cell; for 4, 8 and 12 it is column -1, five moves from the goal cell |
| Search.TreeSearch.ManhattanHeuristic | src/edu/uic/ai/puzzle/TreeSearch.java:147-175 | the loop returns the sum over all 16 cells of the row and column distances to the formula's home, the blank included |
| Heuristics.ManhattanSum | src/edu/uic/ai/puzzle/TreeSearch.java:147-175 | the Manhattan sum as written is 15 on the goal board |
| Heuristics.ManhattanZeroHome | src/edu/uic/ai/puzzle/TreeSearch.java:147-175 | a Manhattan sum of 0 puts every tile, the blank aside, in its goal cell |
| Heuristics.CellCostZero | src/edu/uic/ai/puzzle/TreeSearch.java:157-170 | a tile whose distance to the formula's home is 0 sits in its goal cell |
| Heuristics.GoalCellCost | src/edu/uic/ai/puzzle/TreeSearch.java:157-170 | on the goal board the last cell of each of the first three rows costs 5 and every other cell 0 |
| Search.TreeSearch.HeuristicOf | src/edu/uic/ai/puzzle/TreeSearch.java:106-119 | the misplaced-tile selector gives the misplaced count and any other selector the Manhattan sum |
| Heuristics.Estimate | src/edu/uic/ai/puzzle/TreeSearch.java:106-119 | on the goal board the selected estimate is 0 for misplaced tiles and 15 for Manhattan |
| Heuristics.EstimateZeroHome | src/edu/uic/ai/puzzle/TreeSearch.java:106-119 | either estimate is 0 only when every tile, the blank aside, sits in its goal cell |
| Search.TreeSearch.GetPath | src/edu/uic/ai/puzzle/TreeSearch.java:183-190 | walking the parent links counts exactly the node's depth |
| Nodes.Depth | src/edu/uic/ai/puzzle/TreeSearch.java:183-190 | a node is at depth 0 exactly when it has no parent |
| Board.BlankIndex | src/edu/uic/ai/puzzle/TreeSearch.java:226-229 | the blank's position is a cell holding 0, and no earlier cell holds 0 |
| Board.Letter | src/edu/uic/ai/puzzle/TreeSearch.java:236-255 | each move's letter is one of U, D, L, R |
| Board.FromLetter | src/edu/uic/ai/puzzle/TreeSearch.java:234-251 | a letter decodes to an action exactly when that action's letter is U, D, L or R as written |
| Board.Target | src/edu/uic/ai/puzzle/TreeSearch.java:236-255 | Up and Down keep the blank's column, Left and Right keep its row |
| Board.TargetIndex | src/edu/uic/ai/puzzle/TreeSearch.java:233-251 | the cell the blank moves to is on the board and is not the blank's own cell |
| Board.LegalActions | src/edu/uic/ai/puzzle/TreeSearch.java:70-72 | an action is offered exactly when the blank's neighbour in that direction is on the board |
| Board.Move | src/edu/uic/ai/puzzle/TreeSearch.java:264-270 | the moved board holds the blank in the target cell |
| Board.MoveSwaps | src/edu/uic/ai/puzzle/TreeSearch.java:264-269 | a move puts 0 in the target cell and the target's tile in the blank's old cell, leaves the other 14 cells unchanged and keeps the multiset of values |
| Board.SwapIsMove | src/edu/uic/ai/puzzle/TreeSearch.java:264-269 | any board differing from the parent only by that exchange is the moved board |
| Board.MovePreservesState | src/edu/uic/ai/puzzle/TreeSearch.java:264-269 | a move keeps a board holding each value once |
| Board.MoveBackTargets | src/edu/uic/ai/puzzle/TreeSearch.java:233-251 | after a move the blank sits on the old target cell, and the opposite move is legal and targets the old blank cell |
| Board.MoveRoundTrip | src/edu/uic/ai/puzzle/TreeSearch.java:233-269 | moving the blank back the opposite way restores the parent's board |
| Search.CellsOfSwappedCopy | src/edu/uic/ai/puzzle/TreeSearch.java:256-272 | a 4x4 copy of the parent with the blank and its neighbour exchanged holds the moved board |
| Search.TreeSearch.CopyState | src/edu/uic/ai/puzzle/TreeSearch.java:256-262 | the nested loops fill a fresh 4x4 array with the parent's board |
| Search.TreeSearch.ChildNode | src/edu/uic/ai/puzzle/TreeSearch.java:218-275 | the child has the moved board, the parent's moves plus the action's letter, the parent as parent and a new node's other fields |
| Nodes.Child | src/edu/uic/ai/puzzle/TreeSearch.java:218-275 | a child is one level deeper than its parent, keeps the parent's values, and is one legal move away from it, with one letter added to its move string |
| Nodes.DescendantReplays | src/edu/uic/ai/puzzle/TreeSearch.java:218-251 | a descendant's move string extends the root's, replaying the added letters from the root's board yields its board, and below the root its depth is the number of added letters |
| Nodes.ChildDescends | src/edu/uic/ai/puzzle/TreeSearch.java:73-75 | a child of a descendant of the root, with any path length and priority, descends from the root |
| Frontier.BoardsMembership | src/edu/uic/ai/puzzle/TreeSearch.java:78 | a board is on the frontier exactly when some node of the frontier holds it |
| Frontier.Remove | src/edu/uic/ai/puzzle/TreeSearch.java:90 | removing a board never makes the frontier longer |
| Frontier.RemoveDistinct | src/edu/uic/ai/puzzle/TreeSearch.java:90 | removing a board from a frontier without repeats removes exactly that board, keeps no repeats and adds no node |
| Frontier.RemoveAt | src/edu/uic/ai/puzzle/TreeSearch.java:90 | removing the board of the k-th node of a frontier without repeats removes that node |
| Frontier.Poll | src/edu/uic/ai/puzzle/TreeSearch.java:61 | poll returns a node of least priority from the frontier and the rest of it, as a permutation, and, without repeats, the rest is the frontier with that board removed |
| Search.PriorityOf | src/edu/uic/ai/puzzle/TreeSearch.java:80-87 | a node's priority is at least its path length minus one, since the estimate is never negative |
| Search.Offered | src/edu/uic/ai/puzzle/TreeSearch.java:77-94 | a child whose board is explored and not on the frontier leaves the frontier unchanged; when the frontier does change, the child with its recomputed priority is at its head and at most one node was added |
| Search.TreeSearch.Offer | src/edu/uic/ai/puzzle/TreeSearch.java:77-94 | a child is added with priority h + path length - 1 when its board is neither explored nor on the frontier; it replaces the frontier entry when the recomputed priority is below the child's own; otherwise the frontier is unchanged |
| Search.OfferedPreserves | src/edu/uic/ai/puzzle/TreeSearch.java:77-94 | offering a child keeps the frontier free of repeats and of explored boards, with every entry a well-formed descendant of the root |
| Search.OfferedBoards | src/edu/uic/ai/puzzle/TreeSearch.java:77-94 | after an offer the child's board is on the frontier exactly when it is not explored, and no other board comes or goes |
| Search.TreeSearch.OfferChild | src/edu/uic/ai/puzzle/TreeSearch.java:73-94 | building a child, setting its path length to its depth and offering it gives the frontier `Offered` describes |
| Search.ChildPreserves | src/edu/uic/ai/puzzle/TreeSearch.java:73-94 | offering a child of a well-formed node keeps the frontier invariant and adds the child's board unless explored |
| Search.OfferAllPreserves | src/edu/uic/ai/puzzle/TreeSearch.java:70-95 | offering the children of a well-formed node, for the legal actions in any order, keeps the frontier invariant |
| Search.OfferAllBoards | src/edu/uic/ai/puzzle/TreeSearch.java:70-95 | offering the children of a well-formed node, for the legal actions in any order, adds exactly the children's unexplored boards to the frontier |
| Search.OfferLegalPreserves | src/edu/uic/ai/puzzle/TreeSearch.java:70-95 | offering the children for the legal actions keeps the frontier invariant and adds every unexplored child board |
| Search.TreeSearch.Expand | src/edu/uic/ai/puzzle/TreeSearch.java:70-95 | the loop over the legal actions, in the order Up, Down, Left, Right, leaves the frontier that offering each child in turn gives, keeping each decrease-key decision |
| Search.PolledPreserves | src/edu/uic/ai/puzzle/TreeSearch.java:61-68 | the polled node is well formed and unexplored, and exploring it keeps the frontier invariant |
| Search.TreeSearch.Root | src/edu/uic/ai/puzzle/TreeSearch.java:46-49 | the initial node holds the starting board and has no parent, so its depth is 0 |
| Search.InitialState | src/edu/uic/ai/puzzle/TreeSearch.java:46-55 | the frontier holding only the root, with nothing explored, satisfies the loop invariant |
| Search.PollStep | src/edu/uic/ai/puzzle/TreeSearch.java:61-68 | a polled node is well formed and unexplored, and in the first round it is the root |
| Search.DescendsReachable | src/edu/uic/ai/puzzle/TreeSearch.java:218-251 | the board of a descendant of the root is reachable from the root's board by legal moves |
| Search.ExploreCloses | src/edu/uic/ai/puzzle/TreeSearch.java:68-95 | after a board is explored and its unexplored children are on the frontier, every move out of an explored board leads to an explored or a frontier board |
| Search.ExploreStep | src/edu/uic/ai/puzzle/TreeSearch.java:61-95 | a round that polls a non-goal node, explores it and expands it restores the loop invariant with one more round and one more explored board, keeping every explored board reachable and every move out of the explored set covered by the frontier |
| Search.GoalFound | src/edu/uic/ai/puzzle/TreeSearch.java:64-66 | returning a polled goal node meets the search's promise |
| Search.Exhausted | src/edu/uic/ai/puzzle/TreeSearch.java:59-97 | when the frontier empties, the last polled node is returned, the start is explored and no legal move leads out of the explored set |
| Nodes.ClosedHoldsReachable | src/edu/uic/ai/puzzle/TreeSearch.java:59-97 | a set closed under legal moves that holds a board holds every board reachable from it |
| Search.ExhaustedIsComplete | src/edu/uic/ai/puzzle/TreeSearch.java:59-97 | a search that stops without the goal explored exactly the boards reachable from the start, one per round, so the goal is unreachable from it |
| Board.Rearrangements | src/edu/uic/ai/puzzle/TreeSearch.java:59-95 | the rearrangements of the starting board lie in one finite set, which bounds the number of rounds |
| Search.TreeSearch.AStar | src/edu/uic/ai/puzzle/TreeSearch.java:43-98 | every round adds exactly 1 to `nodeCount`; the goal is never explored; every explored board is reachable from the start; the result is the goal or an explored board; one board is explored per round except a goal round; when the result is not the goal, the start is explored and every legal move from an explored board leads to an explored board; the result descends from the root by legal moves with its depth as path length and priority h + depth - 1; a goal start returns the root after one round; the loop terminates |

## Left out

- Parsing the problem string (`parseState`) is not modelled. The starting board is an input of the constructor.
- The node class is not part of this model. Node equality, which `HashSet` and `PriorityQueue.contains`/`remove` use, is taken to be board equality.
- A fresh node's move string, path length and priority are a parameter (`NodeDefaults`), because the node class that sets them is not part of this model.
- `Node.getActions` is not part of this model. `Board.LegalActions` offers the moves whose target cell is on the board, in the order Up, Down, Left, Right. `Search.TreeSearch.Expand` loops over that order. `Search.OfferAllPreserves` and `Search.OfferAllBoards` hold for the legal actions in any order.
- `Node.getZeroPosition` and its "x,y" string are replaced by `Board.BlankIndex`, the first cell holding 0.
- Frontier.Poll: which node of least priority is taken is left open, because `Node.compareTo` decides the tie-break and is not part of this model. The implementation picks the first one.
- The frontier is a sequence and the explored set a set of boards. The heap layout of `PriorityQueue` and the hashing of `HashSet` are not modelled.
- Search.TreeSearch.GoalTest, Search.TreeSearch.MisplacedTilesHeuristic and Search.TreeSearch.ManhattanHeuristic take the board as a value rather than an `int[][]`, so aliasing between boards is not modelled.
- Java `int` overflow of `nodeCount` and of the priorities is not modelled, because it would take more than 2^31 expansions, far more than the explored set can hold.
- A `null` heuristic is not modelled: `Heuristic` has the two selectors only, and in the engine `null` would throw when the selector is read.
- The constructor without a problem, and the getters and setters (TreeSearch.java:20-22, 277-299), are not modelled.
- Search.TreeSearch.AStar: its round count and final explored set are ghost results, not part of what the engine returns. The contract ties them to the run: the count is the rise in `nodeCount`, and the set's size is the count.
- Frontier.Remove: its own contract only bounds the length. `Frontier.RemoveDistinct` gives the exact effect on a frontier without repeated boards, which is the only kind the search builds.
- No optimality or admissibility result is claimed. The Manhattan sum as written overestimates: it is 15 on the goal board. And the decrease-key test compares against the child's own priority, so such theorems do not hold for this engine.
