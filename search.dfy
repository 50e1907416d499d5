/**
 * The A* engine: the goal board it builds, the goal test, the two heuristic
 * evaluators, child generation, path length, and the search loop with its
 * frontier and explored set.
 */
module Search {
  import opened Wrappers
  import opened Board
  import opened Heuristics
  import opened Nodes
  import opened Frontier

  /** The board a 4x4 array holds, in reading order. */
  function Cells(a: array2<int>): Board
    requires a.Length0 == 4 && a.Length1 == 4
    reads a
  {
    seq(16, k requires 0 <= k < 16 reads a => a[k / 4, k % 4])
  }

  /** Row i, column j is the cell at index 4 * i + j. */
  lemma IndexSplit(i: int, j: int)
    requires OnBoard(i, j)
    ensures (4 * i + j) / 4 == i && (4 * i + j) % 4 == j
  {
  }

  /** The cell at index k is row k / 4, column k % 4. */
  lemma IndexJoin(k: int)
    requires 0 <= k < 16
    ensures OnBoard(k / 4, k % 4) && k == 4 * (k / 4) + k % 4
  {
  }

  /**
   * A 4x4 array holding b, except that the blank's cell (zx, zy) holds the
   * tile of the target cell (gx, gy) of a and the target cell holds the
   * blank, holds the board Move(b, a).
   */
  lemma CellsOfSwappedCopy(b: Board, a: Action, t: array2<int>, zx: int, zy: int, gx: int, gy: int)
    requires CanMove(b, a) && t.Length0 == 4 && t.Length1 == 4
    requires zx == BlankIndex(b) / 4 && zy == BlankIndex(b) % 4 && (gx, gy) == Target(BlankIndex(b), a)
    requires t[gx, gy] == 0 && t[zx, zy] == b[4 * gx + gy]
    requires forall p, q | OnBoard(p, q) && (p != gx || q != gy) && (p != zx || q != zy) :: t[p, q] == b[4 * p + q]
    ensures Cells(t) == Move(b, a)
  {
    var r, z, g := Cells(t), BlankIndex(b), TargetIndex(b, a);
    assert g == 4 * gx + gy && OnBoard(gx, gy);
    IndexSplit(gx, gy);
    assert r[g] == t[gx, gy] && r[z] == t[zx, zy];
    forall k | 0 <= k < 16 && k != z && k != g
      ensures r[k] == b[k]
    {
      IndexJoin(k);
      var p, q := k / 4, k % 4;
      assert r[k] == t[p, q];
      assert (p != gx || q != gy) && (p != zx || q != zy);
    }
    SwapIsMove(b, a, r);
  }

  /** The priority the engine gives a node: its estimate plus its path length, minus one. */
  function PriorityOf(h: Heuristic, n: Node): (r: int)
    ensures r >= n.pathLength - 1
  {
    Estimate(h, n.grid) + n.pathLength - 1
  }

  /**
   * The frontier after the engine has considered a child: a child whose board
   * is neither explored nor on the frontier goes on with its priority; a child
   * whose board is on the frontier replaces that entry when its priority is
   * below the priority the child itself carries; otherwise nothing changes.
   */
  function Offered(h: Heuristic, child: Node, f: seq<Node>, explored: set<Board>): (r: seq<Node>)
    ensures child.grid in explored && child.grid !in Boards(f) ==> r == f
    ensures r != f ==> 1 <= |r| <= |f| + 1 && r[0] == child.(priority := PriorityOf(h, child))
  {
    var priority := PriorityOf(h, child);
    if child.grid !in explored && child.grid !in Boards(f) then
      [child.(priority := priority)] + f
    else if child.grid in Boards(f) then
      if priority < child.priority then [child.(priority := priority)] + Remove(f, child.grid) else f
    else
      f
  }

  /**
   * What holds of every node the engine puts on the frontier: it descends from
   * the root by legal moves, its board rearranges the root's, and, unless it is
   * the root, its path length is its depth and its priority is PriorityOf.
   */
  ghost predicate WellPlaced(h: Heuristic, n: Node, root: Node) {
    Descends(n, root) && multiset(n.grid) == multiset(root.grid) &&
    (n == root || (n.pathLength == Depth(n) && n.priority == PriorityOf(h, n)))
  }

  /** The frontier holds no board twice, no explored board, and only well-placed nodes. */
  ghost predicate FrontierInvariant(h: Heuristic, f: seq<Node>, explored: set<Board>, root: Node) {
    Distinct(f) && Boards(f) !! explored && forall n | n in f :: WellPlaced(h, n, root)
  }

  /** Giving a child its priority keeps it well placed. */
  lemma ReprioritizedWellPlaced(h: Heuristic, child: Node, root: Node)
    requires root.parent == None && child.parent.Some?
    requires Descends(child, root) && multiset(child.grid) == multiset(root.grid)
    requires child.pathLength == Depth(child)
    ensures WellPlaced(h, child.(priority := PriorityOf(h, child)), root)
  {
    var c, p := child.(priority := PriorityOf(h, child)), child.parent.value;
    assert child != root && c != root;
    assert IsStep(p, child) && Descends(p, root);
    assert IsStep(p, c);
    assert Depth(c) == Depth(child);
  }

  /** Putting a well-placed node with a new, unexplored board on the frontier keeps the invariant. */
  lemma PushPreserves(h: Heuristic, c: Node, f: seq<Node>, explored: set<Board>, root: Node)
    requires FrontierInvariant(h, f, explored, root) && WellPlaced(h, c, root)
    requires c.grid !in Boards(f) && c.grid !in explored
    ensures FrontierInvariant(h, [c] + f, explored, root)
    ensures Boards([c] + f) == Boards(f) + {c.grid}
  {
    assert ([c] + f)[1..] == f;
  }

  /** Considering a child keeps the frontier invariant. */
  lemma OfferedPreserves(h: Heuristic, child: Node, f: seq<Node>, explored: set<Board>, root: Node)
    requires FrontierInvariant(h, f, explored, root)
    requires root.parent == None && child.parent.Some?
    requires Descends(child, root) && multiset(child.grid) == multiset(root.grid)
    requires child.pathLength == Depth(child)
    ensures FrontierInvariant(h, Offered(h, child, f, explored), explored, root)
  {
    var c := child.(priority := PriorityOf(h, child));
    ReprioritizedWellPlaced(h, child, root);
    var g := child.grid;
    var r := Offered(h, child, f, explored);
    if g !in explored && g !in Boards(f) {
      assert r == [c] + f;
      PushPreserves(h, c, f, explored, root);
    } else if g in Boards(f) && PriorityOf(h, child) < child.priority {
      assert r == [c] + Remove(f, g);
      RemoveDistinct(f, g);
      PushPreserves(h, c, Remove(f, g), explored, root);
    } else {
      assert r == f;
    }
  }

  /**
   * On a frontier with no board twice and no explored board, considering a
   * child leaves the child's board on the frontier exactly when it is not
   * explored, and changes no other board's presence.
   */
  lemma OfferedBoards(h: Heuristic, child: Node, f: seq<Node>, explored: set<Board>)
    requires Distinct(f) && Boards(f) !! explored
    ensures Boards(Offered(h, child, f, explored)) == Boards(f) + (if child.grid in explored then {} else {child.grid})
  {
    var c := child.(priority := PriorityOf(h, child));
    var g := child.grid;
    var r := Offered(h, child, f, explored);
    if g !in explored && g !in Boards(f) {
      assert r == [c] + f;
      assert ([c] + f)[1..] == f;
    } else if g in Boards(f) && PriorityOf(h, child) < child.priority {
      assert r == [c] + Remove(f, g);
      RemoveDistinct(f, g);
      assert ([c] + Remove(f, g))[1..] == Remove(f, g);
    } else {
      assert r == f;
    }
  }

  /**
   * Taking a node off the frontier and exploring its board keeps the
   * invariant; the node's board was not explored before.
   */
  lemma PolledPreserves(h: Heuristic, f: seq<Node>, explored: set<Board>, root: Node, node: Node)
    requires FrontierInvariant(h, f, explored, root) && node in f
    ensures node.grid !in explored && WellPlaced(h, node, root)
    ensures FrontierInvariant(h, Remove(f, node.grid), explored + {node.grid}, root)
  {
    InBoards(f, node);
    RemoveDistinct(f, node.grid);
  }

  /** Offering a child of a well-placed node, with its depth as path length, keeps the invariant. */
  lemma ChildPreserves(h: Heuristic, node: Node, a: Action, d: NodeDefaults, f: seq<Node>, explored: set<Board>, root: Node)
    requires root.parent == None && WellPlaced(h, node, root) && CanMove(node.grid, a)
    requires FrontierInvariant(h, f, explored, root)
    ensures var c := Child(node, a, d); var child := c.(pathLength := Depth(c));
      FrontierInvariant(h, Offered(h, child, f, explored), explored, root) &&
      Boards(Offered(h, child, f, explored)) == Boards(f) + (if child.grid in explored then {} else {child.grid})
  {
    var c := Child(node, a, d);
    var child := c.(pathLength := Depth(c));
    ChildDescends(node, a, d, root, Depth(c), c.priority);
    assert child == c.(pathLength := Depth(c), priority := c.priority);
    OfferedPreserves(h, child, f, explored, root);
    OfferedBoards(h, child, f, explored);
  }

  /** The boards the moves in acts lead to from b, leaving out the explored ones. */
  function NewBoards(b: Board, acts: seq<Action>, explored: set<Board>): set<Board>
    requires forall a | a in acts :: CanMove(b, a)
  {
    set a | a in acts && Move(b, a) !in explored :: Move(b, a)
  }

  /** One more action adds its board to NewBoards unless that board is explored. */
  lemma NewBoardsAppend(b: Board, acts: seq<Action>, i: nat, explored: set<Board>)
    requires i < |acts| && forall x | x in acts :: CanMove(b, x)
    ensures NewBoards(b, acts[..i + 1], explored) ==
      NewBoards(b, acts[..i], explored) + (if Move(b, acts[i]) in explored then {} else {Move(b, acts[i])})
  {
    assert acts[..i + 1] == acts[..i] + [acts[i]];
  }

  /** The boards the legal moves lead to from b, leaving out the explored ones. */
  ghost function ChildBoards(b: Board, explored: set<Board>): set<Board>
  {
    set a: Action | CanMove(b, a) && Move(b, a) !in explored :: Move(b, a)
  }

  lemma NewBoardsOfLegal(b: Board, explored: set<Board>)
    requires 0 in b
    ensures NewBoards(b, LegalActions(b), explored) == ChildBoards(b, explored)
  {
  }

  /**
   * The frontier after the engine has offered, one after another, the
   * children of node that the actions of acts lead to, each with its depth
   * as path length.
   */
  function OfferAll(h: Heuristic, node: Node, acts: seq<Action>, d: NodeDefaults, f: seq<Node>, explored: set<Board>): seq<Node>
    requires forall a | a in acts :: CanMove(node.grid, a)
    decreases |acts|
  {
    if acts == [] then f
    else
      var c := Child(node, acts[|acts| - 1], d);
      Offered(h, c.(pathLength := Depth(c)), OfferAll(h, node, acts[..|acts| - 1], d, f, explored), explored)
  }

  /** Offering one more action's child continues from the frontier the earlier actions left. */
  lemma OfferAllStep(h: Heuristic, node: Node, acts: seq<Action>, i: nat, d: NodeDefaults, f: seq<Node>, explored: set<Board>)
    requires i < |acts| && forall a | a in acts :: CanMove(node.grid, a)
    ensures var c := Child(node, acts[i], d);
      OfferAll(h, node, acts[..i + 1], d, f, explored) ==
      Offered(h, c.(pathLength := Depth(c)), OfferAll(h, node, acts[..i], d, f, explored), explored)
  {
    assert acts[..i + 1][..i] == acts[..i];
  }

  /**
   * Offering the children of a well-placed node, for legal actions in any
   * order, keeps the frontier invariant.
   */
  lemma {:induction false} OfferAllPreserves(h: Heuristic, node: Node, acts: seq<Action>, d: NodeDefaults, f: seq<Node>, explored: set<Board>, root: Node)
    requires root.parent == None && WellPlaced(h, node, root)
    requires forall a | a in acts :: CanMove(node.grid, a)
    requires FrontierInvariant(h, f, explored, root)
    ensures FrontierInvariant(h, OfferAll(h, node, acts, d, f, explored), explored, root)
    decreases |acts|
  {
    if acts != [] {
      var n := |acts| - 1;
      OfferAllStep(h, node, acts, n, d, f, explored);
      OfferAllPreserves(h, node, acts[..n], d, f, explored, root);
      ChildPreserves(h, node, acts[n], d, OfferAll(h, node, acts[..n], d, f, explored), explored, root);
    }
  }

  /**
   * Offering the children of a well-placed node, for legal actions in any
   * order, adds exactly the children's unexplored boards to the frontier.
   */
  lemma {:induction false} OfferAllBoards(h: Heuristic, node: Node, acts: seq<Action>, d: NodeDefaults, f: seq<Node>, explored: set<Board>, root: Node)
    requires root.parent == None && WellPlaced(h, node, root)
    requires forall a | a in acts :: CanMove(node.grid, a)
    requires FrontierInvariant(h, f, explored, root)
    ensures Boards(OfferAll(h, node, acts, d, f, explored)) == Boards(f) + NewBoards(node.grid, acts, explored)
    decreases |acts|
  {
    if acts == [] {
      assert NewBoards(node.grid, acts, explored) == {};
    } else {
      var n := |acts| - 1;
      assert acts[..n + 1] == acts;
      var before := OfferAll(h, node, acts[..n], d, f, explored);
      var c := Child(node, acts[n], d);
      var child := c.(pathLength := Depth(c));
      OfferAllStep(h, node, acts, n, d, f, explored);
      OfferAllBoards(h, node, acts[..n], d, f, explored, root);
      OfferAllPreserves(h, node, acts[..n], d, f, explored, root);
      OfferedBoards(h, child, before, explored);
      NewBoardsAppend(node.grid, acts, n, explored);
      assert child.grid == Move(node.grid, acts[n]);
    }
  }

  /**
   * Offering the children of a well-placed node for its legal actions keeps
   * the frontier invariant and adds exactly its unexplored children's boards.
   */
  lemma OfferLegalPreserves(h: Heuristic, node: Node, d: NodeDefaults, f: seq<Node>, explored: set<Board>, root: Node)
    requires root.parent == None && 0 in node.grid && WellPlaced(h, node, root)
    requires FrontierInvariant(h, f, explored, root)
    ensures FrontierInvariant(h, OfferAll(h, node, LegalActions(node.grid), d, f, explored), explored, root)
    ensures Boards(OfferAll(h, node, LegalActions(node.grid), d, f, explored)) == Boards(f) + ChildBoards(node.grid, explored)
  {
    OfferAllPreserves(h, node, LegalActions(node.grid), d, f, explored, root);
    OfferAllBoards(h, node, LegalActions(node.grid), d, f, explored, root);
    NewBoardsOfLegal(node.grid, explored);
  }

  /**
   * Every legal move from an explored board leads to a board that is explored
   * or waiting on the frontier.
   */
  ghost predicate ClosedUnder(explored: set<Board>, pending: set<Board>) {
    forall b, a | b in explored && CanMove(b, a) :: Move(b, a) in explored || Move(b, a) in pending
  }

  /**
   * The state of the search loop after some number of rounds: the frontier
   * invariant holds, the goal has not been explored, every explored board
   * rearranges the root's and is reachable from it, the moves out of explored
   * boards lead to explored boards or frontier boards, one board was explored
   * per round, before the first round the frontier is the root alone, and
   * after a round the root's board is explored and the last node taken is
   * well placed and its board explored.
   */
  ghost predicate SearchState(h: Heuristic, f: seq<Node>, explored: set<Board>, node: Node, rounds: nat, root: Node) {
    FrontierInvariant(h, f, explored, root) && Goal() !in explored &&
    (forall b | b in explored :: multiset(b) == multiset(root.grid) && Reachable(root.grid, b)) &&
    ClosedUnder(explored, Boards(f)) &&
    |explored| == rounds &&
    (rounds == 0 ==> f == [root]) &&
    (rounds > 0 ==> root.grid != Goal() && root.grid in explored && node.grid in explored && WellPlaced(h, node, root))
  }

  /** Before the first round the frontier holds the root alone and nothing is explored. */
  lemma InitialState(h: Heuristic, root: Node)
    requires root.parent == None
    ensures SearchState(h, [root], {}, root, 0, root)
  {
    assert ClosedUnder({}, {root.grid});
    assert Boards([root]) == {root.grid};
  }

  /**
   * Taking a node off the frontier: it is well placed, its board is not yet
   * explored, and it is the root when no round has run.
   */
  lemma PollStep(h: Heuristic, f: seq<Node>, explored: set<Board>, last: Node, rounds: nat, root: Node, node: Node)
    requires SearchState(h, f, explored, last, rounds, root) && node in f
    ensures node.grid !in explored && WellPlaced(h, node, root)
    ensures FrontierInvariant(h, Remove(f, node.grid), explored + {node.grid}, root)
    ensures rounds == 0 ==> node == root
  {
    PolledPreserves(h, f, explored, root, node);
  }

  /** The board of a node that descends from the root is reachable from the root's board. */
  lemma DescendsReachable(n: Node, root: Node)
    requires Descends(n, root)
    ensures Reachable(root.grid, n.grid)
  {
    DescendantReplays(n, root);
    assert Replay(root.grid, n.moves[|root.moves|..]) == Some(n.grid);
  }

  /**
   * Exploring board g and putting its unexplored children on the frontier in
   * its place keeps every move out of an explored board leading to an
   * explored board or a frontier board.
   */
  lemma ExploreCloses(explored: set<Board>, f: seq<Node>, g: Board, next: seq<Node>)
    requires Distinct(f) && ClosedUnder(explored, Boards(f))
    requires Boards(next) == Boards(Remove(f, g)) + ChildBoards(g, explored + {g})
    ensures ClosedUnder(explored + {g}, Boards(next))
  {
    var explored' := explored + {g};
    RemoveDistinct(f, g);
    forall b, a | b in explored' && CanMove(b, a)
      ensures Move(b, a) in explored' || Move(b, a) in Boards(next)
    {
      if b == g && Move(b, a) !in explored' {
        assert Move(b, a) in ChildBoards(g, explored');
      }
    }
  }

  /**
   * Exploring a non-goal node and expanding it, so that the frontier gains
   * the node's unexplored children, leads to the next round's state.
   */
  lemma ExploreStep(h: Heuristic, f: seq<Node>, explored: set<Board>, last: Node, rounds: nat, root: Node, node: Node, next: seq<Node>)
    requires SearchState(h, f, explored, last, rounds, root) && node in f
    requires node.grid != Goal() && root.parent == None
    requires FrontierInvariant(h, next, explored + {node.grid}, root)
    requires Boards(next) == Boards(Remove(f, node.grid)) + ChildBoards(node.grid, explored + {node.grid})
    ensures SearchState(h, next, explored + {node.grid}, node, rounds + 1, root)
  {
    PollStep(h, f, explored, last, rounds, root, node);
    if rounds == 0 {
      assert node == root;
    }
    DescendsReachable(node, root);
    ExploreCloses(explored, f, node.grid, next);
  }

  /**
   * What the search promises about its result once it stops: the goal was
   * never explored, the result is the goal or an explored board, one board
   * was explored per round except a goal round, every explored board is
   * reachable from the root's, and the result is well placed. When the
   * result is not the goal, the root's board is explored and no legal move
   * leads out of the explored set.
   */
  ghost predicate Outcome(h: Heuristic, result: Node, rounds: nat, explored: set<Board>, root: Node) {
    rounds >= 1 && Goal() !in explored && (result.grid == Goal() || result.grid in explored) &&
    |explored| == (if result.grid == Goal() then rounds - 1 else rounds) &&
    (forall b | b in explored :: Reachable(root.grid, b)) &&
    (result.grid != Goal() ==> root.grid in explored && Closed(explored)) &&
    Descends(result, root) && multiset(result.grid) == multiset(root.grid) &&
    (result != root ==> result.pathLength == Depth(result) && result.priority == PriorityOf(h, result)) &&
    (root.grid == Goal() ==> result == root && rounds == 1)
  }

  /** A round that takes a goal node off the frontier ends the search with that node. */
  lemma GoalFound(h: Heuristic, f: seq<Node>, explored: set<Board>, last: Node, rounds: nat, root: Node, node: Node)
    requires SearchState(h, f, explored, last, rounds, root) && node in f && node.grid == Goal()
    ensures Outcome(h, node, rounds + 1, explored, root)
  {
    PollStep(h, f, explored, last, rounds, root, node);
  }

  /** When the frontier runs out, the search ends with the last node it took. */
  lemma Exhausted(h: Heuristic, explored: set<Board>, node: Node, rounds: nat, root: Node)
    requires SearchState(h, [], explored, node, rounds, root)
    ensures Outcome(h, node, rounds, explored, root)
  {
    assert Boards([]) == {};
  }

  /**
   * A search that stops without the goal explored exactly the boards
   * reachable from the root's, so the goal is not reachable from it.
   */
  lemma ExhaustedIsComplete(h: Heuristic, result: Node, rounds: nat, explored: set<Board>, root: Node)
    requires Outcome(h, result, rounds, explored, root) && result.grid != Goal()
    ensures forall b :: b in explored <==> Reachable(root.grid, b)
    ensures !Reachable(root.grid, Goal()) && |explored| == rounds
  {
    ClosedHoldsReachable(explored, root.grid);
  }

  class TreeSearch {
    /** The goal configuration, filled in by InitGoalState. */
    const goalState: array2<int>
    /** The number of nodes expanded so far. */
    var nodeCount: int
    /** The starting board. */
    var problem: Board
    var heuristic: Heuristic
    /** What a newly constructed node carries before the engine sets its fields. */
    const defaults: NodeDefaults

    /** The goal array is 4x4 and holds the goal configuration. */
    ghost predicate Valid()
      reads goalState
    {
      goalState.Length0 == 4 && goalState.Length1 == 4 &&
      forall i, j | 0 <= i < 4 && 0 <= j < 4 :: goalState[i, j] == GoalCell(i, j)
    }

    constructor (problem: Board, heuristic: Heuristic, defaults: NodeDefaults)
      ensures Valid() && fresh(goalState)
      ensures this.problem == problem && this.heuristic == heuristic && this.defaults == defaults
      ensures nodeCount == 0
    {
      goalState := new int[4, 4];
      nodeCount := 0;
      this.problem := problem;
      this.heuristic := heuristic;
      this.defaults := defaults;
      new;
      InitGoalState();
    }

    /** Fills the goal array: cell (i, j) holds 4 * i + j + 1, except (3, 3), which holds 0. */
    method InitGoalState()
      requires goalState.Length0 == 4 && goalState.Length1 == 4
      modifies goalState
      ensures Valid()
    {
      var tileNumber := 1;
      for i := 0 to 4
        invariant tileNumber == 4 * i + 1
        invariant forall p, q | 0 <= p < i && 0 <= q < 4 :: goalState[p, q] == GoalCell(p, q)
      {
        for j := 0 to 4
          invariant tileNumber == 4 * i + j + 1
          invariant forall p, q | 0 <= p < i && 0 <= q < 4 :: goalState[p, q] == GoalCell(p, q)
          invariant forall q | 0 <= q < j :: goalState[i, q] == GoalCell(i, q)
        {
          if i == 3 && j == 3 {
            goalState[i, j] := 0;
          } else {
            goalState[i, j] := tileNumber;
          }
          tileNumber := tileNumber + 1;
        }
      }
    }

    /** The root node of a search: the starting board, no parent, and a new node's other fields. */
    function Root(): (n: Node)
      reads this
      ensures n.parent == None && Depth(n) == 0 && n.grid == problem
    {
      Node(problem, defaults.moves, defaults.pathLength, defaults.priority, None)
    }

    /** Compares a board with the goal array cell by cell. */
    method GoalTest(nodeState: Board) returns (passed: bool)
      requires Valid()
      ensures passed <==> nodeState == Goal()
    {
      GoalCells();
      for i := 0 to 4
        invariant forall p, q | 0 <= p < i && 0 <= q < 4 :: nodeState[4 * p + q] == GoalCell(p, q)
      {
        for j := 0 to 4
          invariant forall p, q | 0 <= p < i && 0 <= q < 4 :: nodeState[4 * p + q] == GoalCell(p, q)
          invariant forall q | 0 <= q < j :: nodeState[4 * i + q] == GoalCell(i, q)
        {
          if nodeState[4 * i + j] != goalState[i, j] {
            assert nodeState[4 * i + j] != Goal()[4 * i + j];
            return false;
          }
        }
      }
      forall k | 0 <= k < 16
        ensures nodeState[k] == Goal()[k]
      {
        var p, q := k / 4, k % 4;
        assert k == 4 * p + q;
        assert nodeState[4 * p + q] == GoalCell(p, q);
      }
      return true;
    }

    /** Counts the tiles, the blank aside, that differ from the goal array's cell. */
    method MisplacedTilesHeuristic(nodeState: Board) returns (misplaced: int)
      requires Valid()
      ensures misplaced == MisplacedCount(nodeState)
    {
      GoalCells();
      misplaced := 0;
      for i := 0 to 4
        invariant misplaced == MisplacedUpTo(nodeState, 4 * i)
      {
        for j := 0 to 4
          invariant misplaced == MisplacedUpTo(nodeState, 4 * i + j)
        {
          assert goalState[i, j] == Goal()[4 * i + j];
          if nodeState[4 * i + j] != 0 && nodeState[4 * i + j] != goalState[i, j] {
            misplaced := misplaced + 1;
          }
        }
      }
    }

    /**
     * Sums, over all 16 cells, the row and column distance between the cell
     * and the home the formula assigns to its value, with Java's division.
     */
    method ManhattanHeuristic(nodeState: Board) returns (totalMoves: int)
      ensures totalMoves == ManhattanSum(nodeState)
    {
      totalMoves := 0;
      for i := 0 to 4
        invariant totalMoves == ManhattanUpTo(nodeState, 4 * i)
      {
        for j := 0 to 4
          invariant totalMoves == ManhattanUpTo(nodeState, 4 * i + j)
        {
          var currentValue := nodeState[4 * i + j];
          var iGoal, jGoal;
          if currentValue == 0 {
            iGoal, jGoal := 3, 3;
          } else {
            iGoal := TruncDiv4(currentValue);
            jGoal := TruncRem4(currentValue) - 1;
          }
          var movesI := Abs(i - iGoal);
          var movesJ := Abs(j - jGoal);
          IndexSplit(i, j);
          assert CellCost(4 * i + j, currentValue) == movesI + movesJ;
          assert ManhattanUpTo(nodeState, 4 * i + j + 1) == ManhattanUpTo(nodeState, 4 * i + j) + CellCost(4 * i + j, currentValue);
          totalMoves := totalMoves + (movesI + movesJ);
        }
      }
    }

    /** The estimate of the engine's heuristic for a node's board. */
    method HeuristicOf(node: Node) returns (numberSteps: int)
      requires Valid()
      ensures numberSteps == Estimate(heuristic, node.grid)
    {
      match heuristic {
        case MisplacedTiles =>
          numberSteps := MisplacedTilesHeuristic(node.grid);
        case _ =>
          numberSteps := ManhattanHeuristic(node.grid);
      }
    }

    /** The number of parent links from a node back to the root. */
    static method GetPath(node: Node) returns (pathLength: int)
      ensures pathLength == Depth(node)
    {
      var n := node;
      pathLength := 0;
      while n.parent.Some?
        invariant pathLength + Depth(n) == Depth(node)
        decreases n
      {
        n := n.parent.value;
        pathLength := pathLength + 1;
      }
    }

    /**
     * Builds the child of parent for a legal action: a copy of the parent's
     * board with the blank and its neighbour in that direction swapped, the
     * parent's move string plus the action's letter, and a link to the parent.
     */
    method ChildNode(parent: Node, action: Action) returns (child: Node)
      requires CanMove(parent.grid, action)
      ensures child == Child(parent, action, defaults)
    {
      var moves := parent.moves;
      var zero := BlankIndex(parent.grid);
      var oldX, oldY := zero / 4, zero % 4;
      var newX, newY := oldX, oldY;
      match action {
        case Up =>
          newX := newX - 1;
          moves := moves + "U";
        case Down =>
          newX := newX + 1;
          moves := moves + "D";
        case Left =>
          newY := newY - 1;
          moves := moves + "L";
        case Right =>
          newY := newY + 1;
          moves := moves + "R";
      }
      assert moves == parent.moves + [Letter(action)];
      assert (newX, newY) == Target(zero, action);
      var tempNew := CopyState(parent.grid);
      var valueToExchange := parent.grid[4 * newX + newY];
      tempNew[newX, newY] := 0;
      tempNew[oldX, oldY] := valueToExchange;
      CellsOfSwappedCopy(parent.grid, action, tempNew, oldX, oldY, newX, newY);
      var grid := Cells(tempNew);
      child := Node(grid, moves, defaults.pathLength, defaults.priority, Some(parent));
    }

    /** A fresh 4x4 array holding a copy of b, filled cell by cell. */
    static method CopyState(b: Board) returns (tempNew: array2<int>)
      ensures fresh(tempNew) && tempNew.Length0 == 4 && tempNew.Length1 == 4
      ensures forall p, q | 0 <= p < 4 && 0 <= q < 4 :: tempNew[p, q] == b[4 * p + q]
    {
      tempNew := new int[4, 4];
      for i := 0 to 4
        invariant forall p, q | 0 <= p < i && 0 <= q < 4 :: tempNew[p, q] == b[4 * p + q]
      {
        for j := 0 to 4
          invariant forall p, q | 0 <= p < i && 0 <= q < 4 :: tempNew[p, q] == b[4 * p + q]
          invariant forall q | 0 <= q < j :: tempNew[i, q] == b[4 * i + q]
        {
          tempNew[i, j] := b[4 * i + j];
        }
      }
    }

    /** The frontier after the engine has considered child, with the heuristic computed by loop. */
    method Offer(child: Node, frontier: seq<Node>, explored: set<Board>) returns (f: seq<Node>)
      requires Valid()
      ensures f == Offered(heuristic, child, frontier, explored)
    {
      f := frontier;
      if child.grid !in explored && child.grid !in Boards(frontier) {
        var h := HeuristicOf(child);
        f := [child.(priority := h + child.pathLength - 1)] + f;
      } else if child.grid in Boards(frontier) {
        var h := HeuristicOf(child);
        var priority := h + child.pathLength - 1;
        if priority < child.priority {
          f := Remove(f, child.grid);
          f := [child.(priority := priority)] + f;
        }
      }
    }

    /**
     * Builds the child of node for action, gives it its path length, and
     * offers it to the frontier.
     */
    method OfferChild(node: Node, action: Action, frontier: seq<Node>, explored: set<Board>) returns (f: seq<Node>)
      requires Valid() && CanMove(node.grid, action)
      ensures var c := Child(node, action, defaults);
        f == Offered(heuristic, c.(pathLength := Depth(c)), frontier, explored)
    {
      var child := ChildNode(node, action);
      var pathLength := GetPath(child);
      child := child.(pathLength := pathLength);
      f := Offer(child, frontier, explored);
    }

    /**
     * Offers each child of node to the frontier in turn, in the order of
     * LegalActions (OfferLegalPreserves gives the boards this leaves on the
     * frontier).
     */
    method Expand(node: Node, frontier: seq<Node>, explored: set<Board>) returns (f: seq<Node>)
      requires Valid() && 0 in node.grid
      ensures f == OfferAll(heuristic, node, LegalActions(node.grid), defaults, frontier, explored)
    {
      f := frontier;
      var actions := LegalActions(node.grid);
      for idx := 0 to |actions|
        invariant f == OfferAll(heuristic, node, actions[..idx], defaults, frontier, explored)
      {
        OfferAllStep(heuristic, node, actions, idx, defaults, frontier, explored);
        f := OfferChild(node, actions[idx], f, explored);
      }
      assert actions[..|actions|] == actions;
    }

    /**
     * A* search from the starting board. Each round takes a least-priority
     * node off the frontier and counts it as expanded; a goal node is returned
     * at once, any other node's board joins the explored set and its children
     * are offered to the frontier. When the frontier runs out, the last node
     * taken is returned. The ghost results are the number of rounds and the
     * final explored set.
     */
    method AStar() returns (result: Node, ghost expansions: nat, ghost exploredAtEnd: set<Board>)
      requires Valid() && 0 in problem
      modifies this`nodeCount
      ensures nodeCount == old(nodeCount) + expansions
      ensures Outcome(heuristic, result, expansions, exploredAtEnd, Root())
    {
      var initialNode := Root();
      var explored: set<Board> := {};
      var frontier := [initialNode];
      var node := initialNode;
      expansions := 0;
      ghost var universe := Rearrangements(problem);
      InitialState(heuristic, initialNode);
      while frontier != []
        invariant SearchState(heuristic, frontier, explored, node, expansions, initialNode)
        invariant nodeCount == old(nodeCount) + expansions
        decreases universe - explored
      {
        ghost var last := node;
        var rest;
        node, rest := Poll(frontier);
        PollStep(heuristic, frontier, explored, last, expansions, initialNode, node);
        ghost var polled := frontier;
        frontier := rest;
        nodeCount := nodeCount + 1;
        expansions := expansions + 1;
        var isGoal := GoalTest(node.grid);
        if isGoal {
          GoalFound(heuristic, polled, explored, last, expansions - 1, initialNode, node);
          return node, expansions, explored;
        }
        assert 0 in multiset(node.grid);
        OfferLegalPreserves(heuristic, node, defaults, frontier, explored + {node.grid}, initialNode);
        frontier := Expand(node, frontier, explored + {node.grid});
        ExploreStep(heuristic, polled, explored, last, expansions - 1, initialNode, node, frontier);
        explored := explored + {node.grid};
      }
      Exhausted(heuristic, explored, node, expansions, initialNode);
      return node, expansions, explored;
    }
  }
}
