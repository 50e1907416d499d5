/**
 * Search nodes and the tree their parent links form: how deep a node is,
 * how a child is built from its parent, and what a chain of parent links
 * says about the move string a node carries.
 */
module Nodes {
  import opened Wrappers
  import opened Board

  /**
   * A search node: its board, the letters of the moves that led to it, its
   * path length and priority as the engine sets them, and its parent (None
   * for the root). Two nodes stand for the same state when their boards agree.
   */
  datatype Node = Node(grid: Board, moves: string, pathLength: int, priority: int, parent: Option<Node>)

  /** The moves, path length and priority a newly constructed node carries before the engine sets them. */
  datatype NodeDefaults = NodeDefaults(moves: string, pathLength: int, priority: int)

  /** The number of parent links from n back to the root. */
  function Depth(n: Node): (r: nat)
    ensures r == 0 <==> n.parent == None
    decreases n
  {
    match n.parent
    case None => 0
    case Some(p) => 1 + Depth(p)
  }

  /** The board the move letter c leads to from b, if c names a legal move there. */
  function Step(b: Board, c: char): Option<Board> {
    match FromLetter(c)
    case None => None
    case Some(a) => if CanMove(b, a) then Some(Move(b, a)) else None
  }

  /** The board the letters of s lead to from b, in order; None once a letter is not a legal move. */
  function Replay(b: Board, s: string): Option<Board>
    decreases |s|
  {
    if s == [] then Some(b)
    else match Step(b, s[0])
      case None => None
      case Some(next) => Replay(next, s[1..])
  }

  /** Some string of move letters leads from b to e. */
  ghost predicate Reachable(b: Board, e: Board) {
    exists s: string :: Replay(b, s) == Some(e)
  }

  /** Every legal move from a board of s leads to a board of s. */
  ghost predicate Closed(s: set<Board>) {
    forall b, a | b in s && CanMove(b, a) :: Move(b, a) in s
  }

  /** Replaying any letters from a board of a closed set stays in the set. */
  lemma {:induction false} ClosedHoldsReplays(s: set<Board>, b: Board, letters: string)
    requires Closed(s) && b in s
    ensures Replay(b, letters).Some? ==> Replay(b, letters).value in s
    decreases |letters|
  {
    if letters != [] {
      match FromLetter(letters[0])
      case None =>
      case Some(a) =>
        if CanMove(b, a) {
          ClosedHoldsReplays(s, Move(b, a), letters[1..]);
        }
    }
  }

  /** A closed set holding b holds every board reachable from b. */
  lemma ClosedHoldsReachable(s: set<Board>, b: Board)
    requires Closed(s) && b in s
    ensures forall e | Reachable(b, e) :: e in s
  {
    forall e | Reachable(b, e)
      ensures e in s
    {
      var letters :| Replay(b, letters) == Some(e);
      ClosedHoldsReplays(s, b, letters);
    }
  }

  /** n follows from p by one legal move, whose letter n's move string adds to p's. */
  ghost predicate IsStep(p: Node, n: Node) {
    |n.moves| == |p.moves| + 1 && n.moves[..|p.moves|] == p.moves &&
    Step(p.grid, n.moves[|p.moves|]) == Some(n.grid)
  }

  /** n is root, or its parent links lead back to root and each link is a legal move. */
  ghost predicate Descends(n: Node, root: Node)
    decreases n
  {
    n == root || (n.parent.Some? && IsStep(n.parent.value, n) && Descends(n.parent.value, root))
  }

  /**
   * The child of parent reached by moving the blank in direction a: the moved
   * board, the parent's move string plus the move's letter, and a link to the
   * parent; path length and priority are still a new node's.
   */
  function Child(parent: Node, a: Action, d: NodeDefaults): (c: Node)
    requires CanMove(parent.grid, a)
    ensures c.parent == Some(parent) && Depth(c) == Depth(parent) + 1
    ensures multiset(c.grid) == multiset(parent.grid)
    ensures IsStep(parent, c)
  {
    Node(Move(parent.grid, a), parent.moves + [Letter(a)], d.pathLength, d.priority, Some(parent))
  }

  /** Replaying one more letter continues from where the shorter replay ended. */
  lemma {:induction false} ReplayAppend(b: Board, s: string, c: char)
    ensures Replay(b, s + [c]) == match Replay(b, s) case None => None case Some(e) => Step(e, c)
    decreases |s|
  {
    if s == [] {
      assert s + [c] == [c];
    } else {
      assert (s + [c])[0] == s[0] && (s + [c])[1..] == s[1..] + [c];
      match Step(b, s[0])
      case None =>
      case Some(next) => ReplayAppend(next, s[1..], c);
    }
  }

  /**
   * A descendant's move string extends the root's, replaying the added letters
   * on the root's board yields the descendant's board, and, below a root
   * without parent, the number of added letters is the descendant's depth.
   */
  lemma {:induction false} DescendantReplays(n: Node, root: Node)
    requires Descends(n, root)
    ensures |root.moves| <= |n.moves| && n.moves[..|root.moves|] == root.moves
    ensures Replay(root.grid, n.moves[|root.moves|..]) == Some(n.grid)
    ensures root.parent == None ==> Depth(n) == |n.moves| - |root.moves|
    decreases n
  {
    if n != root {
      var p := n.parent.value;
      DescendantReplays(p, root);
      var r, m := |root.moves|, |p.moves|;
      var c := n.moves[m];
      assert n.moves == p.moves + [c] by {
        assert |n.moves| == m + 1 && n.moves[..m] == p.moves;
        assert n.moves[m..] == [c];
        assert n.moves == n.moves[..m] + n.moves[m..];
      }
      assert n.moves[..r] == root.moves by {
        assert n.moves[..r] == p.moves[..r];
      }
      var added := p.moves[r..];
      assert n.moves[r..] == added + [c];
      ReplayAppend(root.grid, added, c);
      assert Depth(n) == 1 + Depth(p);
    } else {
      assert n.moves[|root.moves|..] == [];
    }
  }

  /** A child of a descendant, whatever path length and priority it is given, is a descendant too. */
  lemma ChildDescends(p: Node, a: Action, d: NodeDefaults, root: Node, pathLength: int, priority: int)
    requires Descends(p, root) && CanMove(p.grid, a)
    ensures Descends(Child(p, a, d).(pathLength := pathLength, priority := priority), root)
  {
    var c := Child(p, a, d).(pathLength := pathLength, priority := priority);
    assert IsStep(p, c);
  }
}
