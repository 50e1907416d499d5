/**
 * The frontier of the search: a collection of nodes taken out by least
 * priority. Membership and removal go by board, which is how the engine's
 * priority queue compares nodes.
 */
module Frontier {
  import opened Board
  import opened Nodes

  /** The boards of the nodes in f. */
  function Boards(f: seq<Node>): set<Board> {
    if f == [] then {} else {f[0].grid} + Boards(f[1..])
  }

  /** No two nodes of f hold the same board. */
  predicate Distinct(f: seq<Node>) {
    f == [] || (f[0].grid !in Boards(f[1..]) && Distinct(f[1..]))
  }

  /** f without its first node holding board b (f itself when there is none). */
  function Remove(f: seq<Node>, b: Board): (r: seq<Node>)
    ensures |r| <= |f|
  {
    if f == [] then []
    else if f[0].grid == b then f[1..]
    else [f[0]] + Remove(f[1..], b)
  }

  /** A board is among the frontier's boards exactly when some node of the frontier holds it. */
  lemma {:induction false} BoardsMembership(f: seq<Node>, b: Board)
    ensures b in Boards(f) <==> exists k :: 0 <= k < |f| && f[k].grid == b
  {
    if f != [] {
      BoardsMembership(f[1..], b);
      if b in Boards(f[1..]) {
        var k :| 0 <= k < |f| - 1 && f[1..][k].grid == b;
        assert f[k + 1].grid == b;
      }
      if exists k :: 0 <= k < |f| && f[k].grid == b {
        var k :| 0 <= k < |f| && f[k].grid == b;
        if k > 0 { assert f[1..][k - 1].grid == b; }
      }
    }
  }

  lemma InBoards(f: seq<Node>, n: Node)
    requires n in f
    ensures n.grid in Boards(f)
  {
    var k :| 0 <= k < |f| && f[k] == n;
    BoardsMembership(f, n.grid);
  }

  /**
   * Removing a board from a frontier without repeated boards removes exactly
   * that board, leaves no repeats, and keeps every other node.
   */
  lemma {:induction false} RemoveDistinct(f: seq<Node>, b: Board)
    requires Distinct(f)
    ensures Boards(Remove(f, b)) == Boards(f) - {b}
    ensures Distinct(Remove(f, b))
    ensures forall n | n in Remove(f, b) :: n in f
  {
    if f != [] {
      RemoveDistinct(f[1..], b);
      if f[0].grid != b {
        assert Remove(f, b) == [f[0]] + Remove(f[1..], b);
        assert Remove(f, b)[1..] == Remove(f[1..], b);
      }
    }
  }

  /** In a frontier without repeated boards, removing the board of the k-th node removes that node. */
  lemma {:induction false} RemoveAt(f: seq<Node>, k: nat)
    requires Distinct(f) && k < |f|
    ensures Remove(f, f[k].grid) == f[..k] + f[k + 1..]
  {
    if k > 0 {
      InBoards(f[1..], f[k]);
      RemoveAt(f[1..], k - 1);
      assert f[1..][..k - 1] + f[1..][k..] == f[1..k] + f[k + 1..];
      assert f[..k] + f[k + 1..] == [f[0]] + (f[1..k] + f[k + 1..]);
    }
  }

  /**
   * Takes out a node of least priority; which one, among several of least
   * priority, is left open. The rest is the frontier without that node.
   */
  method Poll(f: seq<Node>) returns (m: Node, rest: seq<Node>)
    requires f != []
    ensures m in f && forall n | n in f :: m.priority <= n.priority
    ensures multiset(rest) + multiset{m} == multiset(f)
    ensures Distinct(f) ==> rest == Remove(f, m.grid)
  {
    var best := 0;
    for k := 1 to |f|
      invariant 0 <= best < |f|
      invariant forall p | 0 <= p < k :: f[best].priority <= f[p].priority
    {
      if f[k].priority < f[best].priority {
        best := k;
      }
    }
    m := f[best];
    rest := f[..best] + f[best + 1..];
    assert f == f[..best] + [m] + f[best + 1..];
    if Distinct(f) {
      RemoveAt(f, best);
    }
  }
}
