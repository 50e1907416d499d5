/**
 * The 15-puzzle board: a 4x4 grid of integers where 0 is the blank.
 * A board is kept in row-major order, so the cell in row i and column j
 * is at index 4 * i + j.
 */
module Board {
  import opened Wrappers

  type Board = b: seq<int> | |b| == 16 witness seq(16, _ => 0)

  /** The value the goal configuration holds in row i, column j. */
  function GoalCell(i: int, j: int): int {
    if i == 3 && j == 3 then 0 else 4 * i + j + 1
  }

  /** A proper configuration: every value in 0..15 and no value twice. */
  predicate IsState(b: Board) {
    (forall k | 0 <= k < 16 :: 0 <= b[k] < 16) &&
    (forall p, q | 0 <= p < q < 16 :: b[p] != b[q])
  }

  /** The goal configuration: tiles 1..15 in reading order, the blank last. */
  function Goal(): Board {
    seq(16, k => if k == 15 then 0 else k + 1)
  }

  /** Cell (i, j) of the goal holds 4 * i + j + 1, except (3, 3), which holds the blank. */
  lemma GoalCells()
    ensures forall i, j | 0 <= i < 4 && 0 <= j < 4 :: Goal()[4 * i + j] == GoalCell(i, j)
  {
  }

  /** The goal is a proper configuration. */
  lemma GoalIsState()
    ensures IsState(Goal())
  {
  }

  /** The index of the first blank at or after `from`. */
  function BlankFrom(b: Board, from: nat): (k: nat)
    requires from <= 16 && 0 in b[from..]
    ensures from <= k < 16 && b[k] == 0
    ensures forall p | from <= p < k :: b[p] != 0
    decreases 16 - from
  {
    if b[from] == 0 then from
    else
      assert b[from..] == [b[from]] + b[from + 1..];
      BlankFrom(b, from + 1)
  }

  /** Where the blank is: the first cell, in reading order, that holds 0. */
  function BlankIndex(b: Board): (k: nat)
    requires 0 in b
    ensures k < 16 && b[k] == 0
    ensures forall p | 0 <= p < k :: b[p] != 0
  {
    assert b[0..] == b;
    BlankFrom(b, 0)
  }

  /** The four directions the blank can move in. */
  datatype Action = Up | Down | Left | Right

  /** The letter a move appends to a node's move string. */
  function Letter(a: Action): (r: char)
    ensures r in "UDLR"
  {
    match a
    case Up => 'U'
    case Down => 'D'
    case Left => 'L'
    case Right => 'R'
  }

  /** The move a letter of a move string stands for, if any. */
  function FromLetter(c: char): (r: Option<Action>)
    ensures forall a :: r == Some(a) <==> Letter(a) == c
  {
    match c
    case 'U' => Some(Up)
    case 'D' => Some(Down)
    case 'L' => Some(Left)
    case 'R' => Some(Right)
    case _ => None
  }

  function Opposite(a: Action): Action {
    match a
    case Up => Down
    case Down => Up
    case Left => Right
    case Right => Left
  }

  /**
   * The row and column the blank at index k moves to under a: Up and Down
   * change the row, Left and Right the column.
   */
  function Target(k: int, a: Action): (r: (int, int))
    ensures a == Up || a == Down ==> r.1 == k % 4
    ensures a == Left || a == Right ==> r.0 == k / 4
  {
    match a
    case Up => (k / 4 - 1, k % 4)
    case Down => (k / 4 + 1, k % 4)
    case Left => (k / 4, k % 4 - 1)
    case Right => (k / 4, k % 4 + 1)
  }

  predicate OnBoard(i: int, j: int) {
    0 <= i < 4 && 0 <= j < 4
  }

  /** A move is possible when the board has a blank and the cell it moves to is on the board. */
  predicate CanMove(b: Board, a: Action) {
    0 in b && OnBoard(Target(BlankIndex(b), a).0, Target(BlankIndex(b), a).1)
  }

  /** The index of the cell the blank moves to. */
  function TargetIndex(b: Board, a: Action): (t: nat)
    requires CanMove(b, a)
    ensures t < 16 && t != BlankIndex(b)
  {
    4 * Target(BlankIndex(b), a).0 + Target(BlankIndex(b), a).1
  }

  /**
   * The board after moving the blank in direction a: the tile next to the
   * blank takes the blank's cell and the blank takes the tile's cell.
   */
  function Move(b: Board, a: Action): (r: Board)
    requires CanMove(b, a)
    ensures r[TargetIndex(b, a)] == 0
  {
    var z, t := BlankIndex(b), TargetIndex(b, a);
    b[t := 0][z := b[t]]
  }

  /**
   * A move trades exactly two cells: the target cell gets the blank, the
   * blank's cell gets the target's tile, and the board keeps its values.
   */
  lemma MoveSwaps(b: Board, a: Action)
    requires CanMove(b, a)
    ensures var r, z, t := Move(b, a), BlankIndex(b), TargetIndex(b, a);
      r[t] == 0 && r[z] == b[t] &&
      (forall k | 0 <= k < 16 && k != z && k != t :: r[k] == b[k]) &&
      multiset(r) == multiset(b)
  {
    var r, z, t := Move(b, a), BlankIndex(b), TargetIndex(b, a);
    calc {
      multiset(r);
      multiset(b[t := 0]) - multiset{b[t := 0][z]} + multiset{b[t]};
      multiset(b) - multiset{b[t]} + multiset{0} - multiset{b[z]} + multiset{b[t]};
      { assert b[z] == 0; }
      multiset(b);
    }
  }

  /** A board that agrees with b except that the blank and the target cell trade values is Move(b, a). */
  lemma SwapIsMove(b: Board, a: Action, r: Board)
    requires CanMove(b, a)
    requires r[TargetIndex(b, a)] == 0 && r[BlankIndex(b)] == b[TargetIndex(b, a)]
    requires forall k | 0 <= k < 16 && k != BlankIndex(b) && k != TargetIndex(b, a) :: r[k] == b[k]
    ensures r == Move(b, a)
  {
    var m := Move(b, a);
    MoveSwaps(b, a);
    assert forall k | 0 <= k < 16 :: r[k] == m[k];
  }

  /** The legal moves of a board, in the order Up, Down, Left, Right. */
  function LegalActions(b: Board): (acts: seq<Action>)
    requires 0 in b
    ensures forall a :: a in acts <==> CanMove(b, a)
  {
    (if CanMove(b, Up) then [Up] else []) +
    (if CanMove(b, Down) then [Down] else []) +
    (if CanMove(b, Left) then [Left] else []) +
    (if CanMove(b, Right) then [Right] else [])
  }

  /** A move keeps a proper configuration proper. */
  lemma MovePreservesState(b: Board, a: Action)
    requires IsState(b) && CanMove(b, a)
    ensures IsState(Move(b, a))
  {
    var r, z, t := Move(b, a), BlankIndex(b), TargetIndex(b, a);
    MoveSwaps(b, a);
    forall p, q | 0 <= p < q < 16
      ensures r[p] != r[q]
    {
      var p' := if p == z then t else if p == t then z else p;
      var q' := if q == z then t else if q == t then z else q;
      assert r[p] == b[p'] && r[q] == b[q'];
      assert p' != q';
      if p' < q' { assert b[p'] != b[q']; } else { assert b[q'] != b[p']; }
    }
  }

  /** Moving from the target cell in the opposite direction leads back to where the blank was. */
  lemma TargetOpposite(z: int, a: Action)
    requires 0 <= z < 16 && OnBoard(Target(z, a).0, Target(z, a).1)
    ensures var t := 4 * Target(z, a).0 + Target(z, a).1;
      Target(t, Opposite(a)) == (z / 4, z % 4) && 4 * (z / 4) + z % 4 == z
  {
    var t := 4 * Target(z, a).0 + Target(z, a).1;
    match a
    case Up => assert t / 4 == z / 4 - 1 && t % 4 == z % 4;
    case Down => assert t / 4 == z / 4 + 1 && t % 4 == z % 4;
    case Left => assert t / 4 == z / 4 && t % 4 == z % 4 - 1;
    case Right => assert t / 4 == z / 4 && t % 4 == z % 4 + 1;
  }

  /** After a move the blank sits on the old target cell, and moving it back targets the old blank cell. */
  lemma MoveBackTargets(b: Board, a: Action)
    requires IsState(b) && CanMove(b, a)
    ensures BlankIndex(Move(b, a)) == TargetIndex(b, a)
    ensures CanMove(Move(b, a), Opposite(a))
    ensures TargetIndex(Move(b, a), Opposite(a)) == BlankIndex(b)
  {
    var r, z, t := Move(b, a), BlankIndex(b), TargetIndex(b, a);
    MoveSwaps(b, a);
    MovePreservesState(b, a);
    assert BlankIndex(r) == t by {
      var k := BlankIndex(r);
      assert r[k] == r[t];
    }
    TargetOpposite(z, a);
  }

  /** Undoing a move: moving the blank back the opposite way restores the board. */
  lemma MoveRoundTrip(b: Board, a: Action)
    requires IsState(b) && CanMove(b, a)
    ensures CanMove(Move(b, a), Opposite(a))
    ensures Move(Move(b, a), Opposite(a)) == b
  {
    var r := Move(b, a);
    MoveBackTargets(b, a);
    MoveSwaps(b, a);
    MoveSwaps(r, Opposite(a));
    var back := Move(r, Opposite(a));
    assert forall k | 0 <= k < 16 :: back[k] == b[k];
  }

  /** The set of values a sequence holds. */
  function Values(s: seq<int>): set<int> {
    set v | v in s
  }

  /** All sequences of length n over the values in vals: a finite set. */
  ghost function Sequences(vals: set<int>, n: nat): set<seq<int>> {
    if n == 0 then {[]}
    else set v, s | v in vals && s in Sequences(vals, n - 1) :: [v] + s
  }

  /** Every sequence drawn from vals lies in the finite set of such sequences. */
  lemma {:induction false} InSequences(s: seq<int>, vals: set<int>)
    requires forall k | 0 <= k < |s| :: s[k] in vals
    ensures s in Sequences(vals, |s|)
  {
    if |s| > 0 {
      var v, rest := s[0], s[1..];
      InSequences(rest, vals);
      assert s == [v] + rest;
      assert s in (set v', s' | v' in vals && s' in Sequences(vals, |s| - 1) :: [v'] + s');
    }
  }

  /** Every rearrangement of start is a sequence over start's values of start's length. */
  lemma RearrangementInSequences(b: Board, start: Board)
    requires multiset(b) == multiset(start)
    ensures b in Sequences(Values(start), |start|)
  {
    forall k | 0 <= k < 16
      ensures b[k] in Values(start)
    {
      assert b[k] in multiset(b);
    }
    InSequences(b, Values(start));
  }

  /**
   * The rearrangements of a board form a finite set: the search below uses
   * it to bound how many boards it can explore.
   */
  lemma Rearrangements(start: Board) returns (u: set<Board>)
    ensures forall b: Board | multiset(b) == multiset(start) :: b in u
  {
    u := set b: Board | b in Sequences(Values(start), |start|);
    forall b: Board | multiset(b) == multiset(start)
      ensures b in u
    {
      RearrangementInSequences(b, start);
    }
  }
}
