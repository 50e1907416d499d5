/**
 * The two estimates of the distance to the goal that the engine can use:
 * the misplaced-tile count and the Manhattan sum, the latter with its
 * goal-position formula exactly as the engine computes it.
 */
module Heuristics {
  import opened Board

  /** The heuristic selector; any selector other than MisplacedTiles picks the Manhattan sum. */
  datatype Heuristic = MisplacedTiles | ManhattanDistance

  /** Cell k holds a tile (not the blank) other than the one the goal has there. */
  predicate IsMisplaced(b: Board, k: int)
    requires 0 <= k < 16
  {
    b[k] != 0 && b[k] != Goal()[k]
  }

  /** The number of misplaced tiles among the first n cells, in reading order. */
  function MisplacedUpTo(b: Board, n: nat): (r: nat)
    requires n <= 16
    ensures r <= n
  {
    if n == 0 then 0 else MisplacedUpTo(b, n - 1) + (if IsMisplaced(b, n - 1) then 1 else 0)
  }

  /** The number of misplaced tiles; the goal board has none. */
  function MisplacedCount(b: Board): (r: nat)
    ensures r <= 16 && (b == Goal() ==> r == 0)
  {
    MisplacedUpToZero(Goal(), 16);
    MisplacedUpTo(b, |b|)
  }

  /** The count is the size of the set of misplaced cells. */
  lemma {:induction false} MisplacedUpToIsCardinality(b: Board, n: nat)
    requires n <= 16
    ensures MisplacedUpTo(b, n) == |set k | 0 <= k < n && IsMisplaced(b, k)|
  {
    if n > 0 {
      MisplacedUpToIsCardinality(b, n - 1);
      var before := set k | 0 <= k < n - 1 && IsMisplaced(b, k);
      var now := set k | 0 <= k < n && IsMisplaced(b, k);
      if IsMisplaced(b, n - 1) {
        assert now == before + {n - 1};
      } else {
        assert now == before;
      }
    }
  }

  lemma {:induction false} MisplacedUpToZero(b: Board, n: nat)
    requires n <= 16
    ensures MisplacedUpTo(b, n) == 0 <==> forall k | 0 <= k < n :: !IsMisplaced(b, k)
  {
    if n > 0 {
      MisplacedUpToZero(b, n - 1);
    }
  }

  lemma MisplacedCountIsCardinality(b: Board)
    ensures MisplacedCount(b) == |set k | 0 <= k < 16 && IsMisplaced(b, k)|
  {
    MisplacedUpToIsCardinality(b, 16);
  }

  /** No tile is misplaced exactly when every tile (the blank aside) sits where the goal has it. */
  lemma MisplacedZeroIff(b: Board)
    ensures MisplacedCount(b) == 0 <==> forall k | 0 <= k < 16 :: b[k] != 0 ==> b[k] == Goal()[k]
  {
    MisplacedUpToZero(b, 16);
    if forall k | 0 <= k < 16 :: b[k] != 0 ==> b[k] == Goal()[k] {
      forall k | 0 <= k < 16
        ensures !IsMisplaced(b, k)
      {
        assert b[k] != 0 ==> b[k] == Goal()[k];
      }
    } else {
      var k :| 0 <= k < 16 && b[k] != 0 && b[k] != Goal()[k];
      assert IsMisplaced(b, k);
    }
  }

  /** Among the first n cells at most n are misplaced, and the blank never is. */
  lemma {:induction false} MisplacedUpToBound(b: Board, n: nat, z: nat)
    requires n <= 16 && z < 16 && b[z] == 0
    ensures MisplacedUpTo(b, n) <= if z < n then n - 1 else n
  {
    if n > 0 {
      MisplacedUpToBound(b, n - 1, z);
    }
  }

  /** A board with a blank has at most 15 misplaced tiles. */
  lemma MisplacedAtMost15(b: Board)
    requires 0 in b
    ensures MisplacedCount(b) <= 15
  {
    MisplacedUpToBound(b, 16, BlankIndex(b));
  }

  /** Java's integer division by 4, which truncates toward zero. */
  function TruncDiv4(a: int): int {
    if a >= 0 then a / 4 else -((-a) / 4)
  }

  /** Java's remainder after division by 4, which takes the sign of the dividend. */
  function TruncRem4(a: int): (r: int)
    ensures a == 4 * TruncDiv4(a) + r
    ensures -4 < r < 4 && (a > 0 ==> r >= 0) && (a < 0 ==> r <= 0)
  {
    a - 4 * TruncDiv4(a)
  }

  function Abs(x: int): nat {
    if x < 0 then -x else x
  }

  /** The row the Manhattan sum takes as value v's home: 3 for the blank, v / 4 otherwise. */
  function HomeRow(v: int): int {
    if v == 0 then 3 else TruncDiv4(v)
  }

  /** The column the Manhattan sum takes as value v's home: 3 for the blank, (v % 4) - 1 otherwise. */
  function HomeCol(v: int): int {
    if v == 0 then 3 else TruncRem4(v) - 1
  }

  /** What value v in cell k contributes to the Manhattan sum. */
  function CellCost(k: nat, v: int): nat {
    Abs(k / 4 - HomeRow(v)) + Abs(k % 4 - HomeCol(v))
  }

  /**
   * For a tile v that is not a multiple of 4, the home the formula gives is
   * the goal cell holding v; for 4, 8 and 12 it is column -1 of the row
   * below, off the board and five moves from the tile's goal cell.
   */
  lemma HomeOfTile(v: int)
    requires 1 <= v <= 15
    ensures v % 4 != 0 ==> OnBoard(HomeRow(v), HomeCol(v)) && GoalCell(HomeRow(v), HomeCol(v)) == v
    ensures v % 4 == 0 ==> HomeRow(v) == v / 4 && HomeCol(v) == -1
    ensures v % 4 == 0 ==> GoalCell(v / 4 - 1, 3) == v && Abs(v / 4 - 1 - HomeRow(v)) + Abs(3 - HomeCol(v)) == 5
  {
    var q, r := v / 4, v % 4;
    assert v == 4 * q + r;
    assert TruncDiv4(v) == q && TruncRem4(v) == r;
  }

  /** The Manhattan sum over the first n cells, in reading order. */
  function ManhattanUpTo(b: Board, n: nat): nat
    requires n <= 16
  {
    if n == 0 then 0 else ManhattanUpTo(b, n - 1) + CellCost(n - 1, b[n - 1])
  }

  /**
   * The Manhattan sum of the board. As written it is 15 on the goal board,
   * not 0: tiles 4, 8 and 12 each cost 5.
   */
  function ManhattanSum(b: Board): (r: nat)
    ensures b == Goal() ==> r == 15
  {
    ManhattanUpToOfGoal(16);
    ManhattanUpTo(b, |b|)
  }

  /** No cell's distance to its home exceeds the sum over the first n cells. */
  lemma {:induction false} ManhattanUpToBoundsCells(b: Board, n: nat)
    requires n <= 16
    ensures forall k | 0 <= k < n :: CellCost(k, b[k]) <= ManhattanUpTo(b, n)
  {
    if n > 0 {
      ManhattanUpToBoundsCells(b, n - 1);
      var before, last := ManhattanUpTo(b, n - 1), CellCost(n - 1, b[n - 1]);
      assert ManhattanUpTo(b, n) == before + last;
    }
  }

  /** A tile whose distance to the formula's home is 0 sits in its goal cell. */
  lemma CellCostZero(k: nat, v: int)
    requires k < 16 && v != 0 && CellCost(k, v) == 0
    ensures v == Goal()[k]
  {
    assert k / 4 == TruncDiv4(v) && k % 4 == TruncRem4(v) - 1;
    assert k == 4 * (k / 4) + k % 4;
  }

  /** A Manhattan sum of 0 puts every tile, the blank aside, where the goal has it. */
  lemma ManhattanZeroHome(b: Board)
    ensures ManhattanSum(b) == 0 ==> forall k | 0 <= k < 16 :: b[k] != 0 ==> b[k] == Goal()[k]
  {
    ManhattanUpToBoundsCells(b, 16);
    if ManhattanSum(b) == 0 {
      forall k | 0 <= k < 16 && b[k] != 0
        ensures b[k] == Goal()[k]
      {
        CellCostZero(k, b[k]);
      }
    }
  }

  /**
   * On the goal board every cell costs 0 except the last cell of each of the
   * first three rows (tiles 4, 8 and 12), which costs 5.
   */
  lemma {:induction false} ManhattanUpToOfGoal(n: nat)
    requires n <= 16
    ensures ManhattanUpTo(Goal(), n) == 5 * (if n == 16 then 3 else n / 4)
  {
    if n > 0 {
      ManhattanUpToOfGoal(n - 1);
      GoalCellCost(n - 1);
      assert ManhattanUpTo(Goal(), n) == ManhattanUpTo(Goal(), n - 1) + CellCost(n - 1, Goal()[n - 1]);
    }
  }

  /** On the goal board the last cell of each of the first three rows costs 5, every other cell 0. */
  lemma GoalCellCost(k: nat)
    requires k < 16
    ensures CellCost(k, Goal()[k]) == if k % 4 == 3 && k != 15 then 5 else 0
  {
    var q, r := k / 4, k % 4;
    assert k == 4 * q + r && 0 <= r < 4;
    if k == 15 {
      assert CellCost(k, Goal()[k]) == 0;
    } else if r == 3 {
      assert Goal()[k] == 4 * (q + 1);
      assert TruncDiv4(4 * (q + 1)) == q + 1;
      assert CellCost(k, 4 * (q + 1)) == 5;
    } else {
      assert Goal()[k] == 4 * q + r + 1;
      assert TruncDiv4(4 * q + r + 1) == q;
      assert CellCost(k, 4 * q + r + 1) == 0;
    }
  }

  /**
   * The estimate the selector picks: on the goal board 0 for misplaced tiles
   * and 15 for the Manhattan sum as written.
   */
  function Estimate(h: Heuristic, b: Board): (r: nat)
    ensures b == Goal() ==> r == if h == MisplacedTiles then 0 else 15
  {
    match h
    case MisplacedTiles => MisplacedCount(b)
    case _ => ManhattanSum(b)
  }

  /** Either estimate is 0 only on a board whose tiles, the blank aside, all sit where the goal has them. */
  lemma EstimateZeroHome(h: Heuristic, b: Board)
    ensures Estimate(h, b) == 0 ==> forall k | 0 <= k < 16 :: b[k] != 0 ==> b[k] == Goal()[k]
  {
    if h == MisplacedTiles {
      MisplacedZeroIff(b);
    } else {
      ManhattanZeroHome(b);
    }
  }
}
