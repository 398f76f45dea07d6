/**
  The two search heuristics: the Manhattan distance of every tile to the cell
  divmod(v - 1, n) and the Hamming count of misplaced tiles against the
  standard goal. Both add one term per non-blank cell, so they share one sum.
*/
module Heuristics {
  import opened Common
  import opened Grid

  datatype Heuristic = Manhattan | Hamming

  /** A node's heuristic name: "hamming" selects Hamming, any other name
      falls back to Manhattan. */
  function Select(name: string): (h: Heuristic)
    ensures h == Hamming <==> name == "hamming"
    ensures name != "hamming" ==> h == Manhattan
  {
    if name == "hamming" then Hamming else Manhattan
  }

  /** The row and column where manhattan_distance expects tile v. */
  function HomeRow(n: nat, v: int): (r: int)
    requires n > 0
  {
    (v - 1) / n
  }

  function HomeCol(n: nat, v: int): (r: int)
    requires n > 0
  {
    (v - 1) % n
  }

  /** What tile v in cell (i, j) of an n x n board contributes; the blank
      contributes nothing. */
  function Term(h: Heuristic, n: nat, v: int, i: nat, j: nat): (r: nat)
    requires n > 0
  {
    if v == 0 then 0
    else match h
      case Manhattan => Abs(HomeRow(n, v) - i) + Abs(HomeCol(n, v) - j)
      case Hamming => if v != GoalTile(n, i, j) then 1 else 0
  }

  /** The terms of the first j cells of row i. */
  function RowSum(h: Heuristic, b: Board, i: nat, j: nat): (r: nat)
    requires IsSquare(b) && i < |b| && j <= |b|
  {
    if j == 0 then 0 else RowSum(h, b, i, j - 1) + Term(h, |b|, b[i][j - 1], i, j - 1)
  }

  /** The terms of the first k rows. */
  function BoardSum(h: Heuristic, b: Board, k: nat): (r: nat)
    requires IsSquare(b) && k <= |b|
  {
    if k == 0 then 0 else BoardSum(h, b, k - 1) + RowSum(h, b, k - 1, |b|)
  }

  /** The heuristic value of a board. */
  function Cost(h: Heuristic, b: Board): (r: nat)
    requires IsSquare(b)
  {
    BoardSum(h, b, |b|)
  }

  // ---------------------------------------------------------------------
  // The two loops

  /** manhattan_distance: visit the cells row by row and add, for every tile,
      how far it is from divmod(v - 1, n). */
  method ManhattanDistance(state: Board) returns (distance: int)
    requires IsSquare(state)
    ensures distance == Cost(Manhattan, state)
  {
    distance := 0;
    var n := |state|;
    for i := 0 to n
      invariant distance == BoardSum(Manhattan, state, i)
    {
      for j := 0 to n
        invariant distance == BoardSum(Manhattan, state, i) + RowSum(Manhattan, state, i, j)
      {
        var value := state[i][j];
        if value != 0 {
          var goalI, goalJ := (value - 1) / n, (value - 1) % n;
          distance := distance + Abs(goalI - i) + Abs(goalJ - j);
        }
      }
    }
  }

  /** hamming_distance: count the tiles that differ from the goal board of
      the same size. */
  method HammingDistance(state: Board) returns (distance: int)
    requires IsSquare(state)
    ensures distance == Cost(Hamming, state)
  {
    distance := 0;
    var goal := Goal(|state|);
    for i := 0 to |state|
      invariant distance == BoardSum(Hamming, state, i)
    {
      for j := 0 to |state[i]|
        invariant distance == BoardSum(Hamming, state, i) + RowSum(Hamming, state, i, j)
      {
        var value := state[i][j];
        if value != 0 && value != goal[i][j] {
          distance := distance + 1;
        }
      }
    }
  }

  /** The h field of a Node: the heuristic named by the caller. */
  method Evaluate(state: Board, name: string) returns (h: int)
    requires IsSquare(state)
    ensures h == Cost(Select(name), state)
  {
    if name == "hamming" {
      h := HammingDistance(state);
    } else {
      h := ManhattanDistance(state);
    }
  }

  // ---------------------------------------------------------------------
  // Facts about single terms

  /** divmod(v - 1, n) is (i, j) exactly when v is the tile i * n + j + 1. */
  lemma HomeCell(n: nat, v: int, i: nat, j: nat)
    requires n > 0 && j < n
    ensures HomeRow(n, v) == i && HomeCol(n, v) == j <==> v == i * n + j + 1
  {
    var q, r := (v - 1) / n, (v - 1) % n;
    assert v - 1 == q * n + r;
    if v == i * n + j + 1 {
      assert (q - i) * n == j - r;
      SmallMultiple(q - i, n);
    }
  }

  /** The only multiple of n strictly between -n and n is 0. */
  lemma SmallMultiple(k: int, n: int)
    requires n > 0 && -n < k * n < n
    ensures k == 0
  {
  }

  lemma ManhattanTermZero(n: nat, v: int, i: nat, j: nat)
    requires n > 0 && j < n
    ensures Term(Manhattan, n, v, i, j) == 0 <==> v == 0 || v == i * n + j + 1
  {
    HomeCell(n, v, i, j);
  }

  /** A misplaced tile is at least one step from home, unless it is the
      out-of-range tile n * n sitting in the blank's corner. */
  lemma HammingTermLe(n: nat, v: int, i: nat, j: nat)
    requires 0 <= i < n && 0 <= j < n && v < n * n
    ensures Term(Hamming, n, v, i, j) <= Term(Manhattan, n, v, i, j)
  {
    ManhattanTermZero(n, v, i, j);
    if i == n - 1 && j == n - 1 {
      assert i * n + j + 1 == n * n;
    }
  }

  // ---------------------------------------------------------------------
  // Facts about the sum

  lemma {:induction false} RowSumZero(h: Heuristic, b: Board, i: nat, j: nat)
    requires IsSquare(b) && i < |b| && j <= |b|
    ensures RowSum(h, b, i, j) == 0 <==> forall c :: 0 <= c < j ==> Term(h, |b|, b[i][c], i, c) == 0
  {
    if j > 0 {
      RowSumZero(h, b, i, j - 1);
    }
  }

  lemma {:induction false} BoardSumZero(h: Heuristic, b: Board, k: nat)
    requires IsSquare(b) && k <= |b|
    ensures BoardSum(h, b, k) == 0 <==>
      forall i, j :: 0 <= i < k && 0 <= j < |b| ==> Term(h, |b|, b[i][j], i, j) == 0
  {
    if k > 0 {
      BoardSumZero(h, b, k - 1);
      RowSumZero(h, b, k - 1, |b|);
    }
  }

  /** A board costs 0 exactly when every one of its terms is 0. */
  lemma CostZero(h: Heuristic, b: Board)
    requires IsSquare(b)
    ensures Cost(h, b) == 0 <==> forall i, j :: InGrid(b, i, j) ==> Term(h, |b|, b[i][j], i, j) == 0
  {
    BoardSumZero(h, b, |b|);
  }

  lemma {:induction false} RowSumLe(b: Board, i: nat, j: nat)
    requires IsSquare(b) && TilesInRange(b) && i < |b| && j <= |b|
    ensures RowSum(Hamming, b, i, j) <= RowSum(Manhattan, b, i, j)
  {
    if j > 0 {
      RowSumLe(b, i, j - 1);
      HammingTermLe(|b|, b[i][j - 1], i, j - 1);
    }
  }

  lemma {:induction false} BoardSumLe(b: Board, k: nat)
    requires IsSquare(b) && TilesInRange(b) && k <= |b|
    ensures BoardSum(Hamming, b, k) <= BoardSum(Manhattan, b, k)
  {
    if k > 0 {
      BoardSumLe(b, k - 1);
      RowSumLe(b, k - 1, |b|);
    }
  }

  /** Hamming never exceeds Manhattan on a board whose tiles are in
      0..n*n-1: every misplaced tile is at least one step from home. */
  lemma HammingLeManhattan(b: Board)
    requires IsSquare(b) && TilesInRange(b)
    ensures Cost(Hamming, b) <= Cost(Manhattan, b)
  {
    BoardSumLe(b, |b|);
  }

  /** Hamming counts at most one per cell, and nothing for a cell of row i
      before column j holding the blank. */
  lemma {:induction false} HammingRowBound(b: Board, i: nat, j: nat, c: nat)
    requires IsSquare(b) && i < |b| && j <= |b|
    ensures RowSum(Hamming, b, i, j) <= j
    ensures c < j && b[i][c] == 0 ==> RowSum(Hamming, b, i, j) <= j - 1
  {
    if j > 0 {
      HammingRowBound(b, i, j - 1, c);
    }
  }

  lemma {:induction false} HammingBoardBound(b: Board, k: nat, p: Pos)
    requires IsSquare(b) && k <= |b| && Holds(b, p) && b[p.row][p.col] == 0
    ensures BoardSum(Hamming, b, k) <= k * |b|
    ensures p.row < k ==> BoardSum(Hamming, b, k) <= k * |b| - 1
  {
    if k > 0 {
      HammingBoardBound(b, k - 1, p);
      HammingRowBound(b, k - 1, |b|, p.col);
      assert (k - 1) * |b| + |b| == k * |b|;
    }
  }

  /** A board with a blank has at most n * n - 1 misplaced tiles. */
  lemma HammingBound(b: Board)
    requires IsSquare(b) && FirstBlank(b).Some?
    ensures Cost(Hamming, b) <= |b| * |b| - 1
  {
    FirstBlankSpec(b);
    HammingBoardBound(b, |b|, FirstBlank(b).value);
  }

  // ---------------------------------------------------------------------
  // When a heuristic is zero

  /** hamming_distance is 0 exactly when every tile is where the goal board
      has it. */
  lemma HammingZeroIff(b: Board)
    requires IsSquare(b)
    ensures Cost(Hamming, b) == 0 <==>
      forall i, j :: InGrid(b, i, j) && b[i][j] != 0 ==> b[i][j] == GoalTile(|b|, i, j)
  {
    CostZero(Hamming, b);
  }

  /** manhattan_distance is 0 exactly when every tile v sits at
      divmod(v - 1, n). */
  lemma ManhattanZeroIff(b: Board)
    requires IsSquare(b)
    ensures Cost(Manhattan, b) == 0 <==>
      forall i, j :: InGrid(b, i, j) && b[i][j] != 0 ==> b[i][j] == i * |b| + j + 1
  {
    CostZero(Manhattan, b);
    forall i, j | InGrid(b, i, j)
      ensures Term(Manhattan, |b|, b[i][j], i, j) == 0 <==> b[i][j] == 0 || b[i][j] == i * |b| + j + 1
    {
      ManhattanTermZero(|b|, b[i][j], i, j);
    }
  }

  /** On the goal board, a term is 0 for every cell. */
  lemma GoalTermsZero(h: Heuristic, n: nat, i: nat, j: nat)
    requires i < n && j < n
    ensures Term(h, n, GoalTile(n, i, j), i, j) == 0
  {
    ManhattanTermZero(n, GoalTile(n, i, j), i, j);
  }

  /** On a well-formed board either heuristic is 0 exactly at the goal. */
  lemma SolvedIff(h: Heuristic, b: Board)
    requires IsBoard(b)
    ensures Cost(h, b) == 0 <==> b == Goal(|b|)
  {
    var n := |b|;
    CostZero(h, b);
    if b == Goal(n) {
      forall i, j | InGrid(b, i, j)
        ensures Term(h, n, b[i][j], i, j) == 0
      {
        GoalTermsZero(h, n, i, j);
      }
    }
    if Cost(h, b) == 0 {
      FirstBlankSpec(b);
      var z := FirstBlank(b).value;
      assert b[n - 1][n - 1] == 0 by {
        var v := b[n - 1][n - 1];
        ManhattanTermZero(n, v, n - 1, n - 1);
        assert Term(h, n, v, n - 1, n - 1) == 0;
        assert (n - 1) * n + (n - 1) + 1 == n * n;
      }
      forall i, j | InGrid(b, i, j)
        ensures b[i][j] == GoalTile(n, i, j)
      {
        ManhattanTermZero(n, b[i][j], i, j);
        GoalTileRange(n, i, j);
        assert Term(h, n, b[i][j], i, j) == 0;
      }
      GoalInCells(b);
    }
  }

  /** A square board agreeing with the goal tile in every cell is the goal. */
  lemma GoalInCells(b: Board)
    requires IsSquare(b)
    requires forall i, j :: InGrid(b, i, j) ==> b[i][j] == GoalTile(|b|, i, j)
    ensures b == Goal(|b|)
  {
    var g := Goal(|b|);
    forall i | 0 <= i < |b|
      ensures b[i] == g[i]
    {
      assert forall j :: 0 <= j < |b| ==> b[i][j] == g[i][j] by {
        forall j | 0 <= j < |b|
          ensures b[i][j] == g[i][j]
        {
          assert InGrid(b, i, j);
        }
      }
    }
  }

  /** Both heuristics are 0 on the goal board. */
  lemma GoalCost(h: Heuristic, n: nat)
    ensures Cost(h, Goal(n)) == 0
  {
    if n > 0 {
      GoalIsBoard(n);
      SolvedIff(h, Goal(n));
    }
  }
}
