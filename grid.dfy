/**
  Board primitives of the sliding-tile puzzle: the grid itself, the row-major
  search for the blank, the swap of two cells, the standard goal board and the
  multiset of tiles a board holds.
*/
module Grid {
  import opened Common

  /** A board is a list of rows of tile values; 0 is the blank. */
  type Board = seq<seq<int>>

  /** A cell, as (row, column). */
  datatype Pos = Pos(row: nat, col: nat)

  /** Every row is as long as the board has rows (an N x N grid). */
  predicate IsSquare(b: Board) {
    forall i :: 0 <= i < |b| ==> |b[i]| == |b|
  }

  predicate InGrid(b: Board, i: int, j: int) {
    0 <= i < |b| && 0 <= j < |b[i]|
  }

  predicate Holds(b: Board, p: Pos) {
    InGrid(b, p.row, p.col)
  }

  /** Cell (i, j) comes before cell p in row-major order. */
  predicate Earlier(i: int, j: int, p: Pos) {
    i < p.row || (i == p.row && j < p.col)
  }

  ghost predicate NoBlank(b: Board) {
    forall i, j :: InGrid(b, i, j) ==> b[i][j] != 0
  }

  /** p holds a 0 and every cell before it in row-major order does not. */
  ghost predicate IsFirstBlank(b: Board, p: Pos) {
    Holds(b, p) && b[p.row][p.col] == 0 &&
    forall i, j :: InGrid(b, i, j) && Earlier(i, j, p) ==> b[i][j] != 0
  }

  // ---------------------------------------------------------------------
  // The first blank, as a recursive scan (the reference for FindBlank)

  function FirstZeroIn(row: seq<int>, j: nat): (r: Option<nat>)
    decreases |row| - j
  {
    if j >= |row| then None
    else if row[j] == 0 then Some(j)
    else FirstZeroIn(row, j + 1)
  }

  function FirstBlankFrom(b: Board, i: nat): (r: Option<Pos>)
    decreases |b| - i
  {
    if i >= |b| then None
    else match FirstZeroIn(b[i], 0)
      case Some(j) => Some(Pos(i, j))
      case None => FirstBlankFrom(b, i + 1)
  }

  function FirstBlank(b: Board): (r: Option<Pos>) {
    FirstBlankFrom(b, 0)
  }

  lemma {:induction false} FirstZeroInSpec(row: seq<int>, j: nat)
    ensures FirstZeroIn(row, j).None? ==> forall c :: j <= c < |row| ==> row[c] != 0
    ensures FirstZeroIn(row, j).Some? ==>
      var c := FirstZeroIn(row, j).value;
      j <= c < |row| && row[c] == 0 && forall c' :: j <= c' < c ==> row[c'] != 0
    decreases |row| - j
  {
    if j < |row| && row[j] != 0 {
      FirstZeroInSpec(row, j + 1);
    }
  }

  lemma {:induction false} FirstBlankFromSpec(b: Board, i: nat)
    ensures FirstBlankFrom(b, i).None? ==>
      forall r, c :: InGrid(b, r, c) && i <= r ==> b[r][c] != 0
    ensures FirstBlankFrom(b, i).Some? ==>
      var p := FirstBlankFrom(b, i).value;
      i <= p.row && Holds(b, p) && b[p.row][p.col] == 0 &&
      forall r, c :: InGrid(b, r, c) && i <= r && Earlier(r, c, p) ==> b[r][c] != 0
    decreases |b| - i
  {
    if i < |b| {
      FirstZeroInSpec(b[i], 0);
      if FirstZeroIn(b[i], 0).None? {
        FirstBlankFromSpec(b, i + 1);
      }
    }
  }

  /** The first blank is None exactly when there is no 0, and otherwise the
      first 0 in row-major order. */
  lemma FirstBlankSpec(b: Board)
    ensures FirstBlank(b).None? <==> NoBlank(b)
    ensures FirstBlank(b).Some? ==> IsFirstBlank(b, FirstBlank(b).value)
  {
    FirstBlankFromSpec(b, 0);
  }

  /** At most one cell is the first blank. */
  lemma FirstBlankUnique(b: Board, p: Pos, q: Pos)
    requires IsFirstBlank(b, p) && IsFirstBlank(b, q)
    ensures p == q
  {
  }

  /** find_blank: scan rows, then columns, and stop at the first 0. */
  method FindBlank(state: Board) returns (r: Option<Pos>)
    ensures r.None? <==> NoBlank(state)
    ensures r.Some? ==> IsFirstBlank(state, r.value)
    ensures r == FirstBlank(state)
  {
    FirstBlankSpec(state);
    for i := 0 to |state|
      invariant forall r, c :: InGrid(state, r, c) && r < i ==> state[r][c] != 0
    {
      for j := 0 to |state[i]|
        invariant forall c :: 0 <= c < j ==> state[i][c] != 0
      {
        if state[i][j] == 0 {
          var p := Pos(i, j);
          assert IsFirstBlank(state, p);
          if FirstBlank(state).Some? {
            FirstBlankUnique(state, p, FirstBlank(state).value);
          }
          return Some(p);
        }
      }
    }
    return None;
  }

  // ---------------------------------------------------------------------
  // Swapping two cells

  /** The board with the contents of cells p and q exchanged. As in the
      source's tuple assignment, p is written first and q second. */
  function Swap(b: Board, p: Pos, q: Pos): (r: Board)
    requires Holds(b, p) && Holds(b, q)
    ensures |r| == |b|
    ensures forall i :: 0 <= i < |b| ==> |r[i]| == |b[i]|
  {
    var atP := b[p.row][p.col];
    var atQ := b[q.row][q.col];
    var once := b[p.row := b[p.row][p.col := atQ]];
    once[q.row := once[q.row][q.col := atP]]
  }

  /** Cell by cell, a swap moves p's tile to q and q's tile to p and leaves
      every other cell alone. */
  lemma SwapAt(b: Board, p: Pos, q: Pos)
    requires Holds(b, p) && Holds(b, q)
    ensures forall i, j :: InGrid(b, i, j) ==>
      Swap(b, p, q)[i][j] == (if i == q.row && j == q.col then b[p.row][p.col]
                              else if i == p.row && j == p.col then b[q.row][q.col]
                              else b[i][j])
  {
  }

  /** Swapping back undoes a swap. */
  lemma SwapTwice(b: Board, p: Pos, q: Pos)
    requires Holds(b, p) && Holds(b, q)
    ensures Swap(Swap(b, p, q), q, p) == b
  {
    var r := Swap(Swap(b, p, q), q, p);
    SwapAt(b, p, q);
    SwapAt(Swap(b, p, q), q, p);
    forall i | 0 <= i < |b|
      ensures r[i] == b[i]
    {
      assert forall j :: 0 <= j < |b[i]| ==> r[i][j] == b[i][j];
    }
  }

  // ---------------------------------------------------------------------
  // Well-formed boards and the goal

  ghost predicate TilesInRange(b: Board) {
    forall i, j :: InGrid(b, i, j) ==> 0 <= b[i][j] < |b| * |b|
  }

  /** There is a 0 and it is the only one. */
  ghost predicate UniqueBlank(b: Board) {
    FirstBlank(b).Some? &&
    forall i, j :: InGrid(b, i, j) && b[i][j] == 0 ==>
      i == FirstBlank(b).value.row && j == FirstBlank(b).value.col
  }

  /** An N x N board with tiles in 0..N*N-1 and a single blank. */
  ghost predicate IsBoard(b: Board) {
    IsSquare(b) && TilesInRange(b) && UniqueBlank(b)
  }

  /** The goal tile of cell (i, j): 1, 2, ..., N*N-1 in row-major order and
      the blank in the bottom-right corner. */
  function GoalTile(n: nat, i: nat, j: nat): (r: int) {
    if i == n - 1 && j == n - 1 then 0 else i * n + j + 1
  }

  function Goal(n: nat): (g: Board)
    ensures |g| == n && IsSquare(g)
    ensures forall i, j :: 0 <= i < n && 0 <= j < n ==> g[i][j] == GoalTile(n, i, j)
  {
    seq(n, i requires 0 <= i < n => seq(n, j requires 0 <= j < n => GoalTile(n, i, j)))
  }

  /** The two goal boards the game starts from. */
  lemma GoalConstants()
    ensures Goal(3) == [[1, 2, 3], [4, 5, 6], [7, 8, 0]]
    ensures Goal(4) == [[1, 2, 3, 4], [5, 6, 7, 8], [9, 10, 11, 12], [13, 14, 15, 0]]
  {
    var g3, g4 := Goal(3), Goal(4);
    assert g3[0] == [1, 2, 3] && g3[1] == [4, 5, 6] && g3[2] == [7, 8, 0];
    assert g4[0] == [1, 2, 3, 4] && g4[1] == [5, 6, 7, 8];
    assert g4[2] == [9, 10, 11, 12] && g4[3] == [13, 14, 15, 0];
  }

  /** Goal tiles lie in 0..n*n-1 and only the corner holds the blank. */
  lemma GoalTileRange(n: nat, i: nat, j: nat)
    requires i < n && j < n
    ensures 0 <= GoalTile(n, i, j) < n * n
    ensures GoalTile(n, i, j) == 0 <==> i == n - 1 && j == n - 1
  {
    if i < n - 1 {
      assert (i + 1) * n <= (n - 1) * n;
    } else if j < n - 1 {
      assert (n - 1) * n + j + 1 < n * n;
    }
  }

  /** The goal is a well-formed board with its blank in the last cell. */
  lemma GoalIsBoard(n: nat)
    requires n >= 1
    ensures IsBoard(Goal(n))
    ensures FirstBlank(Goal(n)) == Some(Pos(n - 1, n - 1))
  {
    var g := Goal(n);
    forall i, j | InGrid(g, i, j)
      ensures 0 <= g[i][j] < n * n
      ensures g[i][j] == 0 <==> i == n - 1 && j == n - 1
    {
      GoalTileRange(n, i, j);
    }
    var corner := Pos(n - 1, n - 1);
    assert IsFirstBlank(g, corner);
    FirstBlankSpec(g);
    FirstBlankUnique(g, corner, FirstBlank(g).value);
  }

  // ---------------------------------------------------------------------
  // The tiles of a board, as a multiset

  function Cells(b: Board): (r: multiset<int>) {
    if b == [] then multiset{} else Cells(b[..|b| - 1]) + multiset(b[|b| - 1])
  }

  lemma Cancel(a: multiset<int>, b: multiset<int>, m: multiset<int>)
    requires a + m == b + m
    ensures a == b
  {
    assert forall x :: a[x] == (a + m)[x] - m[x] && b[x] == (b + m)[x] - m[x];
  }

  /** Replacing one row replaces its tiles in the board's multiset. */
  lemma {:induction false} CellsUpdate(b: Board, i: nat, row: seq<int>)
    requires i < |b|
    ensures Cells(b[i := row]) + multiset(b[i]) == Cells(b) + multiset(row)
    decreases |b|
  {
    var u := b[i := row];
    var k := |b| - 1;
    assert Cells(u) == Cells(u[..k]) + multiset(u[k]);
    assert Cells(b) == Cells(b[..k]) + multiset(b[k]);
    if i == k {
      assert u[..k] == b[..k];
    } else {
      assert u[..k] == b[..k][i := row];
      assert b[..k][i] == b[i];
      CellsUpdate(b[..k], i, row);
      calc {
        Cells(u) + multiset(b[i]);
        Cells(b[..k][i := row]) + multiset(b[..k][i]) + multiset(b[k]);
        Cells(b[..k]) + multiset(row) + multiset(b[k]);
        Cells(b) + multiset(row);
      }
    }
  }

  lemma RowUpdate(row: seq<int>, c: nat, v: int)
    requires c < |row|
    ensures multiset(row[c := v]) + multiset{row[c]} == multiset(row) + multiset{v}
  {
    assert row == row[..c] + [row[c]] + row[c + 1..];
    assert row[c := v] == row[..c] + [v] + row[c + 1..];
  }

  /** Writing v into cell p changes the board's multiset by that one tile. */
  lemma CellWrite(b: Board, p: Pos, v: int)
    requires Holds(b, p)
    ensures Cells(b[p.row := b[p.row][p.col := v]]) + multiset{b[p.row][p.col]} == Cells(b) + multiset{v}
  {
    var was := b[p.row];
    var row := was[p.col := v];
    var u := b[p.row := row];
    var x := was[p.col];
    RowUpdate(was, p.col, v);
    CellsUpdate(b, p.row, row);
    calc {
      Cells(u) + multiset{x} + multiset(was);
      Cells(b) + multiset(row) + multiset{x};
      Cells(b) + multiset{v} + multiset(was);
    }
    Cancel(Cells(u) + multiset{x}, Cells(b) + multiset{v}, multiset(was));
  }

  /** A swap permutes the tiles: the board holds the same multiset. */
  lemma SwapCells(b: Board, p: Pos, q: Pos)
    requires Holds(b, p) && Holds(b, q)
    ensures Cells(Swap(b, p, q)) == Cells(b)
  {
    var atP := b[p.row][p.col];
    var atQ := b[q.row][q.col];
    var once := b[p.row := b[p.row][p.col := atQ]];
    CellWrite(b, p, atQ);
    assert once[q.row][q.col] == atQ;
    CellWrite(once, q, atP);
    assert Swap(b, p, q) == once[q.row := once[q.row][q.col := atP]];
    Cancel(Cells(Swap(b, p, q)), Cells(b), multiset{atQ});
  }
}
