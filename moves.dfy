/**
  Legal moves: the successors of a board obtained by sliding a tile into the
  blank, as generate_neighbors lists them, and walks made of such moves.
*/
module Moves {
  import opened Common
  import opened Grid

  /** The four offsets tried, in order: up, down, left, right. */
  const Offsets: seq<(int, int)> := [(-1, 0), (1, 0), (0, -1), (0, 1)]

  /** A square board with at least one blank: the boards a move starts from. */
  predicate Playable(b: Board) {
    IsSquare(b) && FirstBlank(b).Some?
  }

  /** The blank that moves: the first 0 in row-major order. */
  function Blank(b: Board): (r: Pos)
    requires Playable(b)
  {
    FirstBlank(b).value
  }

  lemma BlankHolds(b: Board)
    requires Playable(b)
    ensures Holds(b, Blank(b)) && b[Blank(b).row][Blank(b).col] == 0
  {
    FirstBlankSpec(b);
  }

  /** Offset d from p stays inside the grid. */
  predicate Legal(b: Board, p: Pos, d: (int, int))
    requires |b| > 0
  {
    0 <= p.row + d.0 < |b| && 0 <= p.col + d.1 < |b[0]|
  }

  function Target(p: Pos, d: (int, int)): (r: Pos)
    requires p.row + d.0 >= 0 && p.col + d.1 >= 0
  {
    Pos(p.row + d.0, p.col + d.1)
  }

  /** The board after exchanging cell p with its neighbour at offset d. */
  function Slide(b: Board, p: Pos, d: (int, int)): (r: Board)
    requires IsSquare(b) && Holds(b, p) && Legal(b, p, d)
  {
    Swap(b, p, Target(p, d))
  }

  /** The successors produced by the first k offsets, in offset order. */
  function Candidates(b: Board, p: Pos, k: nat): (r: seq<Board>)
    requires IsSquare(b) && Holds(b, p) && k <= |Offsets|
  {
    if k == 0 then []
    else Candidates(b, p, k - 1) +
         (if Legal(b, p, Offsets[k - 1]) then [Slide(b, p, Offsets[k - 1])] else [])
  }

  /** The successors of a board: one per in-grid offset of the blank. */
  function Neighbors(b: Board): (r: seq<Board>)
    requires Playable(b)
  {
    BlankHolds(b);
    Candidates(b, Blank(b), |Offsets|)
  }

  /** generate_neighbors: locate the blank, then try each offset in turn and
      keep a swapped copy for every one that stays inside the grid. */
  method GenerateNeighbors(state: Board) returns (neighbors: seq<Board>)
    requires Playable(state)
    ensures neighbors == Neighbors(state)
  {
    neighbors := [];
    var blank := FindBlank(state);
    BlankHolds(state);
    var p := blank.value;
    for k := 0 to |Offsets|
      invariant neighbors == Candidates(state, p, k)
    {
      var d := Offsets[k];
      if Legal(state, p, d) {
        var newState := Swap(state, p, Target(p, d));
        neighbors := neighbors + [newState];
      }
    }
  }

  // ---------------------------------------------------------------------
  // What the successors are

  lemma {:induction false} CandidatesLength(b: Board, p: Pos, k: nat)
    requires IsSquare(b) && Holds(b, p) && k <= |Offsets|
    ensures |Candidates(b, p, k)| <= k
  {
    if k > 0 {
      CandidatesLength(b, p, k - 1);
    }
  }

  lemma {:induction false} CandidateOffset(b: Board, p: Pos, k: nat, nb: Board) returns (d: nat)
    requires IsSquare(b) && Holds(b, p) && k <= |Offsets|
    requires nb in Candidates(b, p, k)
    ensures d < k && Legal(b, p, Offsets[d]) && nb == Slide(b, p, Offsets[d])
  {
    if nb in Candidates(b, p, k - 1) {
      d := CandidateOffset(b, p, k - 1, nb);
    } else {
      d := k - 1;
    }
  }

  lemma {:induction false} OffsetCandidate(b: Board, p: Pos, k: nat, d: nat)
    requires IsSquare(b) && Holds(b, p) && d < k <= |Offsets|
    requires Legal(b, p, Offsets[d])
    ensures Slide(b, p, Offsets[d]) in Candidates(b, p, k)
  {
    if d < k - 1 {
      OffsetCandidate(b, p, k - 1, d);
    }
  }

  /** Every successor is the board with the blank exchanged with one in-grid
      orthogonal neighbour at one of the four offsets. */
  lemma NeighborOffset(b: Board, nb: Board) returns (d: nat)
    requires Playable(b) && nb in Neighbors(b)
    ensures Holds(b, Blank(b)) && d < 4
    ensures Legal(b, Blank(b), Offsets[d]) && nb == Slide(b, Blank(b), Offsets[d])
  {
    BlankHolds(b);
    d := CandidateOffset(b, Blank(b), 4, nb);
  }

  /** Every exchange of the blank with an in-grid orthogonal neighbour is a
      successor, and there are at most four successors. */
  lemma OffsetNeighbor(b: Board, d: nat)
    requires Playable(b) && d < 4
    ensures Holds(b, Blank(b))
    ensures Legal(b, Blank(b), Offsets[d]) ==> Slide(b, Blank(b), Offsets[d]) in Neighbors(b)
    ensures |Neighbors(b)| <= 4
  {
    BlankHolds(b);
    CandidatesLength(b, Blank(b), 4);
    if Legal(b, Blank(b), Offsets[d]) {
      OffsetCandidate(b, Blank(b), 4, d);
    }
  }

  lemma CandidatesGrow(b: Board, p: Pos, k: nat)
    requires IsSquare(b) && Holds(b, p) && k < |Offsets|
    ensures |Candidates(b, p, k + 1)| == |Candidates(b, p, k)| + if Legal(b, p, Offsets[k]) then 1 else 0
  {
  }

  /** On a board of side 2 or more the blank always has two to four moves:
      one of up/down and one of left/right stays inside the grid. */
  lemma NeighborsCount(b: Board)
    requires Playable(b) && |b| >= 2
    ensures 2 <= |Neighbors(b)| <= 4
  {
    BlankHolds(b);
    var p := Blank(b);
    CandidatesLength(b, p, 4);
    CandidatesGrow(b, p, 0);
    CandidatesGrow(b, p, 1);
    CandidatesGrow(b, p, 2);
    CandidatesGrow(b, p, 3);
    assert |b[0]| == |b|;
    if p.row > 0 {
      assert Legal(b, p, Offsets[0]);
    } else {
      assert Legal(b, p, Offsets[1]);
    }
    if p.col > 0 {
      assert Legal(b, p, Offsets[2]);
    } else {
      assert Legal(b, p, Offsets[3]);
    }
  }

  /** Exchanging the only blank with another cell keeps a well-formed board
      and moves the blank to that cell. */
  lemma SwapBlank(b: Board, p: Pos, q: Pos)
    requires IsBoard(b) && Holds(b, p) && Holds(b, q) && p != q
    requires b[p.row][p.col] == 0
    ensures IsBoard(Swap(b, p, q)) && FirstBlank(Swap(b, p, q)) == Some(q)
  {
    var nb := Swap(b, p, q);
    SwapAt(b, p, q);
    FirstBlankSpec(b);
    assert FirstBlank(b) == Some(p);
    assert b[q.row][q.col] != 0;
    assert IsSquare(nb);
    assert TilesInRange(nb) by {
      forall i, j | InGrid(nb, i, j)
        ensures 0 <= nb[i][j] < |nb| * |nb|
      {
        assert InGrid(b, i, j);
      }
    }
    assert IsFirstBlank(nb, q) by {
      forall i, j | InGrid(nb, i, j) && Earlier(i, j, q)
        ensures nb[i][j] != 0
      {
        assert InGrid(b, i, j);
      }
    }
    FirstBlankSpec(nb);
    FirstBlankUnique(nb, q, FirstBlank(nb).value);
    forall i, j | InGrid(nb, i, j) && nb[i][j] == 0
      ensures i == q.row && j == q.col
    {
      assert InGrid(b, i, j);
    }
  }

  /** A successor is the exchange of the blank with an in-grid neighbour. */
  lemma NeighborIsSlide(b: Board, nb: Board) returns (q: Pos)
    requires Playable(b) && nb in Neighbors(b)
    ensures Holds(b, Blank(b)) && Holds(b, q) && q != Blank(b)
    ensures Abs(q.row - Blank(b).row) + Abs(q.col - Blank(b).col) == 1
    ensures nb == Swap(b, Blank(b), q)
  {
    var d := NeighborOffset(b, nb);
    q := Target(Blank(b), Offsets[d]);
  }

  /** A move permutes the tiles and, on a well-formed board, yields a
      well-formed board whose blank is the cell the tile came from. */
  lemma NeighborKeepsBoard(b: Board, nb: Board)
    requires Playable(b) && nb in Neighbors(b)
    ensures Playable(nb) && |nb| == |b| && Cells(nb) == Cells(b)
    ensures IsBoard(b) ==> IsBoard(nb)
  {
    var q := NeighborIsSlide(b, nb);
    var p := Blank(b);
    SwapCells(b, p, q);
    SwapAt(b, p, q);
    BlankHolds(b);
    FirstBlankSpec(nb);
    assert nb[q.row][q.col] == 0;
    if IsBoard(b) {
      SwapBlank(b, p, q);
    }
  }

  /** Moves can be undone: on a well-formed board, if nb is a successor of b
      then b is a successor of nb. */
  lemma NeighborSymmetric(b: Board, nb: Board)
    requires IsBoard(b) && nb in Neighbors(b)
    ensures Playable(nb) && b in Neighbors(nb)
  {
    var q := NeighborIsSlide(b, nb);
    var p := Blank(b);
    BlankHolds(b);
    SwapBlank(b, p, q);
    assert Blank(nb) == q;
    var d: nat := if p.row < q.row then 0 else if p.row > q.row then 1
                  else if p.col < q.col then 2 else 3;
    assert Legal(nb, q, Offsets[d]) && Target(q, Offsets[d]) == p;
    SwapTwice(b, p, q);
    assert Slide(nb, q, Offsets[d]) == b;
    OffsetNeighbor(nb, d);
  }

  // ---------------------------------------------------------------------
  // Walks

  /** A non-empty sequence of boards, each a successor of the one before. */
  predicate IsWalk(w: seq<Board>) {
    |w| >= 1 &&
    forall i :: 0 <= i < |w| - 1 ==> Playable(w[i]) && w[i + 1] in Neighbors(w[i])
  }

  ghost predicate Reachable(a: Board, z: Board) {
    exists w :: IsWalk(w) && w[0] == a && Last(w) == z
  }

  /** Every board of a walk from a well-formed board is well-formed and holds
      the same tiles. */
  lemma {:induction false} WalkKeepsBoard(w: seq<Board>, i: nat)
    requires IsWalk(w) && IsBoard(w[0]) && i < |w|
    ensures IsBoard(w[i]) && Cells(w[i]) == Cells(w[0])
  {
    if i > 0 {
      WalkKeepsBoard(w, i - 1);
      NeighborKeepsBoard(w[i - 1], w[i]);
    }
  }

  /** A walk between well-formed boards can be retraced backwards. */
  lemma ReverseWalk(w: seq<Board>)
    requires IsWalk(w) && IsBoard(w[0])
    ensures IsWalk(Reverse(w)) && Reverse(w)[0] == Last(w) && Last(Reverse(w)) == w[0]
  {
    var r := Reverse(w);
    forall i | 0 <= i < |r| - 1
      ensures Playable(r[i]) && r[i + 1] in Neighbors(r[i])
    {
      var k := |w| - 2 - i;
      assert r[i] == w[k + 1] && r[i + 1] == w[k];
      WalkKeepsBoard(w, k);
      NeighborSymmetric(w[k], w[k + 1]);
    }
  }

  /** A walk extended by a successor of its last board is a walk. */
  lemma WalkExtend(w: seq<Board>, nb: Board)
    requires IsWalk(w) && Playable(Last(w)) && nb in Neighbors(Last(w))
    ensures IsWalk(w + [nb]) && (w + [nb])[0] == w[0] && Last(w + [nb]) == nb
  {
    var v := w + [nb];
    forall i | 0 <= i < |v| - 1
      ensures Playable(v[i]) && v[i + 1] in Neighbors(v[i])
    {
      if i < |w| - 1 {
        assert v[i] == w[i] && v[i + 1] == w[i + 1];
      }
    }
  }

  /** A set of boards that contains every successor of its members. */
  ghost predicate ClosedUnderMoves(s: set<Board>) {
    forall c :: c in s ==> Playable(c) && forall nb :: nb in Neighbors(c) ==> nb in s
  }

  lemma {:induction false} WalkStaysIn(s: set<Board>, w: seq<Board>, i: nat)
    requires ClosedUnderMoves(s) && IsWalk(w) && w[0] in s && i < |w|
    ensures w[i] in s
  {
    if i > 0 {
      WalkStaysIn(s, w, i - 1);
    }
  }

  /** No walk leaves a set closed under moves. */
  lemma NoEscape(s: set<Board>, a: Board, z: Board)
    requires ClosedUnderMoves(s) && a in s && z !in s
    ensures !Reachable(a, z)
  {
    forall w | IsWalk(w) && w[0] == a
      ensures Last(w) != z
    {
      WalkStaysIn(s, w, |w| - 1);
    }
  }

  /** A board one move away from a well-formed board that reaches z also
      reaches z, by first undoing the move. */
  lemma ReachableBack(b: Board, nb: Board, z: Board)
    requires IsBoard(b) && nb in Neighbors(b) && Reachable(b, z)
    ensures Reachable(nb, z)
  {
    var w :| IsWalk(w) && w[0] == b && Last(w) == z;
    NeighborSymmetric(b, nb);
    var v := [nb] + w;
    forall i | 0 <= i < |v| - 1
      ensures Playable(v[i]) && v[i + 1] in Neighbors(v[i])
    {
      if i > 0 {
        assert v[i] == w[i - 1] && v[i + 1] == w[i];
      }
    }
    assert IsWalk(v) && v[0] == nb && Last(v) == z;
  }

  /** Every board reaches itself by the one-board walk. */
  lemma ReachableRefl(a: Board)
    ensures Reachable(a, a)
  {
    assert IsWalk([a]) && [a][0] == a && Last([a]) == a;
  }

  /** Reachability composes: walk to b, then on from b. */
  lemma ReachableTrans(a: Board, b: Board, c: Board)
    requires Reachable(a, b) && Reachable(b, c)
    ensures Reachable(a, c)
  {
    var u :| IsWalk(u) && u[0] == a && Last(u) == b;
    var v :| IsWalk(v) && v[0] == b && Last(v) == c;
    var w := u + v[1..];
    forall i | 0 <= i < |w| - 1
      ensures Playable(w[i]) && w[i + 1] in Neighbors(w[i])
    {
      if i < |u| - 1 {
        assert w[i] == u[i] && w[i + 1] == u[i + 1];
      } else {
        var k := i - (|u| - 1);
        assert w[i] == v[k] && w[i + 1] == v[k + 1];
      }
    }
    assert Last(w) == c;
  }
}
