/**
  shuffle_puzzle and its two multiplayer copies: one hundred times, replace
  the board by a neighbour that random.choice picks. The random source is an
  oracle: pick k selects neighbour k mod (number of neighbours).
*/
module Shuffle {
  import opened Common
  import opened Grid
  import opened Moves

  /** The number of random moves a shuffle makes. */
  const ShuffleMoves: nat := 100

  /** The boards a shuffle driven by picks passes through, starting at b:
      pick k moves to neighbour k mod the number of neighbours (a board with
      no move ends the trail). */
  function Trail(b: Board, picks: seq<nat>): (w: seq<Board>)
    ensures |w| >= 1 && w[0] == b
    decreases |picks|
  {
    if picks == [] || !Playable(b) || |Neighbors(b)| == 0 then [b]
    else [b] + Trail(Neighbors(b)[picks[0] % |Neighbors(b)|], picks[1..])
  }

  /** shuffle_puzzle on one board: the board at the end of the trail. */
  method ShufflePuzzle(board: Board, picks: seq<nat>) returns (r: Board)
    requires Playable(board) && |board| >= 2 && |picks| == ShuffleMoves
    ensures r == Last(Trail(board, picks))
  {
    r := board;
    ghost var end := Last(Trail(board, picks));
    assert picks[0..] == picks;
    for t := 0 to ShuffleMoves
      invariant Playable(r) && |r| == |board|
      invariant end == Last(Trail(r, picks[t..]))
    {
      var neighbors := GenerateNeighbors(r);
      ShuffleStep(picks, r, t);
      r := neighbors[picks[t] % |neighbors|];
    }
    assert picks[ShuffleMoves..] == [];
  }

  /** One pick further along, the trail ends at the same board. */
  lemma TrailStep(b: Board, picks: seq<nat>)
    requires Playable(b) && |b| >= 2 && picks != []
    ensures var ns := Neighbors(b);
      && |ns| > 0
      && var nb := ns[picks[0] % |ns|];
      && Playable(nb) && |nb| == |b|
      && Last(Trail(b, picks)) == Last(Trail(nb, picks[1..]))
  {
    NeighborsCount(b);
    var ns := Neighbors(b);
    var nb := ns[picks[0] % |ns|];
    NeighborKeepsBoard(b, nb);
    var rest := Trail(nb, picks[1..]);
    assert Trail(b, picks) == [b] + rest;
    LastCons(b, rest);
  }

  /** The loop step of shuffle_puzzle keeps the end of the trail fixed. */
  lemma ShuffleStep(picks: seq<nat>, r: Board, t: nat)
    requires Playable(r) && |r| >= 2 && t < |picks|
    ensures var ns := Neighbors(r);
      && |ns| > 0
      && var nb := ns[picks[t] % |ns|];
      && Playable(nb) && |nb| == |r|
      && Last(Trail(r, picks[t..])) == Last(Trail(nb, picks[t + 1..]))
  {
    TrailStep(r, picks[t..]);
    assert picks[t..][0] == picks[t] && picks[t..][1..] == picks[t + 1..];
  }

  lemma LastCons(b: Board, s: seq<Board>)
    requires |s| > 0
    ensures Last([b] + s) == Last(s)
  {
  }

  /** A trail is a walk of legal moves from b, one board per pick plus b. */
  lemma {:induction false} TrailIsWalk(b: Board, picks: seq<nat>)
    requires Playable(b) && |b| >= 2
    ensures IsWalk(Trail(b, picks)) && Trail(b, picks)[0] == b
    ensures |Trail(b, picks)| == |picks| + 1
    decreases |picks|
  {
    if picks != [] {
      NeighborsCount(b);
      var nb := Neighbors(b)[picks[0] % |Neighbors(b)|];
      NeighborKeepsBoard(b, nb);
      TrailIsWalk(nb, picks[1..]);
      var w, rest := Trail(b, picks), Trail(nb, picks[1..]);
      assert w == [b] + rest;
      forall i | 0 <= i < |w| - 1
        ensures Playable(w[i]) && w[i + 1] in Neighbors(w[i])
      {
        if i > 0 {
          assert w[i] == rest[i - 1] && w[i + 1] == rest[i];
        }
      }
    }
  }

  /** Any walk from b is the trail of some picks: the oracle can make the
      shuffle take every sequence of legal moves. */
  lemma {:induction false} WalkIsTrail(w: seq<Board>) returns (picks: seq<nat>)
    requires IsWalk(w) && Playable(w[0]) && |w[0]| >= 2
    ensures Trail(w[0], picks) == w
    decreases |w|
  {
    if |w| == 1 {
      picks := [];
    } else {
      var k := WalkHead(w);
      var rest := WalkIsTrail(w[1..]);
      picks := [k] + rest;
      WalkCons(w, k, rest);
    }
  }

  /** The first move of a walk is some neighbour k of its first board, and
      the rest of the walk is a walk from a playable board of the same size. */
  lemma WalkHead(w: seq<Board>) returns (k: nat)
    requires IsWalk(w) && |w| >= 2 && Playable(w[0]) && |w[0]| >= 2
    ensures k < |Neighbors(w[0])| && Neighbors(w[0])[k] == w[1]
    ensures IsWalk(w[1..]) && Playable(w[1..][0]) && |w[1..][0]| >= 2
  {
    assert w[1] in Neighbors(w[0]);
    k := NeighborIndex(w[0], w[1]);
    NeighborKeepsBoard(w[0], w[1]);
    WalkTail(w);
    assert w[1..][0] == w[1];
  }

  lemma NeighborIndex(b: Board, nb: Board) returns (k: nat)
    requires Playable(b) && nb in Neighbors(b)
    ensures k < |Neighbors(b)| && Neighbors(b)[k] == nb
  {
    var ns := Neighbors(b);
    k :| 0 <= k < |ns| && ns[k] == nb;
  }

  lemma WalkTail(w: seq<Board>)
    requires IsWalk(w) && |w| >= 2
    ensures IsWalk(w[1..])
  {
    var tail := w[1..];
    forall i | 0 <= i < |tail| - 1
      ensures Playable(tail[i]) && tail[i + 1] in Neighbors(tail[i])
    {
      assert tail[i] == w[i + 1] && tail[i + 1] == w[i + 2];
    }
  }

  /** Prepending the first move's index to the picks of the rest of a walk
      gives picks for the whole walk. */
  lemma WalkCons(w: seq<Board>, k: nat, rest: seq<nat>)
    requires |w| >= 2 && Playable(w[0])
    requires k < |Neighbors(w[0])| && Neighbors(w[0])[k] == w[1]
    requires Trail(w[1..][0], rest) == w[1..]
    ensures Trail(w[0], [k] + rest) == w
  {
    var tail := w[1..];
    assert tail[0] == w[1];
    TrailCons(w[0], k, rest);
    assert w == [w[0]] + tail;
  }

  /** A first pick below the neighbour count selects that neighbour. */
  lemma TrailCons(b: Board, k: nat, rest: seq<nat>)
    requires Playable(b) && k < |Neighbors(b)|
    ensures Trail(b, [k] + rest) == [b] + Trail(Neighbors(b)[k], rest)
  {
    var picks := [k] + rest;
    assert picks[0] == k && picks[1..] == rest;
    assert k % |Neighbors(b)| == k;
  }

  /** A shuffle keeps a well-formed board well-formed, keeps its tiles, and
      the starting board stays reachable from the result. */
  lemma ShuffleKeepsBoard(b: Board, picks: seq<nat>)
    requires IsBoard(b) && |b| >= 2
    ensures var r := Last(Trail(b, picks));
      IsBoard(r) && |r| == |b| && Cells(r) == Cells(b) && Reachable(r, b)
  {
    TrailIsWalk(b, picks);
    var w := Trail(b, picks);
    WalkKeepsBoard(w, |w| - 1);
    ReverseWalk(w);
    assert Reverse(w)[0] == Last(w) && Last(Reverse(w)) == b;
    assert |Last(w)| == |b| by {
      assert IsSquare(Last(w)) && Cells(Last(w)) == Cells(b);
      TrailSameSize(b, picks);
    }
  }

  lemma {:induction false} TrailSameSize(b: Board, picks: seq<nat>)
    requires Playable(b) && |b| >= 2
    ensures |Last(Trail(b, picks))| == |b|
    decreases |picks|
  {
    if picks != [] {
      TrailStep(b, picks);
      TrailSameSize(Neighbors(b)[picks[0] % |Neighbors(b)|], picks[1..]);
    }
  }
}
