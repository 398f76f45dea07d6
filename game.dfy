/**
  The game session: the boards of player 1 and player 2, the goal, whose
  turn it is and which shuffle buttons are enabled, changed by the click,
  shuffle and solve handlers of the three game modes. Board 1 is the only
  board of the solo and AI modes.
*/
module Game {
  import opened Common
  import opened Grid
  import opened Moves
  import opened Search
  import opened Shuffle

  /** Tiles are drawn as squares of 150 pixels. */
  const TileSize: nat := 150

  /** The cell under pixel (x, y): rows go down, columns go right. */
  function ClickedCell(x: nat, y: nat): (r: Pos) {
    Pos(y / TileSize, x / TileSize)
  }

  /** What a click does to a board. */
  datatype Click =
    | Slid(board: Board)  // the clicked tile slid into the blank
    | Ignored             // the clicked cell is not next to the blank
    | OffGrid             // next to the blank but outside the grid: the
                          // handler fails on the index before changing anything

  /** The move a click at pixel (x, y) makes on b. */
  function ClickMove(b: Board, x: nat, y: nat): (r: Click)
    requires Playable(b)
  {
    BlankHolds(b);
    var p := Blank(b);
    var q := ClickedCell(x, y);
    if Abs(p.row - q.row) + Abs(p.col - q.col) != 1 then Ignored
    else if !Holds(b, q) then OffGrid
    else Slid(Swap(b, p, q))
  }

  /** A click that slides a tile produces one of the successors of
      generate_neighbors. */
  lemma ClickIsMove(b: Board, x: nat, y: nat)
    requires Playable(b)
    ensures ClickMove(b, x, y).Slid? ==> ClickMove(b, x, y).board in Neighbors(b)
  {
    var p, q := Blank(b), ClickedCell(x, y);
    if ClickMove(b, x, y).Slid? {
      BlankHolds(b);
      var d: nat :=
        if q.row + 1 == p.row then 0
        else if q.row == p.row + 1 then 1
        else if q.col + 1 == p.col then 2
        else 3;
      assert Target(p, Offsets[d]) == q;
      OffsetNeighbor(b, d);
    }
  }

  /** Every successor is the result of clicking the tile that slides, at the
      top-left pixel of its cell. */
  lemma MoveIsClick(b: Board, nb: Board) returns (x: nat, y: nat)
    requires Playable(b) && nb in Neighbors(b)
    ensures ClickMove(b, x, y) == Slid(nb)
  {
    var q := NeighborIsSlide(b, nb);
    x, y := q.col * TileSize, q.row * TileSize;
    CornerCell(q);
    assert Holds(b, ClickedCell(x, y));
  }

  /** The top-left pixel of a cell lies in that cell. */
  lemma CornerCell(q: Pos)
    ensures ClickedCell(q.col * TileSize, q.row * TileSize) == q
  {
  }

  /** Clicking the cell the blank left undoes a sliding click. */
  lemma ClickUndo(b: Board, x: nat, y: nat)
    requires IsBoard(b) && ClickMove(b, x, y).Slid?
    ensures var nb := ClickMove(b, x, y).board; var p := Blank(b);
      && IsBoard(nb)
      && ClickMove(nb, p.col * TileSize, p.row * TileSize) == Slid(b)
  {
    var p, q := Blank(b), ClickedCell(x, y);
    BlankHolds(b);
    var nb := Swap(b, p, q);
    SwapBlank(b, p, q);
    assert Blank(nb) == q;
    CornerCell(p);
    SwapTwice(b, p, q);
  }

  /** The game mode chosen on the mode page; Menu is any page that is not a
      game. */
  datatype Mode = Menu | Solo | Ai | Multiplayer

  /** The board size the size buttons lead to: 3 for "3x3", 4 otherwise. */
  function BoardSize(size: int): (n: nat)
    ensures n == 3 || n == 4
    ensures n == 3 <==> size == 3
  {
    if size == 3 then 3 else 4
  }

  /** The solved board of some size of at least 2. */
  ghost predicate IsGoal(goal: Board) {
    |goal| >= 2 && goal == Goal(|goal|)
  }

  /** A well-formed board of the goal's size from which the goal can be
      reached. */
  ghost predicate Solvable(b: Board, goal: Board) {
    IsBoard(b) && |b| == |goal| && Reachable(b, goal)
  }

  /** The boards a game starts from are well-formed and solved. */
  lemma FreshGame(g: Board)
    requires IsGoal(g)
    ensures Solvable(g, g)
  {
    GoalIsBoard(|g|);
    ReachableRefl(g);
  }

  /** A sliding click keeps a board well-formed and solvable. */
  lemma Advance(goal: Board, b: Board, x: nat, y: nat)
    requires IsGoal(goal) && Solvable(b, goal) && ClickMove(b, x, y).Slid?
    ensures Solvable(ClickMove(b, x, y).board, goal)
  {
    var nb := ClickMove(b, x, y).board;
    ClickIsMove(b, x, y);
    NeighborKeepsBoard(b, nb);
    ReachableBack(b, nb, goal);
  }

  /** A shuffle keeps a board well-formed and solvable. */
  lemma Scramble(goal: Board, b: Board, picks: seq<nat>)
    requires IsGoal(goal) && Solvable(b, goal)
    ensures Solvable(Last(Trail(b, picks)), goal)
  {
    ShuffleKeepsBoard(b, picks);
    ReachableTrans(Last(Trail(b, picks)), b, goal);
  }

  class Session {
    /** The game page on screen. */
    var page: Mode
    var board1: Board
    var board2: Board
    var goal: Board
    var currentPlayer: int
    /** The solo and AI shuffle button. */
    var shuffleEnabled: bool
    /** The shuffle buttons of player 1 and player 2. */
    var shuffle1Enabled: bool
    var shuffle2Enabled: bool

    /** Both boards are well-formed, the size of the goal, and can still be
      solved; the turn belongs to player 1 or player 2. */
    ghost predicate Valid()
      reads this
    {
      && IsGoal(goal) && Solvable(board1, goal) && Solvable(board2, goal)
      && (currentPlayer == 1 || currentPlayer == 2)
    }

    /** A fresh program whose first game is started by start_game: both boards
        solved, player 1 to move, every shuffle button enabled. */
    constructor (m: Mode, size: int)
      ensures Valid()
      ensures page == m && goal == Goal(BoardSize(size))
      ensures board1 == goal && board2 == goal && currentPlayer == 1
      ensures shuffleEnabled && shuffle1Enabled && shuffle2Enabled
    {
      var g := Goal(BoardSize(size));
      assert IsGoal(g);
      FreshGame(g);
      page := m;
      goal, board1, board2 := g, g, g;
      currentPlayer := 1;
      shuffleEnabled, shuffle1Enabled, shuffle2Enabled := true, true, true;
    }

    /** start_game, with start_multiplayer_game handing the first move to
        player 1 as the page it builds shows. */
    method StartGame(m: Mode, size: int)
      requires currentPlayer == 1 || currentPlayer == 2
      modifies this
      ensures Valid()
      ensures page == m && goal == Goal(BoardSize(size))
      ensures board1 == goal && board2 == goal
      ensures currentPlayer == if m == Multiplayer then 1 else old(currentPlayer)
      ensures if m == Multiplayer
        then shuffle1Enabled && shuffle2Enabled && shuffleEnabled == old(shuffleEnabled)
        else shuffleEnabled && shuffle1Enabled == old(shuffle1Enabled) && shuffle2Enabled == old(shuffle2Enabled)
    {
      var g := Goal(BoardSize(size));
      assert IsGoal(g);
      FreshGame(g);
      page := m;
      goal, board1, board2 := g, g, g;
      if m == Multiplayer {
        currentPlayer := 1;
        shuffle1Enabled, shuffle2Enabled := true, true;
      } else {
        shuffleEnabled := true;
      }
    }

    /** start_game exactly as start_multiplayer_game is written: it declares
        the turn variable but never assigns it, so the turn the previous game
        ended on carries over. */
    method StartGameAsWritten(m: Mode, size: int)
      requires currentPlayer == 1 || currentPlayer == 2
      modifies this
      ensures Valid()
      ensures page == m && goal == Goal(BoardSize(size))
      ensures board1 == goal && board2 == goal
      ensures currentPlayer == old(currentPlayer)
      ensures if m == Multiplayer
        then shuffle1Enabled && shuffle2Enabled && shuffleEnabled == old(shuffleEnabled)
        else shuffleEnabled && shuffle1Enabled == old(shuffle1Enabled) && shuffle2Enabled == old(shuffle2Enabled)
    {
      var g := Goal(BoardSize(size));
      assert IsGoal(g);
      FreshGame(g);
      page := m;
      goal, board1, board2 := g, g, g;
      if m == Multiplayer {
        shuffle1Enabled, shuffle2Enabled := true, true;
      } else {
        shuffleEnabled := true;
      }
    }

    /** A click on the solo board: a tile next to the blank slides into it and
        disables the shuffle button; the move that reaches the goal wins. */
    method SoloClick(x: nat, y: nat) returns (won: bool)
      requires Valid() && page == Solo
      modifies this`board1, this`shuffleEnabled
      ensures Valid()
      ensures var c := ClickMove(old(board1), x, y);
        if c.Slid?
        then board1 == c.board && !shuffleEnabled && won == (board1 == goal)
        else board1 == old(board1) && shuffleEnabled == old(shuffleEnabled) && !won
    {
      won := false;
      var c := ClickMove(board1, x, y);
      if c.Slid? {
        Advance(goal, board1, x, y);
        board1 := c.board;
        shuffleEnabled := false;
        won := board1 == goal;
      }
    }

    /** move_tile_j1: a click on player 1's board counts only on player 1's
        turn; a sliding click disables player 1's shuffle button and either
        wins the game, which returns to the home page, or passes the turn to
        player 2. */
    method PlayerOneClick(x: nat, y: nat) returns (won: bool)
      requires Valid() && page == Multiplayer
      modifies this`board1, this`currentPlayer, this`page, this`shuffle1Enabled
      ensures Valid()
      ensures var c := ClickMove(old(board1), x, y);
        var moved := old(currentPlayer) == 1 && c.Slid?;
        && board1 == (if moved then c.board else old(board1))
        && won == (moved && board1 == goal)
        && currentPlayer == (if moved && !won then 2 else old(currentPlayer))
        && page == (if won then Menu else Multiplayer)
        && shuffle1Enabled == (old(shuffle1Enabled) && !moved)
    {
      won := false;
      if currentPlayer == 1 {
        var c := ClickMove(board1, x, y);
        if c.Slid? {
          Advance(goal, board1, x, y);
          board1 := c.board;
          shuffle1Enabled := false;
          if board1 == goal {
            won := true;
            page := Menu;
          } else {
            currentPlayer := 2;
          }
        }
      }
    }

    /** move_tile_j2: a click on player 2's board counts only on player 2's
        turn; a sliding click disables player 2's shuffle button and either
        wins the game, which returns to the home page, or passes the turn to
        player 1. */
    method PlayerTwoClick(x: nat, y: nat) returns (won: bool)
      requires Valid() && page == Multiplayer
      modifies this`board2, this`currentPlayer, this`page, this`shuffle2Enabled
      ensures Valid()
      ensures var c := ClickMove(old(board2), x, y);
        var moved := old(currentPlayer) == 2 && c.Slid?;
        && board2 == (if moved then c.board else old(board2))
        && won == (moved && board2 == goal)
        && currentPlayer == (if moved && !won then 1 else old(currentPlayer))
        && page == (if won then Menu else Multiplayer)
        && shuffle2Enabled == (old(shuffle2Enabled) && !moved)
    {
      won := false;
      if currentPlayer == 2 {
        var c := ClickMove(board2, x, y);
        if c.Slid? {
          Advance(goal, board2, x, y);
          board2 := c.board;
          shuffle2Enabled := false;
          if board2 == goal {
            won := true;
            page := Menu;
          } else {
            currentPlayer := 1;
          }
        }
      }
    }

    /** shuffle_puzzle, behind the solo and AI shuffle button: nothing happens
        while the button is disabled. */
    method SoloShuffle(picks: seq<nat>)
      requires Valid() && (page == Solo || page == Ai) && |picks| == ShuffleMoves
      modifies this`board1
      ensures Valid()
      ensures board1 == if shuffleEnabled then Last(Trail(old(board1), picks)) else old(board1)
    {
      if shuffleEnabled {
        Scramble(goal, board1, picks);
        board1 := ShufflePuzzle(board1, picks);
      }
    }

    /** shuffle_puzzle_j1 and shuffle_puzzle_j2: a player may shuffle their
        own board whoever's turn it is, until their first move. */
    method PlayerShuffle(player: int, picks: seq<nat>)
      requires Valid() && page == Multiplayer && (player == 1 || player == 2)
      requires |picks| == ShuffleMoves
      modifies this`board1, this`board2
      ensures Valid()
      ensures player == 1 ==>
        && board1 == (if shuffle1Enabled then Last(Trail(old(board1), picks)) else old(board1))
        && board2 == old(board2)
      ensures player == 2 ==>
        && board2 == (if shuffle2Enabled then Last(Trail(old(board2), picks)) else old(board2))
        && board1 == old(board1)
    {
      if player == 1 && shuffle1Enabled {
        Scramble(goal, board1, picks);
        board1 := ShufflePuzzle(board1, picks);
      } else if player == 2 && shuffle2Enabled {
        Scramble(goal, board2, picks);
        board2 := ShufflePuzzle(board2, picks);
      }
    }

    /** execute_solution: show the boards of the solution one after the other
        from the second on, leaving the last one on board 1. `shown` records
        the boards board 1 holds at each display, in order. */
    method Replay(solution: seq<Board>) returns (ghost shown: seq<Board>)
      modifies this`board1
      ensures board1 == if |solution| >= 2 then Last(solution) else old(board1)
      ensures shown == if |solution| >= 2 then solution[1..] else []
    {
      var i := 1;
      shown := [];
      while i < |solution|
        invariant 1 <= i && (i == 1 || i <= |solution|)
        invariant board1 == if i >= 2 then solution[i - 1] else old(board1)
        invariant shown == if i >= 2 then solution[1..i] else []
      {
        board1 := solution[i];
        shown := shown + [board1];
        i := i + 1;
      }
    }

    /** The AI buttons: disable the shuffle button, search from board 1 to
        the goal, and replay the path found (shown records the boards the
        replay displays) or re-enable the button. A board of the game is
        always solvable, so the search never exhausts. */
    method Solve(heuristic: string) returns (res: Outcome, ghost shown: seq<Board>)
      requires Valid() && page == Ai
      modifies this`board1, this`shuffleEnabled
      ensures Valid()
      ensures !res.NoSolution?
      ensures res.Solved? ==> IsWalk(res.path) && res.path[0] == old(board1)
      ensures res.Solved? ==> board1 == goal && !shuffleEnabled
      ensures res.Solved? ==> shown == if |res.path| >= 2 then res.path[1..] else []
      ensures !res.Solved? ==> shown == []
      ensures res.LimitExceeded? ==> board1 == old(board1) && shuffleEnabled
      ensures old(board1) == goal ==> res == Solved([goal])
    {
      shuffleEnabled := false;
      var initial := board1;
      var closed: set<Board>;
      res, closed := AStar(initial, goal, heuristic);
      shown := [];
      if res.Solved? {
        shown := Replay(res.path);
        FreshGame(goal);
      } else {
        shuffleEnabled := true;
      }
    }
  }

  /** A board one sliding click away from the goal, for every size. */
  lemma OneMoveFromGoal(n: nat) returns (b: Board, x: nat, y: nat)
    requires n >= 2
    ensures IsBoard(b) && |b| == n && Reachable(b, Goal(n))
    ensures ClickMove(b, x, y) == Slid(Goal(n))
  {
    var g := Goal(n);
    GoalIsBoard(n);
    NeighborsCount(g);
    b := Neighbors(g)[0];
    NeighborKeepsBoard(g, b);
    NeighborSymmetric(g, b);
    x, y := MoveIsClick(b, g);
    ReachableRefl(g);
    ReachableBack(g, b, g);
  }

  /** The turn carried over by start_game as written: after player 2 wins
      with a sliding click, the next multiplayer game opens with player 2 to
      move, so player 1's first click does nothing. */
  method StaleTurn(s: Session, x: nat, y: nat, x1: nat, y1: nat)
    requires s.Valid() && s.page == Multiplayer && s.currentPlayer == 2
    requires ClickMove(s.board2, x, y) == Slid(s.goal)
    modifies s
    ensures s.page == Multiplayer && s.currentPlayer == 2 && s.board1 == Goal(3)
  {
    var won := s.PlayerTwoClick(x, y);
    s.StartGameAsWritten(Multiplayer, 3);
    won := s.PlayerOneClick(x1, y1);
  }

  /** With start_game as corrected, the same sequence opens the next game
      with player 1 to move. */
  method FreshTurn(s: Session, x: nat, y: nat)
    requires s.Valid() && s.page == Multiplayer && s.currentPlayer == 2
    requires ClickMove(s.board2, x, y) == Slid(s.goal)
    modifies s
    ensures s.page == Multiplayer && s.currentPlayer == 1
  {
    var won := s.PlayerTwoClick(x, y);
    s.StartGame(Multiplayer, 3);
  }
}
