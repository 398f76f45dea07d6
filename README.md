# Taquin: a verified model of the sliding-tile puzzle engine

`taquin.py` is an N x N sliding-tile puzzle (3 x 3 or 4 x 4) under a Tkinter
shell. It has three modes:

- **solo**: a single player clicks tiles into the blank;
- **AI**: an A* search solves the current board, then the solution is
  replayed;
- **multiplayer**: two players take turns, each on their own board.

This project models the engine in Dafny and proves properties of the model.
It has seven modules:

| module | file | what it models |
|---|---|---|
| `Common` | `common.dfy` | `Option`, `Abs`, `Last`, `Reverse` |
| `Grid` | `grid.dfy` | boards as nested sequences, `find_blank`, the cell swap, the two goal boards, the tiles of a board as a multiset |
| `Moves` | `moves.dfy` | `generate_neighbors`, walks of legal moves, reachability |
| `Heuristics` | `heuristics.dfy` | `manhattan_distance`, `hamming_distance` and the heuristic a `Node` uses |
| `Search` | `search.dfy` | `Node` and `a_star` |
| `Shuffle` | `shuffle.dfy` | the hundred random moves of `shuffle_puzzle*` |
| `Game` | `game.dfy` | the session state that the click, shuffle and solve handlers change |

Style:

- The nested loops of the source remain loops: `FindBlank`, `ManhattanDistance`,
  `HammingDistance`, `GenerateNeighbors`, `PopMin`, `ReconstructPath`,
  `Expand`, `ShufflePuzzle` and `Replay`.
- `FindBlank`, `ManhattanDistance`, `HammingDistance`, `GenerateNeighbors`,
  `ReconstructPath` and `ShufflePuzzle` are each proved equal to a
  recursive specification function, and the lemmas are stated about that
  function.
- `PopMin`, `Expand` and `AStar` are proved against declarative contracts:
  the heap order, the growth of the arena, the heap and the g table, and
  walks and reachability.
- `Replay` and `Solve` are proved against the state they leave behind and
  the sequence of boards displayed, recorded in a ghost out-parameter.
- The module-level globals of the game are the fields of the class `Game.Session`.

How the model is set up:

- **Boards are values.** A board is a `seq<seq<int>>`. The copies that
  `generate_neighbors` and `solve_puzzle_and_disable_shuffle` make are
  therefore implicit.
- **The heap is a sequence.** `heapq` is modelled as a sequence of
  `(f, counter)` entries. Pop is a linear extract-min on that order.
- **Nodes live in an arena.** The node an entry carries is `nodes[counter]`,
  and a parent is an arena index.
- **Two ways to fail.** `a_star` returns `None` both when the exploration
  ceiling is hit and when the heap runs dry. The model has two outcomes for
  these, `LimitExceeded` and `NoSolution`. The callers treat both as failure.
- **`random.choice` is an oracle.** The shuffle is given a sequence of
  naturals. Pick `k` selects neighbour `k mod (number of neighbours)`.
- **Clicks are pixels.** A click is a pixel `(x, y)` on the canvas. The cell
  under it is row `y / 150`, column `x / 150`.
- **The off-grid click.** A click next to the blank but outside the grid is
  possible on the canvas's highlight border. There the swap's right-hand
  side raises `IndexError` before anything is written, so the model reports
  `OffGrid` and leaves the board unchanged.
- **Heuristic names.** Any name other than `"hamming"` selects Manhattan,
  as in `Node.__init__`.
- **Hamming's goal.** The model compares against the standard goal of the
  board's own size. The global `goal_state` that `hamming_distance` reads is
  always that board, set by `start_game`.

## Model

| member | source | states |
|---|---|---|
| Grid.FindBlank | taquin.py:655-660 | The row-major scan returns None exactly when no cell holds 0. Otherwise it returns the first 0 in row-major order: every cell scanned before it is non-zero. |
| Grid.FirstBlankSpec | taquin.py:655-660 | The specification function behind find_blank is None exactly when the board has no 0, and otherwise names the first 0 in row-major order. |
| Grid.SwapTwice | taquin.py:574 | Exchanging two cells and then exchanging them back restores the board. |
| Grid.SwapAt | taquin.py:574 | After the tuple swap, cell q holds p's old tile, cell p holds q's old tile, and every other cell is unchanged. |
| Grid.SwapCells | taquin.py:694 | A swap permutes the tiles: the board's multiset of tiles is unchanged. |
| Grid.GoalConstants | taquin.py:202-203 | The goal function gives exactly the literal 3 x 3 and 4 x 4 goal boards. |
| Grid.GoalIsBoard | taquin.py:202-203 | The goal board of every size is well-formed (square, tiles in 0..n*n-1, a single blank) and its blank is in the bottom-right corner. |
| Moves.GenerateNeighbors | taquin.py:682-697 | The loop over the four offsets builds exactly the specification's successor list. |
| Moves.NeighborsCount | taquin.py:682-697 | A board of size at least 2 has between 2 and 4 successors. |
| Moves.NeighborOffset | taquin.py:686-694 | Every successor is the board with the blank swapped with its in-grid neighbour at one of the four offsets up, down, left, right. |
| Moves.OffsetNeighbor | taquin.py:686-696 | Every in-grid offset of the blank yields a successor, and there are at most 4 successors. |
| Moves.CandidateOffset | taquin.py:688-696 | A board produced by the first k offsets comes from one of those offsets, and that offset is in the grid. |
| Moves.OffsetCandidate | taquin.py:688-696 | Every in-grid offset among the first k contributes its board to the list. |
| Moves.CandidatesLength | taquin.py:688-696 | The first k offsets contribute at most k boards. |
| Moves.NeighborIsSlide | taquin.py:689-694 | A successor swaps the blank with a cell at Manhattan distance exactly 1. |
| Moves.NeighborKeepsBoard | taquin.py:692-695 | A successor has the same size and the same tiles as the input, and is well-formed when the input is. |
| Moves.SwapBlank | taquin.py:694 | Swapping the single blank with another cell gives a well-formed board whose blank is that cell. |
| Moves.NeighborSymmetric | taquin.py:682-697 | Moves can be undone: a well-formed board is a successor of each of its successors. |
| Moves.WalkKeepsBoard | taquin.py:682-697 | Every board on a walk of legal moves from a well-formed board is well-formed and has the same tiles. |
| Moves.ReverseWalk | taquin.py:682-697 | A walk between well-formed boards reversed is again a walk, from its last board back to its first. |
| Moves.WalkExtend | taquin.py:763-772 | Extending a walk by a successor of its last board gives a walk. |
| Moves.NoEscape | taquin.py:753-776 | No walk leaves a set of boards that is closed under moves. |
| Moves.ReachableBack | taquin.py:682-697 | If a well-formed board can reach z, so can each of its successors. |
| Moves.ReachableRefl | taquin.py:744-751 | Every board reaches itself by the one-board walk. |
| Moves.ReachableTrans | taquin.py:603-608 | Reachability composes. |
| Heuristics.Select | taquin.py:705-709 | The name "hamming" selects Hamming, and every other name selects Manhattan. |
| Heuristics.ManhattanDistance | taquin.py:662-671 | The nested loop returns the sum over non-zero tiles v at (i, j) of the distance to divmod(v - 1, n). |
| Heuristics.HammingDistance | taquin.py:673-680 | The nested loop returns the number of non-zero tiles that differ from the goal board's tile in the same cell. |
| Heuristics.Evaluate | taquin.py:705-709 | A node's h is the named heuristic's value. |
| Heuristics.HomeCell | taquin.py:669 | divmod(v - 1, n) is (i, j) exactly when v is i*n + j + 1. |
| Heuristics.ManhattanTermZero | taquin.py:666-670 | A cell adds 0 to Manhattan exactly when it holds the blank or the tile i*n + j + 1. |
| Heuristics.HammingTermLe | taquin.py:662-680 | A misplaced tile is at least one step from its home cell. |
| Heuristics.RowSumZero | taquin.py:662-680 | A prefix of a row adds 0 exactly when each of its cells adds 0. |
| Heuristics.BoardSumZero | taquin.py:662-680 | The first k rows add 0 exactly when each of their cells adds 0. |
| Heuristics.CostZero | taquin.py:662-680 | Either heuristic is 0 exactly when every cell adds 0. |
| Heuristics.RowSumLe | taquin.py:662-680 | On every row prefix, Hamming's sum is at most Manhattan's. |
| Heuristics.BoardSumLe | taquin.py:662-680 | On the first k rows, Hamming's sum is at most Manhattan's. |
| Heuristics.HammingLeManhattan | taquin.py:662-680 | hamming_distance never exceeds manhattan_distance on a board with tiles in 0..n*n-1. |
| Heuristics.HammingRowBound | taquin.py:673-680 | A row prefix adds at most one per cell, and one less when it contains a blank. |
| Heuristics.HammingBoardBound | taquin.py:673-680 | The first k rows add at most k*n, and one less when they contain a blank. |
| Heuristics.HammingBound | taquin.py:673-680 | A board with a blank has at most n*n - 1 misplaced tiles. |
| Heuristics.HammingZeroIff | taquin.py:673-680 | hamming_distance is 0 exactly when every non-zero tile equals the goal tile of its cell. |
| Heuristics.ManhattanZeroIff | taquin.py:662-671 | manhattan_distance is 0 exactly when every non-zero tile v sits at cell divmod(v - 1, n). |
| Heuristics.GoalTermsZero | taquin.py:202-203 | Every cell of the goal board adds 0 to either heuristic. |
| Heuristics.SolvedIff | taquin.py:662-680 | On a well-formed board, either heuristic is 0 exactly when the board is the goal. |
| Heuristics.GoalInCells | taquin.py:202-203 | A square board that agrees with the goal tile in every cell is the goal board. |
| Heuristics.GoalCost | taquin.py:202-203 | Both heuristics are 0 on the goal board. |
| Search.NewNode | taquin.py:699-711 | A node keeps its state, parent and g. Its h is the named heuristic of its state, and f = g + h. |
| Search.PopMin | taquin.py:740 | heappop returns an entry that precedes every entry on the heap by (f, counter). |
| Search.MinUnique | taquin.py:732-733 | With strictly increasing counters the popped entry is determined, so ties on f are popped oldest first. |
| Search.ArenaPush | taquin.py:772-774 | Adding a correctly built child keeps every node correctly built. |
| Search.PathToWalk | taquin.py:745-750 | The parent chain of a node is a walk from the initial board to the node's board, and its length is g + 1. |
| Search.ReconstructPath | taquin.py:745-751 | Following parent links and then reversing yields the parent chain from the start node to the node, oldest first. |
| Search.OpenPush | taquin.py:773-774 | Pushing a new node's entry with the next counter keeps the heap well-formed, and its board joins the waiting boards. |
| Search.OpenRemove | taquin.py:740 | Removing the popped entry keeps the heap well-formed. Every board that was waiting still waits unless it was the popped one. |
| Search.Relax | taquin.py:764-774 | A neighbour whose recorded g is already at most the current g + 1 is skipped, and the arena, heap, counter and g table stay unchanged. Otherwise its g becomes the current g + 1, and one node is appended: that neighbour, with the current node as parent and that g. Its entry (f, counter) goes on the heap and the counter goes up by one. |
| Search.Expand | taquin.py:762-774 | After the neighbour loop every successor has a recorded g of at most the current g + 1. No waiting board is lost, and every board in the table was there before or is waiting. A recorded g never increases, and it only changes to the current g + 1 for a successor. The arena and the heap keep their old prefix, and each new node gets its own entry with the next counter. Every new node is a child of the current node with g + 1: its board had no g or a larger one before, and now has that g. Every board whose g changed has such a node. The new nodes hold, in order, exactly the boards of Pushed: each successor whose g was missing or above the current g + 1, in the up/down/left/right order of generate_neighbors, once. Their heap entries follow in the same order, so ties on f pop in that order. |
| Search.GrownPins | taquin.py:767-774 | After the neighbour loop, a successor whose g was missing or above the current g + 1 has g + 1 and a pushed child of the current node. Any other successor keeps its g and gets no node. |
| Search.RelaxCovers | taquin.py:767-771 | After pass k, each of the first k + 1 successors has a recorded g of at most the current g + 1. |
| Search.NewChildren | taquin.py:771-774 | A pushing pass adds a child of the current node for a board that had no g at most g + 1, and keeps the earlier children. |
| Search.RelaxStep | taquin.py:763-774 | One pass of the neighbour loop keeps what the loop promises, with one more successor in the g table. |
| Search.RelaxGrows | taquin.py:771-774 | A skipped or pushing pass keeps the growth facts of the neighbour loop. |
| Search.GrownStart | taquin.py:762 | The neighbour loop starts with nothing added. |
| Search.Pushed | taquin.py:762-774 | The boards the neighbour loop pushes are exactly the successors whose g before the loop was missing or above the current g + 1. Each appears once, at its first place in the successor list. |
| Search.PushStep | taquin.py:767-774 | Pass k pushes successor k exactly when it is the next board of Pushed: a successor met before already has a g of at most g + 1, and any other still has its g from before the loop. The new nodes stay in Pushed's order. |
| Search.LoopStart | taquin.py:762 | Before the first pass the loop invariant holds with nothing pushed. |
| Search.LoopEnd | taquin.py:762-774 | After the last pass every successor has a recorded g of at most g + 1, and the new nodes are exactly Pushed of the whole successor list, in order. |
| Search.TableGrows | taquin.py:770 | A pushing pass lowers only the neighbour's g, to g + 1, and loses no waiting board. |
| Search.ArenaGrows | taquin.py:771-774 | A pushing pass appends one child and one entry, with the next counter, and keeps the earlier ones. |
| Search.NodeReachable | taquin.py:745-750 | Every node's board is reached from the initial board by the walk of its parent chain. |
| Search.ExpandKeepsInv | taquin.py:756-774 | Closing a new board and expanding it restores the search invariant: nodes well built, heap well-formed, every seen board closed or waiting, every successor of a closed board seen, goal never closed, explored equal to the number of closed boards. |
| Search.SkipKeepsInv | taquin.py:753-754 | An entry whose board is already closed is dropped without being expanded again, and the invariant holds. |
| Search.StartInv | taquin.py:730-737 | The initial heap, g table and empty closed set satisfy the invariant. |
| Search.PopFacts | taquin.py:739-741 | The popped entry names a node whose board is playable, and the heap without it is well-formed. |
| Search.FoundGoal | taquin.py:744-751 | When the goal is popped, the rebuilt path is a walk from the initial board to the goal, and just the initial board when that is the goal. |
| Search.Exhausted | taquin.py:739-776 | When the heap runs dry, no walk of legal moves leads from the initial board to the goal. |
| Search.AStar | taquin.py:716-776 | A returned path is a walk of legal moves from the initial board to the goal, and a start on the goal returns just that board. An empty heap means the goal is unreachable. Every closed board is reached from the initial board and is not the goal. At most 300001 distinct boards are closed, and exactly that many when the ceiling stops the search (300000 expanded, then one more popped and closed). |
| Shuffle.ShufflePuzzle | taquin.py:603-622 | The hundred-step loop ends on the last board of the trail that the oracle's picks select. |
| Shuffle.TrailStep | taquin.py:605-607 | One step moves to the picked successor and leaves the end of the trail unchanged. |
| Shuffle.ShuffleStep | taquin.py:605-607 | The loop step keeps the end of the trail fixed. |
| Shuffle.TrailIsWalk | taquin.py:603-608 | The boards a shuffle passes through form a walk of legal moves, one board per pick plus the start. |
| Shuffle.WalkIsTrail | taquin.py:603-608 | Every walk of legal moves is the trail of some picks, so the shuffle can take any sequence of moves. |
| Shuffle.WalkHead | taquin.py:606-607 | The first move of a walk is one of the successors, and the rest of the walk is a walk. |
| Shuffle.WalkCons | taquin.py:606-607 | The index of the first move, followed by picks for the rest of a walk, gives picks for the whole walk. |
| Shuffle.TrailCons | taquin.py:606-607 | A first pick below the number of successors moves to that successor. |
| Shuffle.NeighborIndex | taquin.py:607 | Every successor has an index in the neighbour list. |
| Shuffle.WalkTail | taquin.py:606-607 | A walk without its first board is a walk. |
| Shuffle.ShuffleKeepsBoard | taquin.py:603-608 | A shuffled well-formed board is well-formed, has the same size and tiles, and the starting board can be reached from it. |
| Shuffle.TrailSameSize | taquin.py:603-608 | A shuffle keeps the board's size. |
| Game.BoardSize | taquin.py:303-310 | Size 3 picks the 3 x 3 board, and every other size picks 4 x 4. |
| Game.ClickIsMove | taquin.py:565-574 | A click that slides a tile produces one of the successors generate_neighbors lists. |
| Game.MoveIsClick | taquin.py:565-574 | Every successor is produced by a click on the tile that slides. |
| Game.ClickUndo | taquin.py:565-574 | Clicking the cell the blank left undoes a sliding click. |
| Game.FreshGame | taquin.py:303-310 | A game starts from boards that are well-formed and solved. |
| Game.Advance | taquin.py:568-574 | A sliding click keeps a board well-formed and able to reach the goal. |
| Game.Scramble | taquin.py:603-622 | A shuffle keeps a board well-formed and able to reach the goal. |
| Game.OneMoveFromGoal | taquin.py:600 | For every size there is a well-formed board that one click turns into the goal. |
| Game.Session.constructor | taquin.py:202-214 | A program's first game: both boards are the goal of the chosen size, player 1 is to move, and the shuffle buttons are enabled. |
| Game.Session.StartGame | taquin.py:301-310 | A new game resets both boards and the goal. It enables the shuffle buttons of the chosen mode, and a multiplayer game opens with player 1 to move. |
| Game.Session.StartGameAsWritten | taquin.py:393-394 | As written, a new game keeps the turn of the previous game. |
| Game.Session.SoloClick | taquin.py:560-601 | A sliding click updates the board, disables the shuffle button, and wins exactly when the new board is the goal. Any other click changes nothing. |
| Game.Session.PlayerOneClick | taquin.py:467-485 | A click counts only on player 1's turn. A sliding click updates board 1 and disables player 1's shuffle. It either wins and leaves the game, or hands the turn to player 2. |
| Game.Session.PlayerTwoClick | taquin.py:487-505 | The same for player 2, who hands the turn back to player 1. |
| Game.Session.SoloShuffle | taquin.py:603-608 | An enabled shuffle replaces board 1 by the end of the picked trail, and a disabled one does nothing. |
| Game.Session.PlayerShuffle | taquin.py:610-622 | A player's enabled shuffle replaces that player's board, whoever's turn it is. The other board is unchanged. |
| Game.Session.Replay | taquin.py:874-887 | Board 1 is shown holding solution[1], ..., solution[L-1] in that order and is left on the last of them. A solution of one board shows nothing and changes nothing. |
| Game.Session.Solve | taquin.py:624-653 | When a path is found it is replayed: the ghost `shown` is exactly the path's boards after the first, in order, and board 1 ends on the goal with the shuffle button still disabled. When the ceiling is hit nothing is shown, the board is unchanged and the button is re-enabled. A board of the game never makes the search run dry. |
| Game.StaleTurn | taquin.py:393-462 | As written, after player 2 wins, the next multiplayer game opens with player 2 to move, and player 1's click leaves board 1 at the goal. |
| Game.FreshTurn | taquin.py:456-462 | With the corrected start, the same sequence opens the next game with player 1 to move. |

## Left out

- The Tkinter interface: windows, canvases, labels, dialogs, the drawing of
  tiles (`update_display*`) and the page functions (`afficher_*`,
  `quitter_partie`). A game page is only the `page` field.
- Image loading and slicing with PIL. The model assumes that
  `show_congratulations_multiplayer` returns to the home page; the source
  catches and prints an image error, which would keep the page.
- `animate_tile`: floating-point pixel steps and timer callbacks.
- Threading in `handle_ia_button` and the `fenetre.after` scheduling of
  `execute_solution`. The model runs the search and then the replay in
  sequence. The `winfo_exists` checks for a closed window are left out.
- `random.choice` itself: an oracle replaces it.
- The internal layout of `heapq`: the model keeps only the order in which it
  pops.
- The `print` on reaching the exploration ceiling.
- The optimality of A*: that the path found is a shortest one.
- Shuffle.ShufflePuzzle: requires a board of size at least 2. On a 1 x 1
  board `random.choice` would raise, but the game only builds 3 x 3 and
  4 x 4 boards.
- Moves.GenerateNeighbors: requires a square board with a blank. On a board
  without 0, `find_blank` returns `None` and unpacking it raises `TypeError`;
  that path is not modelled. Every board of the game is square and has a blank.
- Search.AStar: requires a square start with a blank, for the same reason. This
  also excludes a start without a blank that equals the goal, on which the
  source returns `[initial]` before generating neighbours. The game calls it
  only on its own boards.
- Search.NewNode: requires a square board, as `manhattan_distance` and
  `hamming_distance` index `state[i][j]` for `i, j < len(state)`. The boards the
  search builds are the game's square boards and their successors.
- Heuristics.ManhattanDistance: requires a square board, for the same reason.
- Heuristics.HammingDistance: requires a square board, for the same reason.
- Heuristics.Evaluate: requires a square board, for the same reason.
- Heuristics.HammingDistance: uses the goal of the board's own size, not
  an arbitrary global `goal_state`.

## Findings

| source | as written | input that shows it | evidently intended | confidence | as-written member | corrected member |
|---|---|---|---|---|---|---|
| taquin.py:393-394,456-462 | `start_multiplayer_game` declares `current_player` global but never assigns it. A win by player 2 does not toggle the turn (taquin.py:497-499). | Player 2 wins a multiplayer game with a sliding click, then a new multiplayer game is started. Both canvases are bound again at taquin.py:461-462, and `move_tile_j1` ignores player 1 because the turn is still 2. | Each multiplayer game opens with player 1 to move and player 2's board disabled, as the comment at taquin.py:456 says. | medium, not executed | Game.Session.StartGameAsWritten | Game.Session.StartGame |
