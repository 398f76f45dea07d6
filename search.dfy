/**
  a_star: best-first search over boards ordered by f = g + h, with a heap of
  (f, counter, node) entries, a table of the best known g of every board
  reached, a closed set and a ceiling on the number of boards closed.

  Nodes live in an arena: the node a heap entry carries is the arena entry
  whose index is the entry's counter, and a parent link is an arena index.
*/
module Search {
  import opened Common
  import opened Grid
  import opened Moves
  import opened Heuristics

  /** a_star gives up once more than this many boards have been closed. */
  const MaxExplored: nat := 300000

  datatype Node = Node(state: Board, parent: Option<nat>, g: nat, h: nat, f: nat)

  /** A heap entry (f, counter, node); the node is nodes[counter]. */
  datatype Entry = Entry(f: nat, counter: nat)

  /** a_star's result. The source returns None both when the ceiling is hit
      and when the heap runs dry; the two are told apart here. */
  datatype Outcome = Solved(path: seq<Board>) | LimitExceeded | NoSolution

  /** Node.__init__: h is the named heuristic of the state and f = g + h. */
  method NewNode(state: Board, parent: Option<nat>, g: nat, heuristic: string) returns (node: Node)
    requires IsSquare(state)
    ensures node.state == state && node.parent == parent && node.g == g
    ensures node.h == Cost(Select(heuristic), state)
    ensures node.f == node.g + node.h
  {
    var h := Evaluate(state, heuristic);
    node := Node(state, parent, g, h, g + h);
  }

  // ---------------------------------------------------------------------
  // The heap order

  /** Heap order on entries: by f, ties broken by the older counter. */
  predicate Precedes(a: Entry, b: Entry) {
    a.f < b.f || (a.f == b.f && a.counter <= b.counter)
  }

  /** heappop: the index of an entry that precedes every entry. */
  method PopMin(open: seq<Entry>) returns (m: nat)
    requires |open| > 0
    ensures m < |open|
    ensures forall i :: 0 <= i < |open| ==> Precedes(open[m], open[i])
  {
    m := 0;
    for i := 1 to |open|
      invariant m < i
      invariant forall t :: 0 <= t < i ==> Precedes(open[m], open[t])
    {
      if open[i].f < open[m].f || (open[i].f == open[m].f && open[i].counter < open[m].counter) {
        m := i;
      }
    }
  }

  /** With distinct counters the entry heappop returns is determined. */
  lemma MinUnique(open: seq<Entry>, m1: nat, m2: nat)
    requires m1 < |open| && m2 < |open|
    requires forall i, j :: 0 <= i < j < |open| ==> open[i].counter < open[j].counter
    requires forall i :: 0 <= i < |open| ==> Precedes(open[m1], open[i])
    requires forall i :: 0 <= i < |open| ==> Precedes(open[m2], open[i])
    ensures m1 == m2
  {
    assert Precedes(open[m1], open[m2]) && Precedes(open[m2], open[m1]);
  }

  // ---------------------------------------------------------------------
  // The node arena and the path back to the start

  /** Parents come earlier in the arena, so following them terminates. */
  predicate Linked(nodes: seq<Node>) {
    forall k :: 0 <= k < |nodes| && nodes[k].parent.Some? ==> nodes[k].parent.value < k
  }

  /** The states on the parent chain of node k, oldest first. */
  function PathTo(nodes: seq<Node>, k: nat): (r: seq<Board>)
    requires Linked(nodes) && k < |nodes|
    decreases k
  {
    match nodes[k].parent
    case None => [nodes[k].state]
    case Some(p) => PathTo(nodes, p) + [nodes[k].state]
  }

  /** Node k was built as a_star builds nodes: the start node has no parent
      and g = 0, every other node is a successor of its parent with
      g = parent.g + 1, and f = g + h with h the heuristic of its state. */
  ghost predicate NodeOk(nodes: seq<Node>, k: nat, initial: Board, hk: Heuristic)
    requires k < |nodes|
  {
    var n := nodes[k];
    Playable(n.state) && n.h == Cost(hk, n.state) && n.f == n.g + n.h &&
    match n.parent
    case None => n.state == initial && n.g == 0
    case Some(p) =>
      p < k && Playable(nodes[p].state) && n.state in Neighbors(nodes[p].state) &&
      n.g == nodes[p].g + 1
  }

  ghost predicate ArenaOk(nodes: seq<Node>, initial: Board, hk: Heuristic) {
    Linked(nodes) && forall k :: 0 <= k < |nodes| ==> NodeOk(nodes, k, initial, hk)
  }

  /** Appending a well-built node keeps the arena well built. */
  lemma ArenaPush(nodes: seq<Node>, child: Node, initial: Board, hk: Heuristic)
    requires ArenaOk(nodes, initial, hk) && NodeOk(nodes + [child], |nodes|, initial, hk)
    ensures ArenaOk(nodes + [child], initial, hk)
  {
    var ext := nodes + [child];
    forall k | 0 <= k < |nodes|
      ensures NodeOk(ext, k, initial, hk)
    {
      assert ext[k] == nodes[k];
      assert NodeOk(nodes, k, initial, hk);
      if nodes[k].parent.Some? {
        assert ext[nodes[k].parent.value] == nodes[nodes[k].parent.value];
      }
    }
  }

  /** The parent chain of a node is a walk from the initial board to the
      node's board, one board longer than the node's g. */
  lemma {:induction false} PathToWalk(nodes: seq<Node>, k: nat, initial: Board, hk: Heuristic)
    requires ArenaOk(nodes, initial, hk) && k < |nodes|
    ensures IsWalk(PathTo(nodes, k))
    ensures PathTo(nodes, k)[0] == initial && Last(PathTo(nodes, k)) == nodes[k].state
    ensures |PathTo(nodes, k)| == nodes[k].g + 1
    decreases k
  {
    assert NodeOk(nodes, k, initial, hk);
    match nodes[k].parent
    case None =>
    case Some(p) =>
      PathToWalk(nodes, p, initial, hk);
      WalkExtend(PathTo(nodes, p), nodes[k].state);
  }

  /** The path rebuilt by following parent links and then reversing. */
  method ReconstructPath(nodes: seq<Node>, k: nat) returns (path: seq<Board>)
    requires Linked(nodes) && k < |nodes|
    ensures path == PathTo(nodes, k)
  {
    var rev: seq<Board> := [];
    var node: Option<nat> := Some(k);
    while node.Some?
      invariant node.Some? ==> node.value < |nodes|
      invariant PathTo(nodes, k) == (if node.Some? then PathTo(nodes, node.value) else []) + Reverse(rev)
      decreases if node.Some? then node.value + 1 else 0
    {
      var i := node.value;
      ReverseSnoc(rev, nodes[i].state);
      rev := rev + [nodes[i].state];
      node := nodes[i].parent;
    }
    path := Reverse(rev);
  }

  // ---------------------------------------------------------------------
  // The heap, the g table and the closed set

  /** Every entry names an existing node and carries its f; counters are
      handed out in increasing order, and the next one is the arena size. */
  ghost predicate OpenOk(open: seq<Entry>, nodes: seq<Node>, counter: nat) {
    counter == |nodes| &&
    (forall i :: 0 <= i < |open| ==> open[i].counter < |nodes| && open[i].f == nodes[open[i].counter].f) &&
    (forall i, j :: 0 <= i < j < |open| ==> open[i].counter < open[j].counter)
  }

  /** The boards that still have an entry on the heap. */
  ghost function Waiting(open: seq<Entry>, nodes: seq<Node>): (r: set<Board>) {
    set i | 0 <= i < |open| && open[i].counter < |nodes| :: nodes[open[i].counter].state
  }

  /** Every board seen so far is either closed or still waiting. */
  ghost predicate Tracked(gScores: map<Board, nat>, closed: set<Board>, open: seq<Entry>, nodes: seq<Node>) {
    forall s :: s in gScores ==> s in closed || s in Waiting(open, nodes)
  }

  /** Every successor of a closed board has been seen. */
  ghost predicate Covered(closed: set<Board>, gScores: map<Board, nat>) {
    forall c :: c in closed ==> Playable(c) && forall nb :: nb in Neighbors(c) ==> nb in gScores
  }

  lemma OpenPush(open: seq<Entry>, nodes: seq<Node>, counter: nat, child: Node)
    requires OpenOk(open, nodes, counter)
    ensures OpenOk(open + [Entry(child.f, counter)], nodes + [child], counter + 1)
    ensures Waiting(open + [Entry(child.f, counter)], nodes + [child]) == Waiting(open, nodes) + {child.state}
  {
    var o, ns := open + [Entry(child.f, counter)], nodes + [child];
    forall i | 0 <= i < |open|
      ensures o[i] == open[i] && ns[open[i].counter] == nodes[open[i].counter]
    {
    }
    assert o[|open|].counter == |nodes|;
    assert child.state in Waiting(o, ns);
  }

  /** Removing entry m leaves a well-formed heap, and every board that was
      waiting is either still waiting or is the board of entry m. */
  lemma OpenRemove(open: seq<Entry>, nodes: seq<Node>, counter: nat, m: nat)
    requires OpenOk(open, nodes, counter) && m < |open|
    ensures OpenOk(open[..m] + open[m + 1..], nodes, counter)
    ensures Waiting(open, nodes) <= Waiting(open[..m] + open[m + 1..], nodes) + {nodes[open[m].counter].state}
  {
    var rest := open[..m] + open[m + 1..];
    assert forall i :: 0 <= i < |rest| ==> rest[i] == if i < m then open[i] else open[i + 1];
    forall s | s in Waiting(open, nodes)
      ensures s in Waiting(rest, nodes) || s == nodes[open[m].counter].state
    {
      var i :| 0 <= i < |open| && open[i].counter < |nodes| && nodes[open[i].counter].state == s;
      if i < m {
        assert rest[i] == open[i];
      } else if i > m {
        assert rest[i - 1] == open[i];
      }
    }
  }

  /** Everything a_star keeps true between two pops. */
  ghost predicate Inv(nodes: seq<Node>, open: seq<Entry>, gScores: map<Board, nat>, closed: set<Board>,
                      counter: nat, explored: nat, initial: Board, goal: Board, hk: Heuristic) {
    ArenaOk(nodes, initial, hk) && OpenOk(open, nodes, counter) &&
    initial in gScores && Tracked(gScores, closed, open, nodes) && Covered(closed, gScores) &&
    goal !in closed && explored == |closed| && explored <= MaxExplored &&
    (initial == goal ==> |open| == 1 && open[0].counter == 0)
  }

  // ---------------------------------------------------------------------
  // Expanding one board

  /** The two outcomes of one pass of the neighbour loop from node cur,
      whose g is g: a neighbour whose recorded g is at most g + 1 is skipped
      and nothing changes; otherwise its g becomes g + 1, one node is
      appended (the neighbour, with parent cur and g + 1), its entry
      (f, counter) is pushed and the counter goes up by one. */
  ghost predicate Relaxed(nodes0: seq<Node>, open0: seq<Entry>, g0: map<Board, nat>, counter0: nat,
                          cur: nat, g: nat, neighbor: Board,
                          nodes: seq<Node>, open: seq<Entry>, gScores: map<Board, nat>, counter: nat) {
    if neighbor in g0 && g + 1 >= g0[neighbor] then
      gScores == g0 && nodes == nodes0 && open == open0 && counter == counter0
    else
      && gScores == g0[neighbor := g + 1]
      && |nodes| == |nodes0| + 1 && nodes[..|nodes0|] == nodes0
      && nodes[|nodes0|].state == neighbor && nodes[|nodes0|].parent == Some(cur)
      && nodes[|nodes0|].g == g + 1
      && open == open0 + [Entry(nodes[|nodes0|].f, counter0)] && counter == counter0 + 1
  }

  /** One pass of a_star's neighbour loop: the neighbour gets g = g + 1 of
      the current node, a new node and a heap entry unless the g table
      already holds a g at least as small for it. */
  method Relax(nodes0: seq<Node>, open0: seq<Entry>, g0: map<Board, nat>, counter0: nat, cur: nat,
               neighbor: Board, initial: Board, heuristic: string)
    returns (nodes: seq<Node>, open: seq<Entry>, gScores: map<Board, nat>, counter: nat)
    requires ArenaOk(nodes0, initial, Select(heuristic)) && OpenOk(open0, nodes0, counter0)
    requires cur < |nodes0| && Playable(nodes0[cur].state) && neighbor in Neighbors(nodes0[cur].state)
    ensures ArenaOk(nodes, initial, Select(heuristic)) && OpenOk(open, nodes, counter)
    ensures |nodes0| <= |nodes| && forall i :: 0 <= i < |nodes0| ==> nodes[i] == nodes0[i]
    ensures Waiting(open0, nodes0) <= Waiting(open, nodes)
    ensures forall s :: s in gScores ==> s in g0 || s in Waiting(open, nodes)
    ensures neighbor in gScores
    ensures Relaxed(nodes0, open0, g0, counter0, cur, nodes0[cur].g, neighbor, nodes, open, gScores, counter)
  {
    ghost var hk := Select(heuristic);
    nodes, open, gScores, counter := nodes0, open0, g0, counter0;
    var current := nodes0[cur];
    var tentativeG := current.g + 1;
    if neighbor in gScores && tentativeG >= gScores[neighbor] {
      return;
    }
    NeighborKeepsBoard(current.state, neighbor);
    gScores := gScores[neighbor := tentativeG];
    var child := NewNode(neighbor, Some(cur), tentativeG, heuristic);
    assert NodeOk(nodes0 + [child], |nodes0|, initial, hk);
    OpenPush(open0, nodes0, counter0, child);
    ArenaPush(nodes0, child, initial, hk);
    open := open0 + [Entry(child.f, counter0)];
    nodes := nodes0 + [child];
    counter := counter0 + 1;
    assert nodes[..|nodes0|] == nodes0;
  }

  /** The neighbour loop of a_star: every successor of the current board is
      entered in the g table; a g already recorded only ever decreases, and
      only to the current node's g + 1. The arena and the heap only grow:
      each new node is a child of the current one with g + 1, has its own
      entry with the next counter, and every board whose g changed has such
      a node. */
  method Expand(nodes0: seq<Node>, open0: seq<Entry>, g0: map<Board, nat>, counter0: nat, cur: nat,
                initial: Board, heuristic: string)
    returns (nodes: seq<Node>, open: seq<Entry>, gScores: map<Board, nat>, counter: nat)
    requires ArenaOk(nodes0, initial, Select(heuristic)) && OpenOk(open0, nodes0, counter0)
    requires cur < |nodes0| && Playable(nodes0[cur].state)
    ensures ArenaOk(nodes, initial, Select(heuristic)) && OpenOk(open, nodes, counter)
    ensures forall nb :: nb in Neighbors(nodes0[cur].state) ==> nb in gScores && gScores[nb] <= nodes0[cur].g + 1
    ensures Grown(nodes0, open0, g0, nodes, open, gScores, cur, nodes0[cur].g, Neighbors(nodes0[cur].state))
    ensures PushedInOrder(nodes0, nodes, Pushed(Neighbors(nodes0[cur].state), nodes0[cur].g, g0))
  {
    var current := nodes0[cur];
    var neighbors := GenerateNeighbors(current.state);
    ghost var hk := Select(heuristic);
    nodes, open, gScores, counter := nodes0, open0, g0, counter0;
    LoopStart(nodes0, open0, g0, counter0, cur, neighbors, initial, hk);
    for k := 0 to |neighbors|
      invariant LoopOk(nodes0, open0, g0, cur, current, neighbors, k, nodes, open, gScores, counter, initial, hk)
    {
      nodes, open, gScores, counter :=
        RelaxStep(nodes0, open0, g0, cur, current, neighbors, k, nodes, open, gScores, counter, initial, heuristic);
    }
    LoopEnd(nodes0, open0, g0, cur, current, neighbors, nodes, open, gScores, counter, initial, hk);
  }

  /** Before the first pass of the neighbour loop nothing has been added. */
  lemma LoopStart(nodes0: seq<Node>, open0: seq<Entry>, g0: map<Board, nat>, counter0: nat, cur: nat,
                  nbs: seq<Board>, initial: Board, hk: Heuristic)
    requires ArenaOk(nodes0, initial, hk) && OpenOk(open0, nodes0, counter0) && cur < |nodes0|
    ensures LoopOk(nodes0, open0, g0, cur, nodes0[cur], nbs, 0, nodes0, open0, g0, counter0, initial, hk)
  {
    GrownStart(nodes0, open0, g0, cur, nodes0[cur].g, nbs);
  }

  /** After the last pass every successor has been relaxed. */
  lemma LoopEnd(nodes0: seq<Node>, open0: seq<Entry>, g0: map<Board, nat>, cur: nat, current: Node, nbs: seq<Board>,
                nodes: seq<Node>, open: seq<Entry>, gScores: map<Board, nat>, counter: nat,
                initial: Board, hk: Heuristic)
    requires LoopOk(nodes0, open0, g0, cur, current, nbs, |nbs|, nodes, open, gScores, counter, initial, hk)
    ensures ArenaOk(nodes, initial, hk) && OpenOk(open, nodes, counter)
    ensures forall nb :: nb in nbs ==> nb in gScores && gScores[nb] <= current.g + 1
    ensures Grown(nodes0, open0, g0, nodes, open, gScores, cur, current.g, nbs)
    ensures PushedInOrder(nodes0, nodes, Pushed(nbs, current.g, g0))
  {
    assert nbs[..|nbs|] == nbs;
  }

  /** What holds after the first k passes of the neighbour loop over the
      successors nbs of node cur. */
  ghost predicate LoopOk(nodes0: seq<Node>, open0: seq<Entry>, g0: map<Board, nat>, cur: nat, current: Node,
                         nbs: seq<Board>, k: nat,
                         nodes: seq<Node>, open: seq<Entry>, gScores: map<Board, nat>, counter: nat,
                         initial: Board, hk: Heuristic) {
    && ArenaOk(nodes, initial, hk) && OpenOk(open, nodes, counter)
    && cur < |nodes| && nodes[cur] == current && k <= |nbs|
    && (forall t :: 0 <= t < k ==> nbs[t] in gScores && gScores[nbs[t]] <= current.g + 1)
    && PushedInOrder(nodes0, nodes, Pushed(nbs[..k], current.g, g0))
    && Grown(nodes0, open0, g0, nodes, open, gScores, cur, current.g, nbs)
  }

  /** Pass k of the neighbour loop. */
  method RelaxStep(nodes0: seq<Node>, open0: seq<Entry>, g0: map<Board, nat>, cur: nat, current: Node,
                   nbs: seq<Board>, k: nat,
                   nodesB: seq<Node>, openB: seq<Entry>, gB: map<Board, nat>, counterB: nat,
                   initial: Board, heuristic: string)
    returns (nodes: seq<Node>, open: seq<Entry>, gScores: map<Board, nat>, counter: nat)
    requires LoopOk(nodes0, open0, g0, cur, current, nbs, k, nodesB, openB, gB, counterB, initial, Select(heuristic))
    requires k < |nbs| && Playable(current.state) && nbs == Neighbors(current.state)
    ensures LoopOk(nodes0, open0, g0, cur, current, nbs, k + 1, nodes, open, gScores, counter, initial, Select(heuristic))
  {
    nodes, open, gScores, counter := Relax(nodesB, openB, gB, counterB, cur, nbs[k], initial, heuristic);
    RelaxGrows(nodes0, open0, g0, nodesB, openB, gB, counterB, nodes, open, gScores, counter, cur, current.g, nbs, nbs[k]);
    RelaxCovers(nbs, k, nodesB, openB, gB, counterB, nodes, open, gScores, counter, cur, current.g);
    PushStep(nodes0, g0, nbs, k, nodesB, openB, gB, counterB, nodes, open, gScores, counter, cur, current.g);
  }

  /** Pass k pushes nbs[k] exactly when it is the next board of Pushed: a
      successor already met in the first k passes has a g of at most g + 1,
      and any other successor still has the g it had before the loop. */
  lemma PushStep(nodes0: seq<Node>, g0: map<Board, nat>, nbs: seq<Board>, k: nat,
                 nodesB: seq<Node>, openB: seq<Entry>, gB: map<Board, nat>, counterB: nat,
                 nodes: seq<Node>, open: seq<Entry>, gScores: map<Board, nat>, counter: nat, cur: nat, g: nat)
    requires k < |nbs| && forall t :: 0 <= t < k ==> nbs[t] in gB && gB[nbs[t]] <= g + 1
    requires PushedInOrder(nodes0, nodesB, Pushed(nbs[..k], g, g0))
    requires forall s :: s in g0 ==> s in gB && gB[s] <= g0[s]
    requires forall s :: s in gB && (s !in g0 || gB[s] != g0[s]) ==>
      exists j :: |nodes0| <= j < |nodesB| && nodesB[j].state == s
    requires Relaxed(nodesB, openB, gB, counterB, cur, g, nbs[k], nodes, open, gScores, counter)
    ensures PushedInOrder(nodes0, nodes, Pushed(nbs[..k + 1], g, g0))
  {
    var front, nb := nbs[..k], nbs[k];
    assert nbs[..k + 1][..k] == front;
    var ps := Pushed(front, g, g0);
    var improving := nb !in front && (nb !in g0 || g0[nb] > g + 1);
    assert Pushed(nbs[..k + 1], g, g0) == ps + (if improving then [nb] else []);
    if nb in front {
      var t :| 0 <= t < k && front[t] == nb;
      assert gB[nb] <= g + 1;
    } else {
      forall j | |nodes0| <= j < |nodesB|
        ensures nodesB[j].state in front
      {
        assert nodesB[j].state == ps[j - |nodes0|];
      }
    }
    assert improving == !(nb in gB && g + 1 >= gB[nb]);
    if improving {
      assert nodes[..|nodesB|] == nodesB;
      forall i | 0 <= i < |ps| + 1
        ensures nodes[|nodes0| + i].state == (ps + [nb])[i]
      {
        if i < |ps| {
          assert nodes[|nodes0| + i] == nodesB[|nodes0| + i];
        }
      }
    }
  }

  /** After pass k every one of the first k + 1 successors has a g of at
      most g + 1 in the table. */
  lemma RelaxCovers(nbs: seq<Board>, k: nat, nodesB: seq<Node>, openB: seq<Entry>, gB: map<Board, nat>, counterB: nat,
                    nodes: seq<Node>, open: seq<Entry>, gScores: map<Board, nat>, counter: nat, cur: nat, g: nat)
    requires k < |nbs| && forall t :: 0 <= t < k ==> nbs[t] in gB && gB[nbs[t]] <= g + 1
    requires Relaxed(nodesB, openB, gB, counterB, cur, g, nbs[k], nodes, open, gScores, counter)
    ensures forall t :: 0 <= t < k + 1 ==> nbs[t] in gScores && gScores[nbs[t]] <= g + 1
  {
  }

  /** The neighbour loop starts with nothing added. */
  lemma GrownStart(nodes0: seq<Node>, open0: seq<Entry>, g0: map<Board, nat>, cur: nat, g: nat, nbs: seq<Board>)
    ensures Grown(nodes0, open0, g0, nodes0, open0, g0, cur, g, nbs)
    ensures PushedInOrder(nodes0, nodes0, Pushed(nbs[..0], g, g0))
  {
    assert nodes0[..|nodes0|] == nodes0 && open0[..|open0|] == open0;
    assert nbs[..0] == [];
  }

  /** A node the neighbour loop added: a child of node cur with g + 1 of
      cur's g, whose board the g table records at that g and had no g at
      most that large before the loop. */
  ghost predicate NewChild(n: Node, cur: nat, g: nat, g0: map<Board, nat>, gScores: map<Board, nat>) {
    n.parent == Some(cur) && n.g == g + 1 && n.state in gScores && gScores[n.state] == g + 1 &&
    (n.state !in g0 || g0[n.state] > g + 1)
  }

  /** The boards the neighbour loop over nbs pushes, in the order it pushes
      them: every successor, at its first occurrence in nbs, whose g before
      the loop was missing or above g + 1. A later occurrence finds the g it
      was given (or kept) and is skipped. */
  ghost function Pushed(nbs: seq<Board>, g: nat, g0: map<Board, nat>): (r: seq<Board>)
    ensures forall x :: x in r <==> x in nbs && (x !in g0 || g0[x] > g + 1)
    ensures forall i, j :: 0 <= i < j < |r| ==> r[i] != r[j]
    decreases |nbs|
  {
    if nbs == [] then []
    else
      var front, nb := nbs[..|nbs| - 1], nbs[|nbs| - 1];
      assert nbs == front + [nb];
      Pushed(front, g, g0) + (if nb !in front && (nb !in g0 || g0[nb] > g + 1) then [nb] else [])
  }

  /** The nodes appended after nodes0 hold exactly the boards ps, in order. */
  ghost predicate PushedInOrder(nodes0: seq<Node>, nodes: seq<Node>, ps: seq<Board>) {
    |nodes| == |nodes0| + |ps| && forall i :: 0 <= i < |ps| ==> nodes[|nodes0| + i].state == ps[i]
  }

  /** What the neighbour loop over the successors nbs of node cur keeps
      true, from nodes0, open0 and g0 on: no waiting board is lost; every
      board in the g table was there before or is waiting; recorded g only
      decrease, and only to g + 1 for a successor; the arena and the heap
      only grow, one entry per new node with the node's counter; every new
      node is a NewChild; and every board whose g changed has a new node. */
  ghost predicate Grown(nodes0: seq<Node>, open0: seq<Entry>, g0: map<Board, nat>,
                        nodes: seq<Node>, open: seq<Entry>, gScores: map<Board, nat>,
                        cur: nat, g: nat, nbs: seq<Board>) {
    GrownTable(nodes0, open0, g0, nodes, open, gScores, g, nbs) &&
    GrownArena(nodes0, open0, g0, nodes, open, gScores, cur, g)
  }

  /** The g table and waiting boards part of Grown. */
  ghost predicate GrownTable(nodes0: seq<Node>, open0: seq<Entry>, g0: map<Board, nat>,
                             nodes: seq<Node>, open: seq<Entry>, gScores: map<Board, nat>,
                             g: nat, nbs: seq<Board>) {
    && Waiting(open0, nodes0) <= Waiting(open, nodes)
    && (forall s :: s in gScores ==> s in g0 || s in Waiting(open, nodes))
    && (forall s :: s in g0 ==> s in gScores && gScores[s] <= g0[s])
    && (forall s :: s in gScores && (s !in g0 || gScores[s] != g0[s]) ==> gScores[s] == g + 1 && s in nbs)
  }

  /** The arena and heap part of Grown. */
  ghost predicate GrownArena(nodes0: seq<Node>, open0: seq<Entry>, g0: map<Board, nat>,
                             nodes: seq<Node>, open: seq<Entry>, gScores: map<Board, nat>,
                             cur: nat, g: nat) {
    && |nodes0| <= |nodes| && nodes[..|nodes0|] == nodes0
    && |open| - |open0| == |nodes| - |nodes0| && |open0| <= |open| && open[..|open0|] == open0
    && (forall i :: |open0| <= i < |open| ==> open[i].counter == |nodes0| + (i - |open0|))
    && (forall j :: |nodes0| <= j < |nodes| ==> NewChild(nodes[j], cur, g, g0, gScores))
    && (forall s :: s in gScores && (s !in g0 || gScores[s] != g0[s]) ==>
          exists j :: |nodes0| <= j < |nodes| && nodes[j].state == s)
  }

  /** One pass of the neighbour loop, on successor neighbor of nbs, keeps
      what the loop keeps true. */
  lemma RelaxGrows(nodes0: seq<Node>, open0: seq<Entry>, g0: map<Board, nat>,
                   nodesB: seq<Node>, openB: seq<Entry>, gB: map<Board, nat>, counterB: nat,
                   nodes: seq<Node>, open: seq<Entry>, gScores: map<Board, nat>, counter: nat,
                   cur: nat, g: nat, nbs: seq<Board>, neighbor: Board)
    requires Grown(nodes0, open0, g0, nodesB, openB, gB, cur, g, nbs) && neighbor in nbs
    requires Waiting(openB, nodesB) <= Waiting(open, nodes)
    requires forall s :: s in gScores ==> s in gB || s in Waiting(open, nodes)
    requires counterB == |nodesB| && Relaxed(nodesB, openB, gB, counterB, cur, g, neighbor, nodes, open, gScores, counter)
    ensures Grown(nodes0, open0, g0, nodes, open, gScores, cur, g, nbs)
  {
    if !(neighbor in gB && g + 1 >= gB[neighbor]) {
      TableGrows(nodes0, open0, g0, nodesB, openB, gB, nodes, open, gScores, g, nbs, neighbor);
      ArenaGrows(nodes0, open0, g0, nodesB, openB, gB, counterB, nodes, open, gScores, counter, cur, g, neighbor);
    }
  }

  /** A pushing pass keeps the g table part of Grown. */
  lemma TableGrows(nodes0: seq<Node>, open0: seq<Entry>, g0: map<Board, nat>,
                   nodesB: seq<Node>, openB: seq<Entry>, gB: map<Board, nat>,
                   nodes: seq<Node>, open: seq<Entry>, gScores: map<Board, nat>,
                   g: nat, nbs: seq<Board>, neighbor: Board)
    requires GrownTable(nodes0, open0, g0, nodesB, openB, gB, g, nbs) && neighbor in nbs
    requires Waiting(openB, nodesB) <= Waiting(open, nodes)
    requires forall s :: s in gScores ==> s in gB || s in Waiting(open, nodes)
    requires !(neighbor in gB && g + 1 >= gB[neighbor]) && gScores == gB[neighbor := g + 1]
    ensures GrownTable(nodes0, open0, g0, nodes, open, gScores, g, nbs)
  {
    SubsetTrans(Waiting(open0, nodes0), Waiting(openB, nodesB), Waiting(open, nodes));
    forall s | s in gScores
      ensures s in g0 || s in Waiting(open, nodes)
    {
      if s !in Waiting(open, nodes) {
        assert s in gB && s !in Waiting(openB, nodesB);
      }
    }
  }

  /** A pushing pass keeps the arena and heap part of Grown. */
  lemma ArenaGrows(nodes0: seq<Node>, open0: seq<Entry>, g0: map<Board, nat>,
                   nodesB: seq<Node>, openB: seq<Entry>, gB: map<Board, nat>, counterB: nat,
                   nodes: seq<Node>, open: seq<Entry>, gScores: map<Board, nat>, counter: nat,
                   cur: nat, g: nat, neighbor: Board)
    requires GrownArena(nodes0, open0, g0, nodesB, openB, gB, cur, g)
    requires forall s :: s in g0 ==> s in gB && gB[s] <= g0[s]
    requires counterB == |nodesB| && !(neighbor in gB && g + 1 >= gB[neighbor])
    requires Relaxed(nodesB, openB, gB, counterB, cur, g, neighbor, nodes, open, gScores, counter)
    ensures GrownArena(nodes0, open0, g0, nodes, open, gScores, cur, g)
  {
    assert nodes[..|nodes0|] == nodesB[..|nodes0|];
    assert open[..|open0|] == openB[..|open0|];
    NewChildren(nodes0, g0, nodesB, gB, nodes, gScores, cur, g, neighbor);
    forall s | s in gScores && (s !in g0 || gScores[s] != g0[s])
      ensures exists j :: |nodes0| <= j < |nodes| && nodes[j].state == s
    {
      if s == neighbor {
        assert nodes[|nodesB|].state == s;
      } else {
        var j :| |nodes0| <= j < |nodesB| && nodesB[j].state == s;
        assert nodes[j] == nodesB[j];
      }
    }
  }

  /** What the neighbour loop's contract fixes for each successor nb: if its
      recorded g was missing or above g + 1, it is now g + 1 and a child of
      cur with that g was pushed for it; otherwise its g is unchanged and no
      node was pushed for it. */
  lemma GrownPins(nodes0: seq<Node>, open0: seq<Entry>, g0: map<Board, nat>,
                  nodes: seq<Node>, open: seq<Entry>, gScores: map<Board, nat>,
                  cur: nat, g: nat, nbs: seq<Board>, nb: Board)
    requires Grown(nodes0, open0, g0, nodes, open, gScores, cur, g, nbs)
    requires nb in gScores && gScores[nb] <= g + 1
    ensures (nb !in g0 || g0[nb] > g + 1) ==>
      gScores[nb] == g + 1 &&
      exists j :: |nodes0| <= j < |nodes| && nodes[j].state == nb && nodes[j].parent == Some(cur) && nodes[j].g == g + 1
    ensures (nb in g0 && g0[nb] <= g + 1) ==>
      gScores[nb] == g0[nb] && forall j :: |nodes0| <= j < |nodes| ==> nodes[j].state != nb
  {
    if nb !in g0 || g0[nb] > g + 1 {
      assert nb !in g0 || gScores[nb] != g0[nb];
      var j :| |nodes0| <= j < |nodes| && nodes[j].state == nb;
      assert NewChild(nodes[j], cur, g, g0, gScores);
    } else {
      forall j | |nodes0| <= j < |nodes|
        ensures nodes[j].state != nb
      {
        assert NewChild(nodes[j], cur, g, g0, gScores);
      }
    }
  }

  /** A pushing pass adds one NewChild and keeps the earlier ones. */
  lemma NewChildren(nodes0: seq<Node>, g0: map<Board, nat>, nodesB: seq<Node>, gB: map<Board, nat>,
                    nodes: seq<Node>, gScores: map<Board, nat>, cur: nat, g: nat, neighbor: Board)
    requires |nodes0| <= |nodesB| && forall j :: |nodes0| <= j < |nodesB| ==> NewChild(nodesB[j], cur, g, g0, gB)
    requires forall s :: s in g0 ==> s in gB && gB[s] <= g0[s]
    requires !(neighbor in gB && g + 1 >= gB[neighbor]) && gScores == gB[neighbor := g + 1]
    requires |nodes| == |nodesB| + 1 && nodes[..|nodesB|] == nodesB
    requires nodes[|nodesB|].state == neighbor && nodes[|nodesB|].parent == Some(cur) && nodes[|nodesB|].g == g + 1
    ensures forall j :: |nodes0| <= j < |nodes| ==> NewChild(nodes[j], cur, g, g0, gScores)
  {
    forall j | |nodes0| <= j < |nodes|
      ensures NewChild(nodes[j], cur, g, g0, gScores)
    {
      if j < |nodesB| {
        assert nodes[j] == nodesB[j];
        if nodes[j].state == neighbor {
          assert g + 1 < gB[neighbor];
        }
      }
    }
  }

  lemma SubsetTrans<T>(a: set<T>, b: set<T>, c: set<T>)
    requires a <= b && b <= c
    ensures a <= c
  {
  }

  /** After a_star has closed a new board and expanded it, the invariant
      holds again. */
  lemma ExpandKeepsInv(nodes0: seq<Node>, open0: seq<Entry>, g0: map<Board, nat>, closed0: set<Board>,
                       counter0: nat, explored0: nat, m: nat,
                       nodes: seq<Node>, open: seq<Entry>, gScores: map<Board, nat>, counter: nat,
                       initial: Board, goal: Board, hk: Heuristic)
    requires Inv(nodes0, open0, g0, closed0, counter0, explored0, initial, goal, hk)
    requires m < |open0|
    requires var s := nodes0[open0[m].counter].state; s != goal && s !in closed0 && explored0 < MaxExplored
    requires var rest, cur := open0[..m] + open0[m + 1..], open0[m].counter;
      Playable(nodes0[cur].state) && ArenaOk(nodes, initial, hk) && OpenOk(open, nodes, counter) &&
      Waiting(rest, nodes0) <= Waiting(open, nodes) &&
      (forall nb :: nb in Neighbors(nodes0[cur].state) ==> nb in gScores) &&
      (forall s :: s in gScores ==> s in g0 || s in Waiting(open, nodes)) &&
      (forall s :: s in g0 ==> s in gScores)
    ensures var s := nodes0[open0[m].counter].state;
      Inv(nodes, open, gScores, closed0 + {s}, counter, explored0 + 1, initial, goal, hk)
  {
    var cur := open0[m].counter;
    var s := nodes0[cur].state;
    var rest := open0[..m] + open0[m + 1..];
    OpenRemove(open0, nodes0, counter0, m);
    assert NodeOk(nodes0, cur, initial, hk);
    var closed := closed0 + {s};
    assert Covered(closed, gScores) by {
      forall c | c in closed
        ensures Playable(c) && forall nb :: nb in Neighbors(c) ==> nb in gScores
      {
        if c != s {
          assert c in closed0;
        }
      }
    }
    assert Tracked(gScores, closed, open, nodes) by {
      forall t | t in gScores
        ensures t in closed || t in Waiting(open, nodes)
      {
        if t in g0 && t !in Waiting(open, nodes) {
          assert t in closed0 || t in Waiting(open0, nodes0);
        }
      }
    }
  }

  /** Popping an entry whose board is already closed keeps the invariant. */
  lemma SkipKeepsInv(nodes: seq<Node>, open0: seq<Entry>, gScores: map<Board, nat>, closed: set<Board>,
                     counter: nat, explored: nat, m: nat, initial: Board, goal: Board, hk: Heuristic)
    requires Inv(nodes, open0, gScores, closed, counter, explored, initial, goal, hk)
    requires m < |open0| && nodes[open0[m].counter].state in closed
    ensures Inv(nodes, open0[..m] + open0[m + 1..], gScores, closed, counter, explored, initial, goal, hk)
  {
    OpenRemove(open0, nodes, counter, m);
    var rest := open0[..m] + open0[m + 1..];
    forall t | t in gScores
      ensures t in closed || t in Waiting(rest, nodes)
    {
      assert t in closed || t in Waiting(open0, nodes);
    }
  }

  // ---------------------------------------------------------------------
  // The search

  /** The state a_star starts from satisfies the invariant. */
  lemma StartInv(startNode: Node, initial: Board, goal: Board, hk: Heuristic)
    requires Playable(initial) && startNode.state == initial && startNode.parent.None?
    requires startNode.g == 0 && startNode.h == Cost(hk, initial) && startNode.f == startNode.g + startNode.h
    ensures Inv([startNode], [Entry(startNode.f, 0)], map[initial := 0], {}, 1, 0, initial, goal, hk)
  {
    var nodes, open := [startNode], [Entry(startNode.f, 0)];
    assert NodeOk(nodes, 0, initial, hk);
    assert open[0].counter < |nodes| && nodes[open[0].counter].state == initial;
    assert initial in Waiting(open, nodes);
  }

  /** What a_star needs of the popped entry before expanding its board. */
  lemma PopFacts(nodes: seq<Node>, open: seq<Entry>, counter: nat, m: nat, initial: Board, hk: Heuristic)
    requires ArenaOk(nodes, initial, hk) && OpenOk(open, nodes, counter) && m < |open|
    ensures open[m].counter < |nodes| && Playable(nodes[open[m].counter].state)
    ensures OpenOk(open[..m] + open[m + 1..], nodes, counter)
  {
    OpenRemove(open, nodes, counter, m);
    assert NodeOk(nodes, open[m].counter, initial, hk);
  }

  /** When the popped board is the goal, its parent chain is a walk from the
      initial board to the goal; if the search started on the goal, the
      chain is that one board. */
  lemma FoundGoal(nodes: seq<Node>, open: seq<Entry>, gScores: map<Board, nat>, closed: set<Board>,
                  counter: nat, explored: nat, m: nat, initial: Board, goal: Board, hk: Heuristic)
    requires Inv(nodes, open, gScores, closed, counter, explored, initial, goal, hk)
    requires m < |open| && nodes[open[m].counter].state == goal
    ensures var path := PathTo(nodes, open[m].counter);
      IsWalk(path) && path[0] == initial && Last(path) == goal &&
      (initial == goal ==> path == [initial])
  {
    PathToWalk(nodes, open[m].counter, initial, hk);
    if initial == goal {
      assert m == 0 && open[m].counter == 0;
      assert NodeOk(nodes, 0, initial, hk);
    }
  }

  /** When the heap is empty, the closed set contains the initial board,
      misses the goal and holds every successor of its members, so no walk
      reaches the goal. */
  lemma Exhausted(nodes: seq<Node>, open: seq<Entry>, gScores: map<Board, nat>, closed: set<Board>,
                  counter: nat, explored: nat, initial: Board, goal: Board, hk: Heuristic)
    requires Inv(nodes, open, gScores, closed, counter, explored, initial, goal, hk) && |open| == 0
    ensures !Reachable(initial, goal)
  {
    assert ClosedUnderMoves(closed) by {
      forall c | c in closed
        ensures Playable(c) && forall nb :: nb in Neighbors(c) ==> nb in closed
      {
        forall nb | nb in Neighbors(c)
          ensures nb in closed
        {
          assert nb in gScores;
        }
      }
    }
    assert initial in closed;
    NoEscape(closed, initial, goal);
  }

  /** Every board of the arena is reached from the initial board by the
      walk of its parent chain. */
  lemma NodeReachable(nodes: seq<Node>, k: nat, initial: Board, hk: Heuristic)
    requires ArenaOk(nodes, initial, hk) && k < |nodes|
    ensures Reachable(initial, nodes[k].state)
  {
    PathToWalk(nodes, k, initial, hk);
    var w := PathTo(nodes, k);
    assert IsWalk(w) && w[0] == initial && Last(w) == nodes[k].state;
  }

  /** a_star. A returned path is a walk of legal moves from the initial
      board to the goal; a start on the goal returns just that board; and an
      exhausted heap means no walk reaches the goal. The closed set holds
      distinct boards that the search reached from the initial board, never
      the goal, at most MaxExplored + 1 of them, and exactly that many when
      the ceiling is hit. */
  method AStar(initialState: Board, goalState: Board, heuristic: string)
    returns (res: Outcome, closed: set<Board>)
    requires Playable(initialState)
    ensures res.Solved? ==> IsWalk(res.path) && res.path[0] == initialState && Last(res.path) == goalState
    ensures initialState == goalState ==> res == Solved([initialState])
    ensures res.NoSolution? ==> !Reachable(initialState, goalState)
    ensures forall c :: c in closed ==> Reachable(initialState, c)
    ensures |closed| <= MaxExplored + 1 && goalState !in closed
    ensures res.LimitExceeded? ==> |closed| == MaxExplored + 1
  {
    ghost var hk := Select(heuristic);
    var startNode := NewNode(initialState, None, 0, heuristic);
    var open := [Entry(startNode.f, 0)];
    var counter := 1;
    var nodes := [startNode];
    var gScores := map[initialState := 0];
    var closedSet: set<Board> := {};
    var explored := 0;
    StartInv(startNode, initialState, goalState, hk);

    while |open| > 0
      invariant Inv(nodes, open, gScores, closedSet, counter, explored, initialState, goalState, hk)
      invariant forall c :: c in closedSet ==> Reachable(initialState, c)
      decreases MaxExplored - explored, |open|
    {
      var m := PopMin(open);
      var entry := open[m];
      PopFacts(nodes, open, counter, m, initialState, hk);
      var currentNode := nodes[entry.counter];

      if currentNode.state == goalState {
        var path := ReconstructPath(nodes, entry.counter);
        FoundGoal(nodes, open, gScores, closedSet, counter, explored, m, initialState, goalState, hk);
        closed := closedSet;
        return Solved(path), closed;
      }

      if currentNode.state in closedSet {
        SkipKeepsInv(nodes, open, gScores, closedSet, counter, explored, m, initialState, goalState, hk);
        open := open[..m] + open[m + 1..];
        continue;
      }

      ghost var nodes0, open0, g0, closed0, counter0, explored0 := nodes, open, gScores, closedSet, counter, explored;
      NodeReachable(nodes, entry.counter, initialState, hk);
      closedSet := closedSet + {currentNode.state};
      explored := explored + 1;
      if explored > MaxExplored {
        closed := closedSet;
        return LimitExceeded, closed;
      }

      nodes, open, gScores, counter :=
        Expand(nodes, open[..m] + open[m + 1..], gScores, counter, entry.counter, initialState, heuristic);
      ExpandKeepsInv(nodes0, open0, g0, closed0, counter0, explored0, m,
                     nodes, open, gScores, counter, initialState, goalState, hk);
    }

    Exhausted(nodes, open, gScores, closedSet, counter, explored, initialState, goalState, hk);
    closed := closedSet;
    return NoSolution, closed;
  }
}
