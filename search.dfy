/**
 * The weighted best-first search `solve`. A search node records a board, its
 * blank, its heuristic, the number of moves from the start and the node it
 * was reached from. The queue pops a node of least priority
 * `heuristic * 2 + steps`; the popped node is expanded into its neighbours,
 * except a neighbour equal to the board of the popped node's predecessor,
 * and the search stops once the node it last popped is a goal. The answer is
 * read off by walking the predecessor links back to the start: the cells the
 * blank visits (BoardUtil.js) or the boards passed through (BoardUtil2.js).
 */
module Search {
  import opened Boards
  import opened Heuristics
  import opened Neighbors

  /** HEURISTIC_FACTOR: the weight of the heuristic in a node's priority. */
  const HeuristicFactor := 2

  datatype Node = Node(tiles: Board, blankRow: int, blankCol: int, heuristic: int, steps: nat, previous: Option<Node>)

  /** How solve ends: with an answer, with an empty queue, or out of fuel. */
  datatype Outcome<T> = Found(answer: T) | Exhausted | GaveUp

  /** The priority of a node; the queue pops a least one first. */
  function Priority(n: Node): int
  {
    n.heuristic * HeuristicFactor + n.steps
  }

  /**
   * compare: negative, zero or positive as n1's priority is below, equal to
   * or above n2's.
   */
  function Compare(n1: Node, n2: Node): (d: int)
    ensures d < 0 <==> Priority(n1) < Priority(n2)
    ensures d == 0 <==> Priority(n1) == Priority(n2)
  {
    var priority1 := n1.heuristic * HeuristicFactor + n1.steps;
    var priority2 := n2.heuristic * HeuristicFactor + n2.steps;
    priority1 - priority2
  }

  // ---------------------------------------------------------------------------
  // Nodes and their predecessor chains

  /** The start node of solve. */
  function Initial(tiles: Board, blankRow: int, blankCol: int): Node
    requires IsSquare(tiles)
  {
    Node(tiles, blankRow, blankCol, HeuristicValue(tiles), 0, None)
  }

  /**
   * Every node on the chain from n back to the start is well formed: its
   * blank is in bounds, its heuristic is the heuristic of its board, and,
   * when it has a predecessor p, it has one more step than p, its blank is
   * next to p's, its board is p's board with the two blank cells swapped, and
   * its board differs from the board of p's predecessor.
   */
  ghost predicate Linked(n: Node)
    decreases n
  {
    IsSquare(n.tiles) && InBounds(|n.tiles|, n.blankRow, n.blankCol) && n.heuristic == HeuristicValue(n.tiles) &&
    match n.previous
    case None => n.steps == 0
    case Some(p) =>
      Linked(p) && n.steps == p.steps + 1 && |n.tiles| == |p.tiles| &&
      Adjacent(p.blankRow, p.blankCol, n.blankRow, n.blankCol) &&
      n.tiles == Swap(p.tiles, p.blankRow, p.blankCol, n.blankRow, n.blankCol) &&
      (p.previous.Some? ==> n.tiles != p.previous.value.tiles)
  }

  /** The first node of n's chain. */
  function Root(n: Node): Node
    decreases n
  {
    match n.previous
    case None => n
    case Some(p) => Root(p)
  }

  /** Every queued node has a well-formed chain that starts at `start`. */
  ghost predicate QueueValid(queue: seq<Node>, start: Node)
  {
    forall n :: n in queue ==> Linked(n) && Root(n) == start
  }

  // ---------------------------------------------------------------------------
  // The priority queue

  /** The index of the first node of least priority. */
  function MinIndex(queue: seq<Node>): (k: nat)
    requires |queue| > 0
    ensures k < |queue| && forall i :: 0 <= i < |queue| ==> Priority(queue[k]) <= Priority(queue[i])
  {
    if |queue| == 1 then 0
    else
      var k := MinIndex(queue[1..]);
      if Compare(queue[0], queue[k + 1]) <= 0 then 0 else k + 1
  }

  /** queue.pop(): removes and returns a node of least priority. */
  method Pop(queue: seq<Node>) returns (node: Node, rest: seq<Node>)
    requires |queue| > 0
    ensures node in queue && forall i :: 0 <= i < |queue| ==> Priority(node) <= Priority(queue[i])
    ensures multiset(rest) + multiset{node} == multiset(queue)
    ensures forall x :: x in rest ==> x in queue
  {
    var k := MinIndex(queue);
    node := queue[k];
    rest := queue[..k] + queue[k + 1..];
    assert queue == queue[..k] + [node] + queue[k + 1..];
  }

  // ---------------------------------------------------------------------------
  // Expanding a node

  /** A neighbour equal to the board of the parent's predecessor is skipped. */
  predicate Skipped(parent: Node, nb: Neighbor)
  {
    parent.previous.Some? && nb.tiles == parent.previous.value.tiles
  }

  /** The node pushed for neighbour nb of parent. */
  function Child(parent: Node, nb: Neighbor): Node
    requires IsSquare(nb.tiles)
  {
    Node(nb.tiles, nb.blankRow, nb.blankCol, HeuristicValue(nb.tiles), parent.steps + 1, Some(parent))
  }

  /** The nodes pushed for the neighbours ns of parent, in order. */
  function Children(parent: Node, ns: seq<Neighbor>): seq<Node>
    requires forall i :: 0 <= i < |ns| ==> IsSquare(ns[i].tiles)
  {
    if ns == [] then []
    else
      var last := ns[|ns| - 1];
      Children(parent, ns[..|ns| - 1]) + (if Skipped(parent, last) then [] else [Child(parent, last)])
  }

  /**
   * Every pushed node extends a well-formed chain by one move: one more
   * step, the parent as predecessor, and never the board of the parent's
   * predecessor.
   */
  lemma {:induction false} ChildrenLinked(parent: Node, ns: seq<Neighbor>)
    requires Linked(parent)
    requires forall i :: 0 <= i < |ns| ==> IsSquare(ns[i].tiles)
    requires forall i :: 0 <= i < |ns| ==> IsMove(parent.tiles, parent.blankRow, parent.blankCol, ns[i])
    ensures forall k :: 0 <= k < |Children(parent, ns)| ==>
              var c := Children(parent, ns)[k];
              Linked(c) && Root(c) == Root(parent) && c.previous == Some(parent) && c.steps == parent.steps + 1
  {
    if ns != [] {
      var init, last := ns[..|ns| - 1], ns[|ns| - 1];
      ChildrenLinked(parent, init);
      assert IsMove(parent.tiles, parent.blankRow, parent.blankCol, last);
      if !Skipped(parent, last) {
        var c := Child(parent, last);
        assert Linked(c);
      }
    }
  }

  /** The for loop of solve over the neighbour list: pushes the children of parent. */
  method PushChildren(queue: seq<Node>, parent: Node, neighborList: seq<Neighbor>) returns (queue': seq<Node>)
    requires forall i :: 0 <= i < |neighborList| ==> IsSquare(neighborList[i].tiles)
    requires parent.previous.Some? ==> IsSquare(parent.previous.value.tiles)
    ensures queue' == queue + Children(parent, neighborList)
  {
    queue' := queue;
    for i := 0 to |neighborList|
      invariant queue' == queue + Children(parent, neighborList[..i])
    {
      var nextNeighbor := neighborList[i];
      assert neighborList[..i + 1][..i] == neighborList[..i];
      if parent.previous.Some? {
        var same := DeepEqual(nextNeighbor.tiles, parent.previous.value.tiles);
        if same {
          continue;
        }
      }
      var h := Heuristic(nextNeighbor.tiles);
      queue' := queue' + [Node(nextNeighbor.tiles, nextNeighbor.blankRow, nextNeighbor.blankCol, h, parent.steps + 1, Some(parent))];
    }
    assert neighborList[..|neighborList|] == neighborList;
  }

  /**
   * One pass of solve's loop: pops a node of least priority and pushes its
   * children. The new queue is exactly the old one without the popped node,
   * followed by the children in neighbour order.
   */
  method Expand(queue: seq<Node>, ghost start: Node) returns (searchNode: Node, queue': seq<Node>, ghost rest: seq<Node>)
    requires |queue| > 0 && QueueValid(queue, start)
    ensures Linked(searchNode) && Root(searchNode) == start && QueueValid(queue', start)
    ensures searchNode in queue && forall i :: 0 <= i < |queue| ==> Priority(searchNode) <= Priority(queue[i])
    ensures multiset(rest) + multiset{searchNode} == multiset(queue)
    ensures queue' == rest + Children(searchNode, NeighborsOf(searchNode.tiles, searchNode.blankRow, searchNode.blankCol))
  {
    var remaining;
    searchNode, remaining := Pop(queue);
    rest := remaining;
    var tiles := ToArray(searchNode.tiles);
    var neighborList := Neighbors.Neighbors(tiles, searchNode.blankRow, searchNode.blankCol);
    NeighborsAreMoves(searchNode.tiles, searchNode.blankRow, searchNode.blankCol);
    queue' := PushChildren(remaining, searchNode, neighborList);
    ChildrenLinked(searchNode, neighborList);
    assert QueueValid(remaining, start);
  }

  /**
   * The search loop of solve, starting from the node for the given board.
   * It ends with a goal node whose chain starts at the start node, or with
   * an empty queue (where the original fails on the missing node), or when
   * the fuel, a bound on the number of passes, runs out.
   */
  method SearchGoal(tiles: Board, blankRow: int, blankCol: int, fuel: nat) returns (outcome: Outcome<Node>)
    requires IsSquare(tiles) && InBounds(|tiles|, blankRow, blankCol)
    ensures outcome.Found? ==>
              Linked(outcome.answer) && Root(outcome.answer) == Initial(tiles, blankRow, blankCol) &&
              AtGoal(outcome.answer.tiles)
    ensures AtGoal(tiles) ==> outcome == Found(Initial(tiles, blankRow, blankCol))
  {
    var h := Heuristic(tiles);
    var initial := Node(tiles, blankRow, blankCol, h, 0, None);
    var queue := [initial];
    var searchNode := initial;
    var goal := IsGoal(searchNode.tiles);
    var remaining := fuel;
    while !goal
      invariant Linked(searchNode) && Root(searchNode) == initial && QueueValid(queue, initial)
      invariant goal == AtGoal(searchNode.tiles)
      invariant AtGoal(tiles) ==> searchNode == initial
      decreases remaining
    {
      if remaining == 0 {
        return GaveUp;
      }
      remaining := remaining - 1;
      if |queue| == 0 {
        return Exhausted;
      }
      ghost var rest;
      searchNode, queue, rest := Expand(queue, initial);
      goal := IsGoal(searchNode.tiles);
    }
    return Found(searchNode);
  }

  // ---------------------------------------------------------------------------
  // Reading off the answer

  /** The cells the blank occupies along n's chain, from the start to n. */
  function PathOf(n: Node): (path: seq<Pos>)
    decreases n
  {
    match n.previous
    case None => [Pos(n.blankRow, n.blankCol)]
    case Some(p) => PathOf(p) + [Pos(n.blankRow, n.blankCol)]
  }

  /** The boards along n's chain, from the one after the start to n's. */
  function BoardsOf(n: Node): seq<Board>
    decreases n
  {
    match n.previous
    case None => []
    case Some(p) => BoardsOf(p) + [n.tiles]
  }

  /** The cells of a path follow one another by single moves. */
  ghost predicate Walk(path: seq<Pos>)
  {
    forall i :: 0 <= i < |path| - 1 ==> Adjacent(path[i].row, path[i].col, path[i + 1].row, path[i + 1].col)
  }

  /** The board `after` is `before` with the blank moved from `from` to the adjacent `to`. */
  ghost predicate OneMove(before: Board, from: Pos, to: Pos, after: Board)
  {
    IsSquare(before) && InBounds(|before|, from.row, from.col) && InBounds(|before|, to.row, to.col) &&
    Adjacent(from.row, from.col, to.row, to.col) && after == Swap(before, from.row, from.col, to.row, to.col)
  }

  /**
   * The blank path of a well-formed chain has one cell more than the chain
   * has steps, starts at the start node's blank, and moves one cell at a time.
   */
  lemma {:induction false} PathFacts(n: Node)
    requires Linked(n)
    ensures |PathOf(n)| == n.steps + 1
    ensures PathOf(n)[0] == Pos(Root(n).blankRow, Root(n).blankCol)
    ensures PathOf(n)[|PathOf(n)| - 1] == Pos(n.blankRow, n.blankCol)
    ensures Walk(PathOf(n))
    decreases n
  {
    match n.previous
    case None =>
    case Some(p) =>
      PathFacts(p);
  }

  /**
   * The boards of a well-formed chain: one per step, the last being n's, each
   * one move on from the one before it (the first from the start's board),
   * the blank moving along the chain's blank path.
   */
  lemma {:induction false} BoardsFacts(n: Node)
    requires Linked(n)
    ensures |BoardsOf(n)| == n.steps
    ensures |BoardsOf(n)| > 0 ==> BoardsOf(n)[|BoardsOf(n)| - 1] == n.tiles
    ensures |PathOf(n)| == n.steps + 1
    ensures forall i :: 0 <= i < |BoardsOf(n)| ==>
              OneMove(if i == 0 then Root(n).tiles else BoardsOf(n)[i - 1], PathOf(n)[i], PathOf(n)[i + 1], BoardsOf(n)[i])
    decreases n
  {
    PathFacts(n);
    match n.previous
    case None =>
    case Some(p) =>
      BoardsFacts(p);
      PathFacts(p);
      var bs, ps := BoardsOf(n), PathOf(n);
      assert BoardsOf(p) == bs[..|bs| - 1];
      assert PathOf(p) == ps[..|ps| - 1];
      var last := |bs| - 1;
      assert OneMove(if last == 0 then Root(n).tiles else bs[last - 1], ps[last], ps[last + 1], bs[last]) by {
        if last > 0 {
          assert BoardsOf(p)[last - 1] == p.tiles;
        }
      }
  }

  /** The elements of s in reverse order. */
  function Reverse<T>(s: seq<T>): (r: seq<T>)
    ensures |r| == |s| && forall i :: 0 <= i < |s| ==> r[i] == s[|s| - 1 - i]
  {
    if s == [] then [] else Reverse(s[1..]) + [s[0]]
  }

  /** Reversing a sequence with one more element at the end puts it in front. */
  lemma ReverseAppend<T>(s: seq<T>, x: T)
    ensures Reverse(s + [x]) == [x] + Reverse(s)
  {
  }

  /**
   * The reconstruction loop of solve in BoardUtil.js: walks the chain from
   * the goal back to the start collecting the blank's cells, reverses them,
   * and drops the first (the start's blank).
   */
  method CollectMoves(goal: Node) returns (solution: seq<Pos>)
    ensures solution == PathOf(goal)[1..]
  {
    var collected: seq<Pos> := [];
    var searchNode: Option<Node> := Some(goal);
    while searchNode.Some?
      invariant (if searchNode.Some? then PathOf(searchNode.value) else []) + Reverse(collected) == PathOf(goal)
      decreases searchNode
    {
      var n := searchNode.value;
      ReverseAppend(collected, Pos(n.blankRow, n.blankCol));
      collected := collected + [Pos(n.blankRow, n.blankCol)];
      searchNode := n.previous;
    }
    var reversed := Reverse(collected);
    assert |reversed| > 0 by {
      PathNonEmpty(goal);
    }
    solution := reversed[1..];
  }

  /** A blank path has at least the start's cell. */
  lemma PathNonEmpty(n: Node)
    ensures |PathOf(n)| >= 1
  {
    match n.previous
    case None =>
    case Some(p) =>
  }

  /**
   * The reconstruction loop of solve in BoardUtil2.js: walks the chain from
   * the goal back to the node after the start collecting boards, and
   * reverses them.
   */
  method CollectSnapshots(goal: Node) returns (solution: seq<Board>)
    ensures solution == BoardsOf(goal)
  {
    var collected: seq<Board> := [];
    var searchNode := goal;
    while searchNode.previous.Some?
      invariant BoardsOf(searchNode) + Reverse(collected) == BoardsOf(goal)
      decreases searchNode
    {
      ReverseAppend(collected, searchNode.tiles);
      collected := collected + [searchNode.tiles];
      searchNode := searchNode.previous.value;
    }
    solution := Reverse(collected);
  }

  /** Each move of `moves` is next to the one before it, the first next to `start`. */
  ghost predicate MovesFrom(start: Pos, moves: seq<Pos>)
  {
    forall i :: 0 <= i < |moves| ==>
      var from := if i == 0 then start else moves[i - 1];
      Adjacent(from.row, from.col, moves[i].row, moves[i].col)
  }

  /**
   * The board reached from b by moving its blank from `start` to each cell of
   * `moves` in turn, as a player replays the answer of solve. A move that
   * leaves the board is ignored.
   */
  ghost function Replay(b: Board, start: Pos, moves: seq<Pos>): (r: Board)
    ensures IsSquare(b) ==> IsSquare(r) && |r| == |b|
    decreases |moves|
  {
    if moves == [] then b
    else
      var prev := Replay(b, start, moves[..|moves| - 1]);
      var from := if |moves| == 1 then start else moves[|moves| - 2];
      var to := moves[|moves| - 1];
      if IsSquare(prev) && InBounds(|prev|, from.row, from.col) && InBounds(|prev|, to.row, to.col)
      then Swap(prev, from.row, from.col, to.row, to.col)
      else prev
  }

  /**
   * Replaying the blank path of a well-formed chain from the start node's
   * board and blank gives the node's board.
   */
  lemma {:induction false} ReplayPath(n: Node)
    requires Linked(n)
    ensures |PathOf(n)| >= 1
    ensures Replay(Root(n).tiles, Pos(Root(n).blankRow, Root(n).blankCol), PathOf(n)[1..]) == n.tiles
    decreases n
  {
    PathNonEmpty(n);
    match n.previous
    case None =>
    case Some(p) =>
      ReplayPath(p);
      PathFacts(p);
      var moves := PathOf(n)[1..];
      assert moves[..|moves| - 1] == PathOf(p)[1..];
      assert moves[|moves| - 1] == Pos(n.blankRow, n.blankCol);
      if |moves| == 1 {
        assert p.previous == None;
      } else {
        assert moves[|moves| - 2] == PathOf(p)[|PathOf(p)| - 1];
      }
  }

  // ---------------------------------------------------------------------------
  // solve

  /**
   * solve (BoardUtil.js): the cells the blank moves to, in order, on the
   * way to the goal board the search found. There are as many as the goal
   * node has steps, each next to the one before it, the first next to the
   * starting blank; a starting board that is already a goal gives none.
   */
  method Solve(tiles: Board, blankRow: int, blankCol: int, fuel: nat) returns (outcome: Outcome<seq<Pos>>, ghost goal: Node)
    requires IsSquare(tiles) && InBounds(|tiles|, blankRow, blankCol)
    ensures outcome.Found? ==>
              Linked(goal) && Root(goal) == Initial(tiles, blankRow, blankCol) && AtGoal(goal.tiles) &&
              outcome.answer == PathOf(goal)[1..] && |outcome.answer| == goal.steps &&
              MovesFrom(Pos(blankRow, blankCol), outcome.answer)
    ensures outcome.Found? ==> AtGoal(Replay(tiles, Pos(blankRow, blankCol), outcome.answer))
    ensures AtGoal(tiles) ==> outcome == Found([])
  {
    var searched := SearchGoal(tiles, blankRow, blankCol, fuel);
    if !searched.Found? {
      goal := Initial(tiles, blankRow, blankCol);
      return if searched.Exhausted? then Exhausted else GaveUp, goal;
    }
    var last := searched.answer;
    goal := last;
    var solution := CollectMoves(last);
    PathFacts(goal);
    ReplayPath(goal);
    outcome := Found(solution);
  }

  /**
   * solve (BoardUtil2.js): the boards passed through on the way to the goal
   * board the search found, the start excluded. There are as many as the
   * goal node has steps, the last is a goal, and each is one move of the
   * blank on from the board before it (the first from the start); a starting
   * board that is already a goal gives none.
   */
  method SolveSnapshots(tiles: Board, blankRow: int, blankCol: int, fuel: nat) returns (outcome: Outcome<seq<Board>>, ghost goal: Node)
    requires IsSquare(tiles) && InBounds(|tiles|, blankRow, blankCol)
    ensures outcome.Found? ==>
              Linked(goal) && Root(goal) == Initial(tiles, blankRow, blankCol) && AtGoal(goal.tiles) &&
              outcome.answer == BoardsOf(goal) && |outcome.answer| == goal.steps &&
              (|outcome.answer| > 0 ==> AtGoal(outcome.answer[|outcome.answer| - 1]))
    ensures outcome.Found? ==>
              |PathOf(goal)| == |outcome.answer| + 1 && PathOf(goal)[0] == Pos(blankRow, blankCol) &&
              forall i :: 0 <= i < |outcome.answer| ==>
                OneMove(if i == 0 then tiles else outcome.answer[i - 1], PathOf(goal)[i], PathOf(goal)[i + 1], outcome.answer[i])
    ensures AtGoal(tiles) ==> outcome == Found([])
  {
    var searched := SearchGoal(tiles, blankRow, blankCol, fuel);
    if !searched.Found? {
      goal := Initial(tiles, blankRow, blankCol);
      return if searched.Exhausted? then Exhausted else GaveUp, goal;
    }
    var last := searched.answer;
    goal := last;
    var solution := CollectSnapshots(last);
    BoardsFacts(goal);
    PathFacts(goal);
    outcome := Found(solution);
  }
}
