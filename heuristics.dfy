/**
 * The search heuristics: the Manhattan distance of every tile to its goal
 * cell, the linear-conflict count (pairs of tiles that sit in their goal row,
 * or goal column, in reversed order), their combination
 * `manhattan + 2 * linearConflict`, and the goal test `manhattan == 0`.
 *
 * Each loop of the original is specified by a sum over the cells it visits,
 * taken in the order it visits them.
 */
module Heuristics {
  import opened Boards

  // ---------------------------------------------------------------------------
  // Manhattan distance

  /** How far tile t, found in cell (r, c), is from its goal cell; the blank counts 0. */
  function TileDistance(t: int, r: int, c: int, n: int): nat
    requires n > 0
  {
    if t == 0 then 0
    else
      var goal := GoalPosition(t, n);
      Abs(goal.row - r) + Abs(goal.col - c)
  }

  /** The distances of the first k cells of row r. */
  function RowDistance(b: Board, r: int, k: int): nat
    requires IsSquare(b) && 0 <= r < |b| && 0 <= k <= |b|
  {
    if k == 0 then 0
    else RowDistance(b, r, k - 1) + TileDistance(b[r][k - 1], r, k - 1, |b|)
  }

  /** The distances of every cell of the first k rows. */
  function RowsDistance(b: Board, k: int): nat
    requires IsSquare(b) && 0 <= k <= |b|
  {
    if k == 0 then 0
    else RowsDistance(b, k - 1) + RowDistance(b, k - 1, |b|)
  }

  /** What manhattan computes: the distances of all cells. */
  function ManhattanDistance(b: Board): nat
    requires IsSquare(b)
  {
    RowsDistance(b, |b|)
  }

  /** Every non-blank tile sits in the cell getGoalPosition names for it. */
  ghost predicate AtGoal(b: Board)
    requires IsSquare(b)
  {
    forall r, c :: InBounds(|b|, r, c) && b[r][c] != 0 ==> GoalPosition(b[r][c], |b|) == Pos(r, c)
  }

  // ---------------------------------------------------------------------------
  // Linear conflicts

  /**
   * The row pass counts columns c1 <= c2 of row `row` whose tiles are both
   * non-blank, both have their goal on that row, and have their goal columns
   * in reversed order.
   */
  predicate RowConflict(b: Board, row: int, c1: int, c2: int)
    requires IsSquare(b) && InBounds(|b|, row, c1) && InBounds(|b|, row, c2)
  {
    var t1, t2 := b[row][c1], b[row][c2];
    t1 != 0 && t2 != 0 &&
    var g1, g2 := GoalPosition(t1, |b|), GoalPosition(t2, |b|);
    g1.row == row && g2.row == row && g1.col > g2.col
  }

  /** The column pass: the same test with rows and columns exchanged. */
  predicate ColConflict(b: Board, col: int, r1: int, r2: int)
    requires IsSquare(b) && InBounds(|b|, r1, col) && InBounds(|b|, r2, col)
  {
    var t1, t2 := b[r1][col], b[r2][col];
    t1 != 0 && t2 != 0 &&
    var g1, g2 := GoalPosition(t1, |b|), GoalPosition(t2, |b|);
    g1.col == col && g2.col == col && g1.row > g2.row
  }

  /** Conflicts of column c1 of row `row` with the columns c1, ..., k - 1. */
  function RowPairs(b: Board, row: int, c1: int, k: int): nat
    requires IsSquare(b) && 0 <= row < |b| && 0 <= c1 <= k <= |b|
    decreases k
  {
    if k == c1 then 0
    else RowPairs(b, row, c1, k - 1) + (if RowConflict(b, row, c1, k - 1) then 1 else 0)
  }

  /** Conflicts of the first k columns of row `row` with the columns after them. */
  function RowConflicts(b: Board, row: int, k: int): nat
    requires IsSquare(b) && 0 <= row < |b| && 0 <= k <= |b|
  {
    if k == 0 then 0
    else RowConflicts(b, row, k - 1) + RowPairs(b, row, k - 1, |b|)
  }

  /** The row pass over the first k rows. */
  function RowsConflicts(b: Board, k: int): nat
    requires IsSquare(b) && 0 <= k <= |b|
  {
    if k == 0 then 0
    else RowsConflicts(b, k - 1) + RowConflicts(b, k - 1, |b|)
  }

  /** Conflicts of row r1 of column `col` with the rows r1, ..., k - 1. */
  function ColPairs(b: Board, col: int, r1: int, k: int): nat
    requires IsSquare(b) && 0 <= col < |b| && 0 <= r1 <= k <= |b|
    decreases k
  {
    if k == r1 then 0
    else ColPairs(b, col, r1, k - 1) + (if ColConflict(b, col, r1, k - 1) then 1 else 0)
  }

  /** Conflicts of the first k rows of column `col` with the rows after them. */
  function ColConflicts(b: Board, col: int, k: int): nat
    requires IsSquare(b) && 0 <= col < |b| && 0 <= k <= |b|
  {
    if k == 0 then 0
    else ColConflicts(b, col, k - 1) + ColPairs(b, col, k - 1, |b|)
  }

  /** The column pass over the first k columns. */
  function ColsConflicts(b: Board, k: int): nat
    requires IsSquare(b) && 0 <= k <= |b|
  {
    if k == 0 then 0
    else ColsConflicts(b, k - 1) + ColConflicts(b, k - 1, |b|)
  }

  /** What linearConflict computes: the row pass plus the column pass. */
  function LinearConflicts(b: Board): nat
    requires IsSquare(b)
  {
    RowsConflicts(b, |b|) + ColsConflicts(b, |b|)
  }

  /** What heuristic computes. */
  function HeuristicValue(b: Board): nat
    requires IsSquare(b)
  {
    ManhattanDistance(b) + 2 * LinearConflicts(b)
  }

  // ---------------------------------------------------------------------------
  // The goal test

  /** A tile is at distance 0 exactly when it is the blank or sits at its goal. */
  lemma TileDistanceZero(t: int, r: int, c: int, n: int)
    requires n > 0
    ensures TileDistance(t, r, c, n) == 0 <==> t == 0 || GoalPosition(t, n) == Pos(r, c)
  {
  }

  /** The first k cells of row r contribute 0 exactly when each of them does. */
  lemma {:induction false} RowDistanceZero(b: Board, r: int, k: int)
    requires IsSquare(b) && 0 <= r < |b| && 0 <= k <= |b|
    ensures RowDistance(b, r, k) == 0 <==> forall c :: 0 <= c < k ==> TileDistance(b[r][c], r, c, |b|) == 0
  {
    if k > 0 {
      RowDistanceZero(b, r, k - 1);
    }
  }

  /** The first k rows contribute 0 exactly when each of their cells does. */
  lemma {:induction false} RowsDistanceZero(b: Board, k: int)
    requires IsSquare(b) && 0 <= k <= |b|
    ensures RowsDistance(b, k) == 0 <==>
            forall r, c :: 0 <= r < k && 0 <= c < |b| ==> TileDistance(b[r][c], r, c, |b|) == 0
  {
    if k > 0 {
      RowsDistanceZero(b, k - 1);
      RowDistanceZero(b, k - 1, |b|);
    }
  }

  /** isGoal: the Manhattan distance is 0 exactly when every tile is home. */
  lemma ManhattanZeroIffAtGoal(b: Board)
    requires IsSquare(b)
    ensures ManhattanDistance(b) == 0 <==> AtGoal(b)
  {
    RowsDistanceZero(b, |b|);
    if |b| > 0 {
      forall r, c | InBounds(|b|, r, c)
        ensures TileDistance(b[r][c], r, c, |b|) == 0 <==> b[r][c] == 0 || GoalPosition(b[r][c], |b|) == Pos(r, c)
      {
        TileDistanceZero(b[r][c], r, c, |b|);
      }
    }
  }

  /** The solved board has every tile at its goal. */
  lemma SolvedAtGoal(n: nat)
    ensures AtGoal(Solved(n))
  {
    var b := Solved(n);
    forall r, c | InBounds(n, r, c) && b[r][c] != 0
      ensures GoalPosition(b[r][c], n) == Pos(r, c)
    {
      GoalOfCell(r, c, n);
    }
  }

  // ---------------------------------------------------------------------------
  // Linear conflicts vanish at the goal

  /** Row `row`'s pairs from c1 up to k add up to 0 exactly when none conflicts. */
  lemma {:induction false} RowPairsZero(b: Board, row: int, c1: int, k: int)
    requires IsSquare(b) && 0 <= row < |b| && 0 <= c1 <= k <= |b|
    ensures RowPairs(b, row, c1, k) == 0 <==> forall c2 :: c1 <= c2 < k ==> !RowConflict(b, row, c1, c2)
    decreases k
  {
    if k > c1 {
      RowPairsZero(b, row, c1, k - 1);
    }
  }

  /** Column `col`'s pairs from r1 up to k add up to 0 exactly when none conflicts. */
  lemma {:induction false} ColPairsZero(b: Board, col: int, r1: int, k: int)
    requires IsSquare(b) && 0 <= col < |b| && 0 <= r1 <= k <= |b|
    ensures ColPairs(b, col, r1, k) == 0 <==> forall r2 :: r1 <= r2 < k ==> !ColConflict(b, col, r1, r2)
    decreases k
  {
    if k > r1 {
      ColPairsZero(b, col, r1, k - 1);
    }
  }

  /** At the goal, no row holds two tiles in reversed goal order. */
  lemma {:induction false} RowConflictsAtGoal(b: Board, row: int, k: int)
    requires IsSquare(b) && 0 <= row < |b| && 0 <= k <= |b| && AtGoal(b)
    ensures RowConflicts(b, row, k) == 0
  {
    if k > 0 {
      RowConflictsAtGoal(b, row, k - 1);
      RowPairsZero(b, row, k - 1, |b|);
    }
  }

  /** At the goal, no column holds two tiles in reversed goal order. */
  lemma {:induction false} ColConflictsAtGoal(b: Board, col: int, k: int)
    requires IsSquare(b) && 0 <= col < |b| && 0 <= k <= |b| && AtGoal(b)
    ensures ColConflicts(b, col, k) == 0
  {
    if k > 0 {
      ColConflictsAtGoal(b, col, k - 1);
      ColPairsZero(b, col, k - 1, |b|);
    }
  }

  /** At the goal, both passes count nothing. */
  lemma LinearConflictsAtGoal(b: Board)
    requires IsSquare(b) && AtGoal(b)
    ensures LinearConflicts(b) == 0
  {
    RowsPassAtGoal(b, |b|);
  }

  /** The first k rows and the first k columns count nothing at the goal. */
  lemma {:induction false} RowsPassAtGoal(b: Board, k: int)
    requires IsSquare(b) && 0 <= k <= |b| && AtGoal(b)
    ensures RowsConflicts(b, k) == 0 && ColsConflicts(b, k) == 0
  {
    if k > 0 {
      RowsPassAtGoal(b, k - 1);
      RowConflictsAtGoal(b, k - 1, |b|);
      ColConflictsAtGoal(b, k - 1, |b|);
    }
  }

  /**
   * The heuristic is 0 exactly on boards where every tile is home, which are
   * the boards isGoal accepts.
   */
  lemma HeuristicZeroIffAtGoal(b: Board)
    requires IsSquare(b)
    ensures HeuristicValue(b) == 0 <==> AtGoal(b)
    ensures HeuristicValue(b) == 0 <==> ManhattanDistance(b) == 0
  {
    ManhattanZeroIffAtGoal(b);
    if AtGoal(b) {
      LinearConflictsAtGoal(b);
    }
  }

  /** All three measures are 0 on the solved board. */
  lemma SolvedMeasuresZero(n: nat)
    ensures ManhattanDistance(Solved(n)) == 0
    ensures LinearConflicts(Solved(n)) == 0
    ensures HeuristicValue(Solved(n)) == 0
  {
    SolvedAtGoal(n);
    ManhattanZeroIffAtGoal(Solved(n));
    LinearConflictsAtGoal(Solved(n));
  }

  // ---------------------------------------------------------------------------
  // The operations

  /** manhattan: sums the distance of every non-blank tile to its goal cell. */
  method Manhattan(tiles: Board) returns (distance: int)
    requires IsSquare(tiles)
    ensures distance == ManhattanDistance(tiles)
  {
    var dim := |tiles|;
    distance := 0;
    for row := 0 to dim
      invariant distance == RowsDistance(tiles, row)
    {
      for col := 0 to dim
        invariant distance == RowsDistance(tiles, row) + RowDistance(tiles, row, col)
      {
        var tile := tiles[row][col];
        if tile == 0 {
          continue;
        }
        var goal := GoalPosition(tile, dim);
        distance := distance + Abs(goal.row - row) + Abs(goal.col - col);
      }
    }
  }

  /** The innermost loop of the row pass, for column col1 of row `row`. */
  method RowPairsLoop(tiles: Board, row: int, col1: int) returns (count: int)
    requires IsSquare(tiles) && 0 <= row < |tiles| && 0 <= col1 < |tiles|
    ensures count == RowPairs(tiles, row, col1, |tiles|)
  {
    var dim := |tiles|;
    count := 0;
    for col2 := col1 to dim
      invariant count == RowPairs(tiles, row, col1, col2)
    {
      var tile1 := tiles[row][col1];
      var tile2 := tiles[row][col2];
      if tile1 == 0 || tile2 == 0 {
        continue;
      }
      var goal1 := GoalPosition(tile1, dim);
      var goal2 := GoalPosition(tile2, dim);
      if goal1.row == row && goal2.row == row && goal1.col > goal2.col {
        count := count + 1;
      }
    }
  }

  /** The innermost loop of the column pass, for row row1 of column `col`. */
  method ColPairsLoop(tiles: Board, col: int, row1: int) returns (count: int)
    requires IsSquare(tiles) && 0 <= col < |tiles| && 0 <= row1 < |tiles|
    ensures count == ColPairs(tiles, col, row1, |tiles|)
  {
    var dim := |tiles|;
    count := 0;
    for row2 := row1 to dim
      invariant count == ColPairs(tiles, col, row1, row2)
    {
      var tile1 := tiles[row1][col];
      var tile2 := tiles[row2][col];
      if tile1 == 0 || tile2 == 0 {
        continue;
      }
      var goal1 := GoalPosition(tile1, dim);
      var goal2 := GoalPosition(tile2, dim);
      if goal1.col == col && goal2.col == col && goal1.row > goal2.row {
        count := count + 1;
      }
    }
  }

  /** linearConflict: the row pass, then the column pass. */
  method LinearConflict(tiles: Board) returns (linearConflicts: int)
    requires IsSquare(tiles)
    ensures linearConflicts == LinearConflicts(tiles)
  {
    var dim := |tiles|;
    linearConflicts := 0;
    for row := 0 to dim
      invariant linearConflicts == RowsConflicts(tiles, row)
    {
      for col1 := 0 to dim
        invariant linearConflicts == RowsConflicts(tiles, row) + RowConflicts(tiles, row, col1)
      {
        var count := RowPairsLoop(tiles, row, col1);
        linearConflicts := linearConflicts + count;
      }
    }
    for col := 0 to dim
      invariant linearConflicts == RowsConflicts(tiles, dim) + ColsConflicts(tiles, col)
    {
      for row1 := 0 to dim
        invariant linearConflicts == RowsConflicts(tiles, dim) + ColsConflicts(tiles, col) + ColConflicts(tiles, col, row1)
      {
        var count := ColPairsLoop(tiles, col, row1);
        linearConflicts := linearConflicts + count;
      }
    }
  }

  /**
   * heuristic: manhattan plus twice linearConflict. It is never negative, and
   * it is 0 exactly on boards where every tile is home.
   */
  method Heuristic(tiles: Board) returns (h: int)
    requires IsSquare(tiles)
    ensures h == HeuristicValue(tiles)
    ensures h >= 0 && (h == 0 <==> AtGoal(tiles))
  {
    var m := Manhattan(tiles);
    var lc := LinearConflict(tiles);
    h := m + 2 * lc;
    HeuristicZeroIffAtGoal(tiles);
  }

  /** isGoal: the Manhattan distance is 0, which is every tile being home. */
  method IsGoal(tiles: Board) returns (goal: bool)
    requires IsSquare(tiles)
    ensures goal <==> AtGoal(tiles)
  {
    var m := Manhattan(tiles);
    ManhattanZeroIffAtGoal(tiles);
    return m == 0;
  }
}
