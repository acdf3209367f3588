/**
 * Board primitives of the sliding-tile puzzle: the board as a value (a list of
 * rows) and as a mutable 2-D array, the in-place swap, the blank search, the
 * flat-index/coordinate conversion, the goal position of a tile, the solved
 * board and structural equality.
 */
module Boards {

  datatype Option<+T> = None | Some(value: T)

  /** A board as a value: a list of rows. Tile 0 is the blank. */
  type Board = seq<seq<int>>

  /** A cell of a board. */
  datatype Pos = Pos(row: int, col: int)

  /** Every row has as many cells as there are rows. */
  predicate IsSquare(b: Board) {
    forall r :: 0 <= r < |b| ==> |b[r]| == |b|
  }

  /** Every row has exactly w cells. */
  predicate IsRect(b: Board, w: int) {
    forall r :: 0 <= r < |b| ==> |b[r]| == w
  }

  predicate InBounds(n: int, r: int, c: int) {
    0 <= r < n && 0 <= c < n
  }

  /** The two cells share a side. */
  predicate Adjacent(r1: int, c1: int, r2: int, c2: int) {
    (r1 == r2 && (c1 == c2 + 1 || c2 == c1 + 1)) ||
    (c1 == c2 && (r1 == r2 + 1 || r2 == r1 + 1))
  }

  function Abs(x: int): nat {
    if x < 0 then -x else x
  }

  // ---------------------------------------------------------------------------
  // Boards as values

  /** The board with cell (r, c) replaced by v. */
  function WithCell(b: Board, r: int, c: int, v: int): (s: Board)
    requires 0 <= r < |b| && 0 <= c < |b[r]|
    ensures |s| == |b| && forall i :: 0 <= i < |b| ==> |s[i]| == |b[i]|
    ensures s[r][c] == v
    ensures forall i, j :: 0 <= i < |b| && 0 <= j < |b[i]| && !(i == r && j == c) ==> s[i][j] == b[i][j]
  {
    b[r := b[r][c := v]]
  }

  /** The board with the tiles of cells (r1, c1) and (r2, c2) exchanged. */
  function Swap(b: Board, r1: int, c1: int, r2: int, c2: int): (s: Board)
    requires IsSquare(b) && InBounds(|b|, r1, c1) && InBounds(|b|, r2, c2)
    ensures IsSquare(s) && |s| == |b|
    ensures s[r1][c1] == b[r2][c2] && s[r2][c2] == b[r1][c1]
    ensures forall r, c :: InBounds(|b|, r, c) && !(r == r1 && c == c1) && !(r == r2 && c == c2) ==> s[r][c] == b[r][c]
  {
    WithCell(WithCell(b, r1, c1, b[r2][c2]), r2, c2, b[r1][c1])
  }

  /** Two square boards of the same size with the same tiles are equal. */
  lemma BoardExt(a: Board, b: Board)
    requires IsSquare(a) && IsSquare(b) && |a| == |b|
    requires forall r, c :: InBounds(|a|, r, c) ==> a[r][c] == b[r][c]
    ensures a == b
  {
    forall r | 0 <= r < |a| ensures a[r] == b[r] {
      assert forall c :: 0 <= c < |a| ==> a[r][c] == b[r][c];
    }
  }

  /** Swapping the same two cells twice gives back the board. */
  lemma SwapTwice(b: Board, r1: int, c1: int, r2: int, c2: int)
    requires IsSquare(b) && InBounds(|b|, r1, c1) && InBounds(|b|, r2, c2)
    ensures Swap(Swap(b, r1, c1, r2, c2), r1, c1, r2, c2) == b
  {
    var s := Swap(Swap(b, r1, c1, r2, c2), r1, c1, r2, c2);
    BoardExt(s, b);
  }

  // ---------------------------------------------------------------------------
  // Flattening: the rows concatenated, in row-major order

  function Flatten(b: Board): seq<int>
  {
    if b == [] then [] else Flatten(b[..|b| - 1]) + b[|b| - 1]
  }

  /** s with the elements at p and q exchanged. */
  function SwapAt(s: seq<int>, p: int, q: int): (t: seq<int>)
    requires 0 <= p < |s| && 0 <= q < |s|
    ensures |t| == |s| && multiset(t) == multiset(s)
    ensures t[p] == s[q] && t[q] == s[p]
    ensures forall k :: 0 <= k < |s| && k != p && k != q ==> t[k] == s[k]
  {
    s[p := s[q]][q := s[p]]
  }

  lemma {:induction false} FlattenLength(b: Board, w: int)
    requires IsRect(b, w)
    ensures |Flatten(b)| == |b| * w
  {
    if b != [] {
      var init := b[..|b| - 1];
      assert IsRect(init, w);
      FlattenLength(init, w);
      assert |Flatten(b)| == |init| * w + w;
      MulStep(|b|, w);
    }
  }

  /** Cell (r, c) of an h-by-w board has a flat index in [0, h * w). */
  lemma FlatIndexBounds(r: int, c: int, w: int, h: int)
    requires 0 <= r < h && 0 <= c < w
    ensures 0 <= r * w + c < h * w
  {
    MulNonneg(r, w);
    MulNonneg(h - 1 - r, w);
    MulDistrib(r, h - r, w);
    MulStep(h - r, w);
  }

  lemma MulNonneg(x: int, y: int)
    requires x >= 0 && y >= 0
    ensures x * y >= 0
  {
  }

  lemma MulDistrib(x: int, y: int, w: int)
    ensures (x + y) * w == x * w + y * w
  {
  }

  lemma MulStep(n: int, w: int)
    ensures (n - 1) * w + w == n * w
  {
  }

  /** Cell (r, c) sits at flat index r * w + c. */
  lemma {:induction false} FlattenAt(b: Board, w: int, r: int, c: int)
    requires IsRect(b, w) && 0 <= r < |b| && 0 <= c < w
    ensures 0 <= r * w + c < |b| * w == |Flatten(b)|
    ensures Flatten(b)[r * w + c] == b[r][c]
  {
    FlatIndexBounds(r, c, w, |b|);
    var init := b[..|b| - 1];
    FlattenLength(b, w);
    FlattenLength(init, w);
    if r < |b| - 1 {
      FlattenAt(init, w, r, c);
    }
  }

  /** Replacing one cell of the board replaces one element of its flattening. */
  lemma {:induction false} FlattenWithCell(b: Board, w: int, r: int, c: int, v: int)
    requires IsRect(b, w) && 0 <= r < |b| && 0 <= c < w
    ensures 0 <= r * w + c < |Flatten(b)|
    ensures Flatten(WithCell(b, r, c, v)) == Flatten(b)[r * w + c := v]
  {
    FlattenAt(b, w, r, c);
    var init := b[..|b| - 1];
    var s := WithCell(b, r, c, v);
    FlattenLength(init, w);
    if r == |b| - 1 {
      assert s[..|s| - 1] == init;
    } else {
      assert s[..|s| - 1] == WithCell(init, r, c, v);
      FlattenWithCell(init, w, r, c, v);
    }
  }

  /** Two cell writes are two element writes on the flattening. */
  lemma FlattenTwoWrites(b: Board, w: int, r1: int, c1: int, r2: int, c2: int, y: int, x: int)
    requires IsRect(b, w) && 0 <= r1 < |b| && 0 <= c1 < w && 0 <= r2 < |b| && 0 <= c2 < w
    ensures r1 * w + c1 < |Flatten(b)| && r2 * w + c2 < |Flatten(b)|
    ensures Flatten(WithCell(WithCell(b, r1, c1, y), r2, c2, x)) == Flatten(b)[r1 * w + c1 := y][r2 * w + c2 := x]
  {
    var b1 := WithCell(b, r1, c1, y);
    assert IsRect(b1, w);
    FlattenWithCell(b, w, r1, c1, y);
    FlattenWithCell(b1, w, r2, c2, x);
  }

  /** Swapping two cells swaps two elements of the flattening. */
  lemma FlattenSwap(b: Board, r1: int, c1: int, r2: int, c2: int)
    requires IsSquare(b) && InBounds(|b|, r1, c1) && InBounds(|b|, r2, c2)
    ensures r1 * |b| + c1 < |Flatten(b)| && r2 * |b| + c2 < |Flatten(b)|
    ensures Flatten(Swap(b, r1, c1, r2, c2)) == SwapAt(Flatten(b), r1 * |b| + c1, r2 * |b| + c2)
  {
    var n := |b|;
    assert IsRect(b, n);
    FlattenAt(b, n, r1, c1);
    FlattenAt(b, n, r2, c2);
    FlattenTwoWrites(b, n, r1, c1, r2, c2, b[r2][c2], b[r1][c1]);
  }

  lemma SwapKeepsTiles(b: Board, r1: int, c1: int, r2: int, c2: int)
    requires IsSquare(b) && InBounds(|b|, r1, c1) && InBounds(|b|, r2, c2)
    ensures multiset(Flatten(Swap(b, r1, c1, r2, c2))) == multiset(Flatten(b))
  {
    FlattenSwap(b, r1, c1, r2, c2);
  }

  /** A value occurs in the flattening exactly when it occurs in some row. */
  lemma {:induction false} InFlatten(b: Board, x: int)
    ensures x in Flatten(b) <==> exists r, c :: 0 <= r < |b| && 0 <= c < |b[r]| && b[r][c] == x
  {
    if b != [] {
      var init := b[..|b| - 1];
      InFlatten(init, x);
      if x in b[|b| - 1] {
        var c :| 0 <= c < |b[|b| - 1]| && b[|b| - 1][c] == x;
        assert b[|b| - 1][c] == x;
      }
      if exists r, c :: 0 <= r < |b| && 0 <= c < |b[r]| && b[r][c] == x {
        var r, c :| 0 <= r < |b| && 0 <= c < |b[r]| && b[r][c] == x;
        if r < |b| - 1 {
          assert init[r][c] == x;
        } else {
          assert x in b[|b| - 1];
        }
      }
    }
  }

  // ---------------------------------------------------------------------------
  // Flat index <-> coordinates

  /** Euclidean division by a positive n splits r * n + c back into r and c. */
  lemma {:induction false} DivModUnique(r: int, c: int, n: int)
    requires n > 0 && 0 <= c < n
    ensures (r * n + c) / n == r && (r * n + c) % n == c
  {
    var k := r * n + c;
    var q, m := k / n, k % n;
    assert k == q * n + m && 0 <= m < n;
    assert (q - r) * n == c - m;
    if q > r {
      MulAtLeast(q - r, n);
    } else if q < r {
      MulAtLeast(r - q, n);
    }
  }

  lemma MulAtLeast(x: int, n: int)
    requires x >= 1 && n > 0
    ensures x * n >= n
  {
    assert x * n == (x - 1) * n + n;
    assert (x - 1) * n >= 0;
  }

  /** A flat index below n * n has a row and a column below n. */
  lemma DivBelow(k: int, n: int)
    requires n > 0 && 0 <= k < n * n
    ensures 0 <= k / n < n && 0 <= k % n < n && k == (k / n) * n + k % n
  {
    var q := k / n;
    assert k == q * n + k % n;
    MulDistrib(n, -q, n);
    PositiveFactor(n - q, n);
  }

  lemma PositiveFactor(x: int, n: int)
    requires n > 0 && x * n > 0
    ensures x > 0
  {
  }

  /**
   * indexToCoords: row is the floored quotient, column the remainder with the
   * sign of the dividend (the `%` of the source language truncates).
   */
  function IndexToCoords(index: int, n: int): (p: Pos)
    requires n > 0
    ensures index >= 0 ==> p.row >= 0 && 0 <= p.col < n && p.row * n + p.col == index
    ensures 0 <= index < n * n ==> p.row < n
    ensures index < 0 ==> p.row < 0 && -n < p.col <= 0
  {
    var col := if index >= 0 then index % n else -((-index) % n);
    if 0 <= index < n * n then
      DivBelow(index, n);
      Pos(index / n, col)
    else
      Pos(index / n, col)
  }

  /** getGoalPosition: where tile t sits on the solved board. */
  function GoalPosition(tile: int, n: int): (p: Pos)
    requires n > 0
    ensures 1 <= tile ==> 0 <= p.row && 0 <= p.col < n && p.row * n + p.col + 1 == tile
    ensures 1 <= tile < n * n ==> p.row < n
  {
    IndexToCoords(tile - 1, n)
  }

  /** The tile the solved board holds in cell (r, c) has its goal there. */
  lemma GoalOfCell(r: int, c: int, n: int)
    requires n > 0 && 0 <= r && 0 <= c < n
    ensures GoalPosition(r * n + c + 1, n) == Pos(r, c)
  {
    DivModUnique(r, c, n);
  }

  /** Distinct cells have distinct flat indices. */
  lemma FlatIndexInjective(r1: int, c1: int, r2: int, c2: int, n: int)
    requires n > 0 && 0 <= c1 < n && 0 <= c2 < n
    requires r1 * n + c1 == r2 * n + c2
    ensures r1 == r2 && c1 == c2
  {
    DivModUnique(r1, c1, n);
    DivModUnique(r2, c2, n);
  }

  // ---------------------------------------------------------------------------
  // The solved board

  /** Cell (r, c) holds r * n + c + 1, except the last cell, which is blank. */
  function Solved(n: nat): (b: Board)
    ensures IsSquare(b) && |b| == n
  {
    seq(n, r => seq(n, c => if r == n - 1 && c == n - 1 then 0 else r * n + c + 1))
  }

  /** The row-major reading of the solved board: 1, 2, ..., n*n - 1, then the blank. */
  lemma FlattenSolved(n: nat)
    requires n >= 1
    ensures Flatten(Solved(n)) == seq(n * n, k => if k == n * n - 1 then 0 else k + 1)
  {
    var b := Solved(n);
    var f := Flatten(b);
    assert IsRect(b, n);
    FlattenLength(b, n);
    forall k | 0 <= k < n * n
      ensures f[k] == if k == n * n - 1 then 0 else k + 1
    {
      DivBelow(k, n);
      var r, c := k / n, k % n;
      FlattenAt(b, n, r, c);
      if k == n * n - 1 {
        assert (n - 1) * n + (n - 1) == k;
        FlatIndexInjective(r, c, n - 1, n - 1, n);
      }
    }
  }

  // ---------------------------------------------------------------------------
  // Boards as mutable 2-D arrays

  /** The value a square array currently holds. */
  function Grid(a: array2<int>): (b: Board)
    reads a
    requires a.Length0 == a.Length1
    ensures IsSquare(b) && |b| == a.Length0
    ensures forall r, c :: InBounds(|b|, r, c) ==> b[r][c] == a[r, c]
  {
    seq(a.Length0, r reads a requires 0 <= r < a.Length0 =>
      seq(a.Length1, c reads a requires 0 <= c < a.Length1 => a[r, c]))
  }

  /** Cell (r, c) comes before cell p in row-major order. */
  predicate Precedes(r: int, c: int, p: Pos) {
    r < p.row || (r == p.row && c < p.col)
  }

  /** A fresh array holding the board b. */
  method ToArray(b: Board) returns (a: array2<int>)
    requires IsSquare(b)
    ensures fresh(a) && a.Length0 == a.Length1 == |b|
    ensures Grid(a) == b
  {
    var n := |b|;
    a := new int[n, n];
    for r := 0 to n
      invariant forall i, j :: 0 <= i < r && 0 <= j < n ==> a[i, j] == b[i][j]
    {
      for c := 0 to n
        invariant forall i, j :: 0 <= i < r && 0 <= j < n ==> a[i, j] == b[i][j]
        invariant forall j :: 0 <= j < c ==> a[r, j] == b[r][j]
      {
        a[r, c] := b[r][c];
      }
    }
    BoardExt(Grid(a), b);
  }

  /** swapTiles: exchanges the tiles of two cells in place. */
  method SwapTiles(board: array2<int>, row1: int, col1: int, row2: int, col2: int)
    requires board.Length0 == board.Length1
    requires InBounds(board.Length0, row1, col1) && InBounds(board.Length0, row2, col2)
    modifies board
    ensures Grid(board) == Swap(old(Grid(board)), row1, col1, row2, col2)
  {
    ghost var before := Grid(board);
    var temp := board[row1, col1];
    board[row1, col1] := board[row2, col2];
    board[row2, col2] := temp;
    BoardExt(Grid(board), Swap(before, row1, col1, row2, col2));
  }

  /**
   * findBlank: the first cell in row-major order that holds 0, or None when
   * the board has no blank.
   */
  method FindBlank(board: array2<int>) returns (blank: Option<Pos>)
    requires board.Length0 == board.Length1
    ensures blank.None? <==> forall r, c :: InBounds(board.Length0, r, c) ==> board[r, c] != 0
    ensures blank.Some? ==> InBounds(board.Length0, blank.value.row, blank.value.col)
    ensures blank.Some? ==> board[blank.value.row, blank.value.col] == 0
    ensures blank.Some? ==> forall r, c :: InBounds(board.Length0, r, c) && Precedes(r, c, blank.value) ==> board[r, c] != 0
  {
    var dimension := board.Length0;
    for row := 0 to dimension
      invariant forall r, c :: 0 <= r < row && 0 <= c < dimension ==> board[r, c] != 0
    {
      for col := 0 to dimension
        invariant forall r, c :: 0 <= r < row && 0 <= c < dimension ==> board[r, c] != 0
        invariant forall c :: 0 <= c < col ==> board[row, c] != 0
      {
        if board[row, col] == 0 {
          return Some(Pos(row, col));
        }
      }
    }
    return None;
  }

  /**
   * generateSolved: a fresh n-by-n board with r * n + c + 1 in cell (r, c) and
   * the blank in the bottom-right corner, which it reports as the blank.
   */
  method GenerateSolved(dimension: int) returns (tiles: array2<int>, blankRow: int, blankCol: int)
    requires dimension >= 1
    ensures fresh(tiles) && tiles.Length0 == tiles.Length1 == dimension
    ensures forall r, c :: InBounds(dimension, r, c) && !(r == dimension - 1 && c == dimension - 1) ==>
      tiles[r, c] == r * dimension + c + 1
    ensures blankRow == blankCol == dimension - 1 && tiles[blankRow, blankCol] == 0
    ensures Grid(tiles) == Solved(dimension)
  {
    tiles := new int[dimension, dimension];
    for row := 0 to dimension
      invariant forall r, c :: 0 <= r < row && 0 <= c < dimension ==> tiles[r, c] == r * dimension + c + 1
    {
      for col := 0 to dimension
        invariant forall r, c :: 0 <= r < row && 0 <= c < dimension ==> tiles[r, c] == r * dimension + c + 1
        invariant forall c :: 0 <= c < col ==> tiles[row, c] == row * dimension + c + 1
      {
        tiles[row, col] := row * dimension + col + 1;
      }
    }
    tiles[dimension - 1, dimension - 1] := 0;
    blankRow, blankCol := dimension - 1, dimension - 1;
    BoardExt(Grid(tiles), Solved(dimension));
  }

  /** deepEqual: the two boards hold the same tiles in the same cells. */
  method DeepEqual(tiles1: Board, tiles2: Board) returns (equal: bool)
    requires IsSquare(tiles1) && IsSquare(tiles2)
    ensures equal <==> tiles1 == tiles2
  {
    if |tiles1| != |tiles2| {
      return false;
    }
    for row := 0 to |tiles1|
      invariant forall r, c :: 0 <= r < row && 0 <= c < |tiles1| ==> tiles1[r][c] == tiles2[r][c]
    {
      for col := 0 to |tiles1|
        invariant forall r, c :: 0 <= r < row && 0 <= c < |tiles1| ==> tiles1[r][c] == tiles2[r][c]
        invariant forall c :: 0 <= c < col ==> tiles1[row][c] == tiles2[row][c]
      {
        if tiles1[row][col] != tiles2[row][col] {
          return false;
        }
      }
    }
    BoardExt(tiles1, tiles2);
    return true;
  }
}
