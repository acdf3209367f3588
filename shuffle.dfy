/**
 * shuffleBoard and generateRandom: a loop of swaps driven by random choices,
 * then, when the parity rule rejects the result, one corrective swap of two
 * non-blank tiles. The random numbers are an input here: js[i] stands for
 * the choice made when the loop is at index i.
 */
module Shuffle {
  import opened Boards
  import opened InversionCounter
  import opened Solvability

  /** Every choice the loop uses lies in [0, i): `Math.floor(Math.random() * i)`. */
  predicate ValidChoices(js: seq<int>, size: int)
  {
    size < |js| && forall i :: 1 <= i <= size ==> 0 <= js[i] < i
  }

  /**
   * One pass of the swap loop: exchanges the cells at flat indices i and j,
   * cell k being on row k / n and column k % n.
   */
  function ShuffleStep(b: Board, i: int, j: int): (s: Board)
    requires IsSquare(b) && 0 <= i < |b| * |b| && 0 <= j < |b| * |b|
    ensures IsSquare(s) && |s| == |b|
  {
    var n := |b|;
    DivBelow(i, n);
    DivBelow(j, n);
    Swap(b, i / n, i % n, j / n, j % n)
  }

  /**
   * The board the swap loop holds once its index has come down to i, having
   * made the passes for size, size - 1, ..., i + 1; js[k] is the choice for
   * index k.
   */
  function Shuffled(b: Board, js: seq<int>, size: int, i: int): (s: Board)
    requires IsSquare(b) && 0 <= i <= size < |b| * |b| && ValidChoices(js, size)
    ensures IsSquare(s) && |s| == |b|
    decreases size - i
  {
    if i == size then b
    else ShuffleStep(Shuffled(b, js, size, i + 1), i + 1, js[i + 1])
  }

  /** A one-cell board always passes the parity rule. */
  lemma SingleCellSolvable(b: Board, blankRow: int)
    requires IsSquare(b) && |b| == 1
    ensures Solvable(b, blankRow)
  {
    var f := Flatten(b);
    assert b[..0] == [];
    assert Flatten(b[..0]) == [];
    assert f == b[0];
    assert f[..0] == [];
    assert Inversions(f) == 0;
  }

  /**
   * The repair step: when the parity rule rejects the board for the blank's
   * row, the first two tiles of row 1 are exchanged if the blank is on row 0,
   * and those of row 0 otherwise.
   */
  function Repaired(b: Board, blank: Pos): (s: Board)
    requires IsSquare(b) && InBounds(|b|, blank.row, blank.col)
    ensures IsSquare(s) && |s| == |b|
  {
    if Solvable(b, blank.row) then b
    else
      assert |b| >= 2 by {
        if |b| == 1 {
          SingleCellSolvable(b, blank.row);
        }
      }
      if blank.row == 0 then Swap(b, 1, 0, 1, 1) else Swap(b, 0, 0, 0, 1)
  }

  // ---------------------------------------------------------------------------
  // What the swap loop keeps

  /** One pass only moves two tiles, and so keeps a board free of repeats. */
  lemma ShuffleStepKeeps(b: Board, i: int, j: int)
    requires IsSquare(b) && 0 <= i < |b| * |b| && 0 <= j < |b| * |b|
    ensures multiset(Flatten(ShuffleStep(b, i, j))) == multiset(Flatten(b))
    ensures Distinct(Flatten(b)) ==> Distinct(Flatten(ShuffleStep(b, i, j)))
  {
    var n := |b|;
    DivBelow(i, n);
    DivBelow(j, n);
    var f := Flatten(b);
    assert Flatten(ShuffleStep(b, i, j)) == SwapAt(f, i, j) by {
      FlattenSwap(b, i / n, i % n, j / n, j % n);
    }
    if Distinct(f) {
      DistinctSwap(f, i, j);
    }
  }

  /** The swap loop only moves tiles around. */
  lemma {:induction false} ShuffledTiles(b: Board, js: seq<int>, size: int, i: int)
    requires IsSquare(b) && 0 <= i <= size < |b| * |b| && ValidChoices(js, size)
    ensures multiset(Flatten(Shuffled(b, js, size, i))) == multiset(Flatten(b))
    decreases size - i
  {
    if i < size {
      ShuffledTiles(b, js, size, i + 1);
      ShuffleStepKeeps(Shuffled(b, js, size, i + 1), i + 1, js[i + 1]);
    }
  }

  /** A board without repeated tiles keeps that property through the loop. */
  lemma {:induction false} ShuffledDistinct(b: Board, js: seq<int>, size: int, i: int)
    requires IsSquare(b) && 0 <= i <= size < |b| * |b| && ValidChoices(js, size)
    requires Distinct(Flatten(b))
    ensures Distinct(Flatten(Shuffled(b, js, size, i)))
    decreases size - i
  {
    if i < size {
      ShuffledDistinct(b, js, size, i + 1);
      ShuffleStepKeeps(Shuffled(b, js, size, i + 1), i + 1, js[i + 1]);
    }
  }

  // ---------------------------------------------------------------------------
  // What the repair step achieves

  /** Different cells of a board without repeats hold different tiles. */
  lemma DistinctCells(b: Board, r1: int, c1: int, r2: int, c2: int)
    requires IsSquare(b) && Distinct(Flatten(b))
    requires InBounds(|b|, r1, c1) && InBounds(|b|, r2, c2) && (r1 != r2 || c1 != c2)
    ensures b[r1][c1] != b[r2][c2]
  {
    var n := |b|;
    assert IsRect(b, n);
    FlattenAt(b, n, r1, c1);
    FlattenAt(b, n, r2, c2);
    if r1 * n + c1 == r2 * n + c2 {
      FlatIndexInjective(r1, c1, r2, c2, n);
    }
  }

  /**
   * On a board without repeated tiles whose blank is at `blank`, the repair
   * step yields a board the parity rule accepts for the blank's row, and it
   * never moves the blank.
   */
  lemma RepairedSolvable(b: Board, blank: Pos)
    requires IsSquare(b) && InBounds(|b|, blank.row, blank.col) && b[blank.row][blank.col] == 0
    requires Distinct(Flatten(b))
    ensures Solvable(Repaired(b, blank), blank.row)
    ensures Repaired(b, blank)[blank.row][blank.col] == 0
  {
    if !Solvable(b, blank.row) {
      if |b| == 1 {
        SingleCellSolvable(b, blank.row);
      }
      var r := if blank.row == 0 then 1 else 0;
      DistinctCells(b, r, 0, blank.row, blank.col);
      DistinctCells(b, r, 1, blank.row, blank.col);
      DistinctCells(b, r, 0, r, 1);
      RepairFlips(b, r, blank.row);
    }
  }

  /** The repair step only moves tiles around. */
  lemma RepairedTiles(b: Board, blank: Pos)
    requires IsSquare(b) && InBounds(|b|, blank.row, blank.col)
    ensures multiset(Flatten(Repaired(b, blank))) == multiset(Flatten(b))
  {
    if !Solvable(b, blank.row) {
      if |b| == 1 {
        SingleCellSolvable(b, blank.row);
      }
      var r := if blank.row == 0 then 1 else 0;
      SwapKeepsTiles(b, r, 0, r, 1);
    }
  }

  /** The whole shuffle, loop and repair, only moves tiles around. */
  lemma ShuffleKeepsTiles(b: Board, js: seq<int>, size: int, blank: Pos)
    requires IsSquare(b) && 0 <= size == |b| * |b| - 1 && ValidChoices(js, size)
    requires InBounds(|b|, blank.row, blank.col)
    ensures multiset(Flatten(Repaired(Shuffled(b, js, size, 0), blank))) == multiset(Flatten(b))
  {
    ShuffledTiles(b, js, size, 0);
    RepairedTiles(Shuffled(b, js, size, 0), blank);
  }

  /**
   * Shuffling a board without repeated tiles, with the blank ending at
   * `blank`, yields a board the parity rule accepts for the blank's row.
   */
  lemma ShuffleSolvable(b: Board, js: seq<int>, size: int, blank: Pos)
    requires IsSquare(b) && 0 <= size == |b| * |b| - 1 && ValidChoices(js, size) && Distinct(Flatten(b))
    requires InBounds(|b|, blank.row, blank.col) && Shuffled(b, js, size, 0)[blank.row][blank.col] == 0
    ensures Solvable(Repaired(Shuffled(b, js, size, 0), blank), blank.row)
  {
    ShuffledDistinct(b, js, size, 0);
    RepairedSolvable(Shuffled(b, js, size, 0), blank);
  }

  // ---------------------------------------------------------------------------
  // The operations

  /** The body of the swap loop: exchanges the cells at flat indices i and j. */
  method SwapIndices(tiles: array2<int>, i: int, j: int)
    requires tiles.Length0 == tiles.Length1
    requires 0 <= i < tiles.Length0 * tiles.Length0 && 0 <= j < tiles.Length0 * tiles.Length0
    modifies tiles
    ensures Grid(tiles) == ShuffleStep(old(Grid(tiles)), i, j)
  {
    var dimension := tiles.Length0;
    var iCoords := IndexToCoords(i, dimension);
    var jCoords := IndexToCoords(j, dimension);
    SwapTiles(tiles, iCoords.row, iCoords.col, jCoords.row, jCoords.col);
  }

  /** The swap loop, for i = n*n - 1 down to 1. */
  method SwapLoop(tiles: array2<int>, js: seq<int>)
    requires tiles.Length0 == tiles.Length1 >= 1
    requires ValidChoices(js, tiles.Length0 * tiles.Length0 - 1)
    modifies tiles
    ensures Grid(tiles) == Shuffled(old(Grid(tiles)), js, tiles.Length0 * tiles.Length0 - 1, 0)
  {
    var dimension := tiles.Length0;
    MulAtLeast(dimension, dimension);
    var size := dimension * dimension - 1;
    ghost var start := Grid(tiles);
    var i := size;
    while i > 0
      invariant 0 <= i <= size
      invariant Grid(tiles) == Shuffled(start, js, size, i)
      decreases i
    {
      var j := js[i];
      SwapIndices(tiles, i, j);
      i := i - 1;
    }
  }

  /** The repair step, in place, for the blank found at blankPos. */
  method RepairInPlace(tiles: array2<int>, blankPos: Pos)
    requires tiles.Length0 == tiles.Length1 && InBounds(tiles.Length0, blankPos.row, blankPos.col)
    modifies tiles
    ensures Grid(tiles) == Repaired(old(Grid(tiles)), blankPos)
  {
    ghost var before := Grid(tiles);
    var solvable := IsSolvable(tiles, blankPos.row);
    if !solvable {
      assert tiles.Length0 >= 2 by {
        if tiles.Length0 == 1 {
          SingleCellSolvable(before, blankPos.row);
        }
      }
      if blankPos.row == 0 {
        SwapTiles(tiles, 1, 0, 1, 1);
      } else {
        SwapTiles(tiles, 0, 0, 0, 1);
      }
    }
  }

  /**
   * shuffleBoard: runs the swap loop, finds the blank, and applies the
   * repair step for the blank's row. It reports the blank's cell, which
   * still holds the blank.
   */
  method ShuffleBoard(tiles: array2<int>, js: seq<int>) returns (blankRow: int, blankCol: int)
    requires tiles.Length0 == tiles.Length1 >= 1
    requires exists r, c :: InBounds(tiles.Length0, r, c) && tiles[r, c] == 0
    requires ValidChoices(js, tiles.Length0 * tiles.Length0 - 1)
    modifies tiles
    ensures InBounds(tiles.Length0, blankRow, blankCol) && tiles[blankRow, blankCol] == 0
    ensures Grid(tiles) ==
            Repaired(Shuffled(old(Grid(tiles)), js, tiles.Length0 * tiles.Length0 - 1, 0), Pos(blankRow, blankCol))
    ensures multiset(Flatten(Grid(tiles))) == multiset(Flatten(old(Grid(tiles))))
    ensures Distinct(Flatten(old(Grid(tiles)))) ==> Solvable(Grid(tiles), blankRow)
  {
    ghost var start := Grid(tiles);
    ghost var size := tiles.Length0 * tiles.Length0 - 1;
    MulAtLeast(tiles.Length0, tiles.Length0);
    assert 0 <= size < |start| * |start|;
    assert 0 in multiset(Flatten(start)) by {
      InFlatten(start, 0);
    }
    SwapLoop(tiles, js);
    ghost var shuffled := Grid(tiles);
    assert multiset(Flatten(shuffled)) == multiset(Flatten(start)) by {
      ShuffledTiles(start, js, size, 0);
    }
    var found := FindBlank(tiles);
    assert found.Some? by {
      InFlatten(shuffled, 0);
    }
    var blankPos := found.value;
    RepairInPlace(tiles, blankPos);
    blankRow, blankCol := blankPos.row, blankPos.col;
    ShuffleKeepsTiles(start, js, size, blankPos);
    if Distinct(Flatten(start)) {
      ShuffleSolvable(start, js, size, blankPos);
    }
  }

  /**
   * generateRandom: the solved board of the given size, shuffled and
   * repaired. The result holds the tiles of the solved board and passes the
   * parity rule for the reported blank row.
   */
  method GenerateRandom(dimension: int, js: seq<int>) returns (tiles: array2<int>, blankRow: int, blankCol: int)
    requires dimension >= 1 && ValidChoices(js, dimension * dimension - 1)
    ensures fresh(tiles) && tiles.Length0 == tiles.Length1 == dimension
    ensures InBounds(dimension, blankRow, blankCol) && tiles[blankRow, blankCol] == 0
    ensures Grid(tiles) == Repaired(Shuffled(Solved(dimension), js, tiles.Length0 * tiles.Length0 - 1, 0), Pos(blankRow, blankCol))
    ensures multiset(Flatten(Grid(tiles))) == multiset(Flatten(Solved(dimension)))
    ensures Solvable(Grid(tiles), blankRow)
  {
    var r, c;
    tiles, r, c := GenerateSolved(dimension);
    assert InBounds(tiles.Length0, r, c) && tiles[r, c] == 0;
    SolvedDistinct(dimension);
    blankRow, blankCol := ShuffleBoard(tiles, js);
  }
}
