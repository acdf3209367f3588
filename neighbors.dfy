/**
 * Neighbour generation: a neighbour is the board with the blank moved into an
 * orthogonally adjacent cell. createNeighbor swaps the blank with that cell,
 * copies the board, and swaps back; neighbors tries the four directions in
 * the order up, left, down, right.
 */
module Neighbors {
  import opened Boards

  /** A board reached by one move, with the cell its blank now occupies. */
  datatype Neighbor = Neighbor(tiles: Board, blankRow: int, blankCol: int)

  /** The neighbour whose blank moved from (br, bc) to (nr, nc). */
  function MoveTo(b: Board, br: int, bc: int, nr: int, nc: int): Neighbor
    requires IsSquare(b) && InBounds(|b|, br, bc) && InBounds(|b|, nr, nc)
  {
    Neighbor(Swap(b, br, bc, nr, nc), nr, nc)
  }

  /**
   * The cells the blank at (br, bc) can move to on an n-by-n board, in the
   * order neighbors tries them: up, left, down, right.
   */
  function Directions(br: int, bc: int, n: int): (d: seq<Pos>)
    requires InBounds(n, br, bc)
    ensures forall i :: 0 <= i < |d| ==> InBounds(n, d[i].row, d[i].col) && Adjacent(br, bc, d[i].row, d[i].col)
  {
    var up := Try([], br > 0, Pos(br - 1, bc));
    var left := Try(up, bc > 0, Pos(br, bc - 1));
    var down := Try(left, br < n - 1, Pos(br + 1, bc));
    Try(down, bc < n - 1, Pos(br, bc + 1))
  }

  /** ds, followed by p when the test ok passes. */
  function Try(ds: seq<Pos>, ok: bool, p: Pos): seq<Pos>
  {
    if ok then ds + [p] else ds
  }

  /** The moves of the blank at (br, bc) to each cell of ds, in order. */
  function MovesTo(b: Board, br: int, bc: int, ds: seq<Pos>): (ns: seq<Neighbor>)
    requires IsSquare(b) && InBounds(|b|, br, bc)
    requires forall i :: 0 <= i < |ds| ==> InBounds(|b|, ds[i].row, ds[i].col)
  {
    seq(|ds|, i requires 0 <= i < |ds| => MoveTo(b, br, bc, ds[i].row, ds[i].col))
  }

  /** What neighbors returns: one move for each direction, in order. */
  function NeighborsOf(b: Board, br: int, bc: int): (ns: seq<Neighbor>)
    requires IsSquare(b) && InBounds(|b|, br, bc)
  {
    MovesTo(b, br, bc, Directions(br, bc, |b|))
  }

  /** Appending a cell appends its move. */
  lemma MovesToAppend(b: Board, br: int, bc: int, ds: seq<Pos>, r: int, c: int)
    requires IsSquare(b) && InBounds(|b|, br, bc) && InBounds(|b|, r, c)
    requires forall i :: 0 <= i < |ds| ==> InBounds(|b|, ds[i].row, ds[i].col)
    ensures MovesTo(b, br, bc, ds + [Pos(r, c)]) == MovesTo(b, br, bc, ds) + [MoveTo(b, br, bc, r, c)]
  {
  }

  /** The board reached by one move from b, the blank going from (br, bc) to nb's cell. */
  ghost predicate IsMove(b: Board, br: int, bc: int, nb: Neighbor)
    requires IsSquare(b) && InBounds(|b|, br, bc)
  {
    InBounds(|b|, nb.blankRow, nb.blankCol) && Adjacent(br, bc, nb.blankRow, nb.blankCol) &&
    nb.tiles == Swap(b, br, bc, nb.blankRow, nb.blankCol)
  }

  // ---------------------------------------------------------------------------
  // Properties of the neighbour list

  /** Every neighbour is one move: an in-bounds adjacent cell swapped with the blank. */
  lemma NeighborsAreMoves(b: Board, br: int, bc: int)
    requires IsSquare(b) && InBounds(|b|, br, bc)
    ensures forall i :: 0 <= i < |NeighborsOf(b, br, bc)| ==> IsMove(b, br, bc, NeighborsOf(b, br, bc)[i])
  {
  }

  /** Every move from (br, bc) is in the list. */
  lemma NeighborsComplete(b: Board, br: int, bc: int, r: int, c: int)
    requires IsSquare(b) && InBounds(|b|, br, bc)
    requires InBounds(|b|, r, c) && Adjacent(br, bc, r, c)
    ensures MoveTo(b, br, bc, r, c) in NeighborsOf(b, br, bc)
  {
    var d := Directions(br, bc, |b|);
    DirectionsComplete(br, bc, |b|, r, c);
    var i :| 0 <= i < |d| && d[i] == Pos(r, c);
    assert NeighborsOf(b, br, bc)[i] == MoveTo(b, br, bc, r, c);
  }

  /** Every in-bounds cell adjacent to (br, bc) is among the directions. */
  lemma DirectionsComplete(br: int, bc: int, n: int, r: int, c: int)
    requires InBounds(n, br, bc) && InBounds(n, r, c) && Adjacent(br, bc, r, c)
    ensures Pos(r, c) in Directions(br, bc, n)
  {
  }

  /**
   * On a board of side at least 2 there are between 2 and 4 neighbours, one
   * for each in-bounds direction, and no two of them move the blank to the
   * same cell.
   */
  lemma NeighborsCount(b: Board, br: int, bc: int)
    requires IsSquare(b) && InBounds(|b|, br, bc)
    ensures |NeighborsOf(b, br, bc)| ==
            (if br > 0 then 1 else 0) + (if bc > 0 then 1 else 0) +
            (if br < |b| - 1 then 1 else 0) + (if bc < |b| - 1 then 1 else 0)
    ensures |b| >= 2 ==> 2 <= |NeighborsOf(b, br, bc)| <= 4
    ensures forall i, j :: 0 <= i < j < |NeighborsOf(b, br, bc)| ==>
              NeighborsOf(b, br, bc)[i].blankRow != NeighborsOf(b, br, bc)[j].blankRow ||
              NeighborsOf(b, br, bc)[i].blankCol != NeighborsOf(b, br, bc)[j].blankCol
  {
    var d := Directions(br, bc, |b|);
    var ns := NeighborsOf(b, br, bc);
    DirectionsCount(br, bc, |b|);
    assert |ns| == |d|;
    forall i | 0 <= i < |ns|
      ensures ns[i].blankRow == d[i].row && ns[i].blankCol == d[i].col
    {
    }
  }

  /** One direction for each in-bounds side, each cell once. */
  lemma DirectionsCount(br: int, bc: int, n: int)
    requires InBounds(n, br, bc)
    ensures |Directions(br, bc, n)| ==
            (if br > 0 then 1 else 0) + (if bc > 0 then 1 else 0) +
            (if br < n - 1 then 1 else 0) + (if bc < n - 1 then 1 else 0)
    ensures forall i, j :: 0 <= i < j < |Directions(br, bc, n)| ==> Directions(br, bc, n)[i] != Directions(br, bc, n)[j]
  {
  }

  /**
   * When (br, bc) holds the blank, a move puts the blank in the cell it
   * reports and the moved tile in (br, bc), and keeps the tiles of b.
   */
  lemma MoveMovesBlank(b: Board, br: int, bc: int, nr: int, nc: int)
    requires IsSquare(b) && InBounds(|b|, br, bc) && InBounds(|b|, nr, nc) && b[br][bc] == 0
    ensures var nb := MoveTo(b, br, bc, nr, nc);
            nb.tiles[nr][nc] == 0 && nb.tiles[br][bc] == b[nr][nc] &&
            multiset(Flatten(nb.tiles)) == multiset(Flatten(b))
  {
    SwapKeepsTiles(b, br, bc, nr, nc);
  }

  /** nb is a move from (br, bc) that carried the blank along and kept the tiles. */
  ghost predicate BlankMoved(b: Board, br: int, bc: int, nb: Neighbor)
    requires IsSquare(b) && InBounds(|b|, br, bc)
  {
    IsMove(b, br, bc, nb) &&
    nb.tiles[nb.blankRow][nb.blankCol] == 0 && nb.tiles[br][bc] == b[nb.blankRow][nb.blankCol] &&
    multiset(Flatten(nb.tiles)) == multiset(Flatten(b))
  }

  /** When (br, bc) holds the blank, every neighbour carries the blank to the cell it reports. */
  lemma NeighborsMoveBlank(b: Board, br: int, bc: int)
    requires IsSquare(b) && InBounds(|b|, br, bc) && b[br][bc] == 0
    ensures forall i :: 0 <= i < |NeighborsOf(b, br, bc)| ==> BlankMoved(b, br, bc, NeighborsOf(b, br, bc)[i])
  {
    var ns := NeighborsOf(b, br, bc);
    NeighborsAreMoves(b, br, bc);
    forall i | 0 <= i < |ns|
      ensures BlankMoved(b, br, bc, ns[i])
    {
      assert IsMove(b, br, bc, ns[i]);
      MoveMovesBlank(b, br, bc, ns[i].blankRow, ns[i].blankCol);
    }
  }

  /** Moving the blank back undoes a move. */
  lemma MoveBack(b: Board, br: int, bc: int, nb: Neighbor)
    requires IsSquare(b) && InBounds(|b|, br, bc) && nb in NeighborsOf(b, br, bc)
    ensures InBounds(|b|, nb.blankRow, nb.blankCol)
    ensures MoveTo(nb.tiles, nb.blankRow, nb.blankCol, br, bc) == Neighbor(b, br, bc)
    ensures MoveTo(b, br, bc, nb.blankRow, nb.blankCol) in NeighborsOf(b, br, bc)
  {
    SwapTwiceReversed(b, br, bc, nb.blankRow, nb.blankCol);
  }

  /** Swapping two cells and then swapping them named the other way round restores the board. */
  lemma SwapTwiceReversed(b: Board, r1: int, c1: int, r2: int, c2: int)
    requires IsSquare(b) && InBounds(|b|, r1, c1) && InBounds(|b|, r2, c2)
    ensures Swap(Swap(b, r1, c1, r2, c2), r2, c2, r1, c1) == b
  {
    BoardExt(Swap(Swap(b, r1, c1, r2, c2), r2, c2, r1, c1), b);
  }

  // ---------------------------------------------------------------------------
  // The operations

  /**
   * createNeighbor: swaps the blank at (blankRow, blankCol) with cell
   * (neighborRow, neighborCol), takes a copy of the board, and swaps back.
   * The board ends as it started; the copy is the swapped board.
   */
  method CreateNeighbor(tiles: array2<int>, blankRow: int, blankCol: int, neighborRow: int, neighborCol: int)
    returns (neighbor: Neighbor)
    requires tiles.Length0 == tiles.Length1
    requires InBounds(tiles.Length0, blankRow, blankCol) && InBounds(tiles.Length0, neighborRow, neighborCol)
    modifies tiles
    ensures Grid(tiles) == old(Grid(tiles))
    ensures neighbor == MoveTo(old(Grid(tiles)), blankRow, blankCol, neighborRow, neighborCol)
  {
    ghost var before := Grid(tiles);
    SwapTiles(tiles, blankRow, blankCol, neighborRow, neighborCol);
    var copy := Grid(tiles);
    SwapTiles(tiles, blankRow, blankCol, neighborRow, neighborCol);
    SwapTwice(before, blankRow, blankCol, neighborRow, neighborCol);
    neighbor := Neighbor(copy, neighborRow, neighborCol);
  }

  /** One step of neighbors: appends the neighbour with the blank moved to (nr, nc). */
  method PushNeighbor(tiles: array2<int>, blankRow: int, blankCol: int, nr: int, nc: int,
                      neighbors: seq<Neighbor>, ghost tried: seq<Pos>)
    returns (neighbors': seq<Neighbor>, ghost tried': seq<Pos>)
    requires tiles.Length0 == tiles.Length1
    requires InBounds(tiles.Length0, blankRow, blankCol) && InBounds(tiles.Length0, nr, nc)
    requires forall i :: 0 <= i < |tried| ==> InBounds(tiles.Length0, tried[i].row, tried[i].col)
    requires neighbors == MovesTo(Grid(tiles), blankRow, blankCol, tried)
    modifies tiles
    ensures Grid(tiles) == old(Grid(tiles))
    ensures tried' == tried + [Pos(nr, nc)]
    ensures neighbors' == MovesTo(Grid(tiles), blankRow, blankCol, tried')
  {
    ghost var b := Grid(tiles);
    var nb := CreateNeighbor(tiles, blankRow, blankCol, nr, nc);
    MovesToAppend(b, blankRow, blankCol, tried, nr, nc);
    neighbors', tried' := neighbors + [nb], tried + [Pos(nr, nc)];
  }

  /**
   * neighbors: the boards one move away, up, left, down, right, each built by
   * createNeighbor. The board ends as it started.
   */
  method Neighbors(tiles: array2<int>, blankRow: int, blankCol: int) returns (neighbors: seq<Neighbor>)
    requires tiles.Length0 == tiles.Length1 && InBounds(tiles.Length0, blankRow, blankCol)
    modifies tiles
    ensures Grid(tiles) == old(Grid(tiles))
    ensures neighbors == NeighborsOf(old(Grid(tiles)), blankRow, blankCol)
  {
    var dimension := tiles.Length0;
    ghost var tried: seq<Pos> := [];
    ghost var up := Try(tried, blankRow > 0, Pos(blankRow - 1, blankCol));
    ghost var left := Try(up, blankCol > 0, Pos(blankRow, blankCol - 1));
    ghost var down := Try(left, blankRow < dimension - 1, Pos(blankRow + 1, blankCol));
    neighbors := [];
    if blankRow > 0 {
      neighbors, tried := PushNeighbor(tiles, blankRow, blankCol, blankRow - 1, blankCol, neighbors, tried);
    }
    assert tried == up;
    if blankCol > 0 {
      neighbors, tried := PushNeighbor(tiles, blankRow, blankCol, blankRow, blankCol - 1, neighbors, tried);
    }
    assert tried == left;
    if blankRow < dimension - 1 {
      neighbors, tried := PushNeighbor(tiles, blankRow, blankCol, blankRow + 1, blankCol, neighbors, tried);
    }
    assert tried == down;
    if blankCol < dimension - 1 {
      neighbors, tried := PushNeighbor(tiles, blankRow, blankCol, blankRow, blankCol + 1, neighbors, tried);
    }
  }
}
