/**
 * The solvability classifier: the parity rule of the 15-puzzle applied to the
 * inversion count of the flattened board and the row of the blank, and the
 * facts the shuffle's repair step relies on: the solved board passes the
 * rule, and exchanging two horizontally adjacent non-blank tiles flips it.
 */
module Solvability {
  import opened Boards
  import opened InversionCounter

  /**
   * The parity rule. An odd-sized board needs an even count; an even-sized
   * board needs an odd count when the blank is on an even row and an even
   * count otherwise. (The test `blankRow % 2 == 0` has the same truth value
   * under the truncating `%` of the original and Dafny's Euclidean `%`.)
   */
  predicate ParityRule(n: int, inversions: nat, blankRow: int)
  {
    if n % 2 == 1 then inversions % 2 == 0
    else if blankRow % 2 == 0 then inversions % 2 == 1
    else inversions % 2 == 0
  }

  /** What isSolvable answers for board b with the blank on row blankRow. */
  predicate Solvable(b: Board, blankRow: int)
  {
    ParityRule(|b|, Inversions(Flatten(b)), blankRow)
  }

  /** No value occurs twice. */
  predicate Distinct(s: seq<int>)
  {
    forall p, q :: 0 <= p < q < |s| ==> s[p] != s[q]
  }

  /**
   * `[].concat(...tiles)`: a fresh one-dimensional array holding the rows of
   * the board one after the other.
   */
  method FlattenBoard(tiles: array2<int>) returns (flat: array<int>)
    requires tiles.Length0 == tiles.Length1
    ensures fresh(flat) && flat[..] == Flatten(Grid(tiles))
  {
    var n := tiles.Length0;
    ghost var g := Grid(tiles);
    var s: seq<int> := [];
    for row := 0 to n
      invariant s == Flatten(g[..row])
    {
      var line := seq(n, c reads tiles requires 0 <= c < n => tiles[row, c]);
      assert line == g[row];
      assert g[..row + 1][..row] == g[..row];
      s := s + line;
    }
    assert g[..n] == g;
    flat := new int[|s|](i requires 0 <= i < |s| => s[i]);
  }

  /**
   * isSolvable: applies the parity rule to the count of a flattened copy.
   * The copy is sorted by the count; the board itself is not modified.
   */
  method IsSolvable(tiles: array2<int>, blankRow: int) returns (solvable: bool)
    requires tiles.Length0 == tiles.Length1
    ensures solvable == Solvable(Grid(tiles), blankRow)
  {
    var dimension := tiles.Length0;
    var flattenedBoard := FlattenBoard(tiles);
    var inversions := CountInversions(flattenedBoard);
    if dimension % 2 == 1 {
      return inversions % 2 == 0;
    } else if blankRow % 2 == 0 {
      return inversions % 2 == 1;
    }
    return inversions % 2 == 0;
  }

  // ---------------------------------------------------------------------------
  // The solved board passes the rule

  /** A sorted sequence has no counted pair. */
  lemma {:induction false} SortedNoInversions(s: seq<int>)
    requires Sorted(s)
    ensures Inversions(s) == 0
  {
    if s != [] {
      var init := s[..|s| - 1];
      assert Sorted(init);
      SortedNoInversions(init);
      CountAboveSplit(init, |init|, s[|s| - 1]);
    }
  }

  /** The row-major reading of the solved board has no counted pair. */
  lemma SolvedNoInversions(n: nat)
    requires n >= 1
    ensures Inversions(Flatten(Solved(n))) == 0
  {
    var f := Flatten(Solved(n));
    FlattenSolved(n);
    MulAtLeast(n, n);
    var init := f[..|f| - 1];
    assert Sorted(init) by {
      assert forall k :: 0 <= k < |init| ==> init[k] == k + 1;
    }
    SortedNoInversions(init);
  }

  /** isSolvable accepts the solved board with the blank on its last row. */
  lemma SolvedIsSolvable(n: nat)
    requires n >= 1
    ensures Solvable(Solved(n), n - 1)
  {
    SolvedNoInversions(n);
  }

  /** The solved board holds no value twice. */
  lemma SolvedDistinct(n: nat)
    requires n >= 1
    ensures Distinct(Flatten(Solved(n)))
  {
    FlattenSolved(n);
  }

  // ---------------------------------------------------------------------------
  // One swap flips the rule

  /** The count of a two-element sequence. */
  lemma InversionsPair(x: int, y: int)
    ensures Inversions([x, y]) == if x > y && y != 0 then 1 else 0
  {
    assert [x, y][..1] == [x];
    assert [x][..0] == [];
    assert Inversions([x]) == 0;
    assert CountAbove([x], y) == if x > y then 1 else 0;
  }

  /**
   * Exchanging two neighbouring elements that are distinct and not the blank
   * changes the count by exactly one: up when they were in order, down when
   * they were not.
   */
  lemma AdjacentSwapCount(s: seq<int>, p: int)
    requires 0 <= p && p + 1 < |s|
    requires s[p] != 0 && s[p + 1] != 0 && s[p] != s[p + 1]
    ensures Inversions(SwapAt(s, p, p + 1)) == if s[p] < s[p + 1] then Inversions(s) + 1 else Inversions(s) - 1
  {
    var a, x, y, b := s[..p], s[p], s[p + 1], s[p + 2..];
    var t := SwapAt(s, p, p + 1);
    assert s == (a + [x, y]) + b;
    assert t == (a + [y, x]) + b;
    assert multiset([x, y]) == multiset([y, x]);
    InversionsConcat(a + [x, y], b);
    InversionsConcat(a + [y, x], b);
    CrossPermLeft(a + [x, y], a + [y, x], b);
    InversionsConcat(a, [x, y]);
    InversionsConcat(a, [y, x]);
    CrossPermRight(a, [x, y], [y, x]);
    InversionsPair(x, y);
    InversionsPair(y, x);
  }

  /**
   * The repair swap: exchanging the first two tiles of row r, both non-blank
   * and different, flips what isSolvable answers for any blank row.
   */
  lemma RepairFlips(b: Board, r: int, blankRow: int)
    requires IsSquare(b) && |b| >= 2 && 0 <= r < |b|
    requires b[r][0] != 0 && b[r][1] != 0 && b[r][0] != b[r][1]
    ensures Solvable(Swap(b, r, 0, r, 1), blankRow) == !Solvable(b, blankRow)
  {
    var n := |b|;
    var f := Flatten(b);
    var p := r * n;
    assert IsRect(b, n);
    assert p + 1 < |f| && f[p] == b[r][0] && f[p + 1] == b[r][1] by {
      FlattenAt(b, n, r, 0);
      FlattenAt(b, n, r, 1);
    }
    assert Flatten(Swap(b, r, 0, r, 1)) == SwapAt(f, p, p + 1) by {
      FlattenSwap(b, r, 0, r, 1);
    }
    AdjacentSwapCount(f, p);
    ParityFlip(n, Inversions(f), Inversions(SwapAt(f, p, p + 1)), blankRow);
  }

  /** Counts that differ by one get opposite answers from the parity rule. */
  lemma ParityFlip(n: int, i1: nat, i2: nat, blankRow: int)
    requires i2 == i1 + 1 || i2 + 1 == i1
    ensures ParityRule(n, i2, blankRow) == !ParityRule(n, i1, blankRow)
  {
  }

  /** Exchanging two elements keeps a sequence free of repeats. */
  lemma DistinctSwap(s: seq<int>, p: int, q: int)
    requires 0 <= p < |s| && 0 <= q < |s| && Distinct(s)
    ensures Distinct(SwapAt(s, p, q))
  {
    var t := SwapAt(s, p, q);
    forall i, j | 0 <= i < j < |t|
      ensures t[i] != t[j]
    {
      var i' := if i == p then q else if i == q then p else i;
      var j' := if j == p then q else if j == q then p else j;
      assert t[i] == s[i'] && t[j] == s[j'];
      assert i' != j';
    }
  }
}
