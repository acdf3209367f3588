/**
 * The inversion counter behind the solvability check: a merge sort over an
 * array that sorts it in place and, while merging, counts the pairs p < q with
 * a[p] > a[q] whose right-hand element a[q] is not the blank (0).
 */
module InversionCounter {

  predicate Sorted(s: seq<int>) {
    forall p, q :: 0 <= p < q < |s| ==> s[p] <= s[q]
  }

  /** Number of elements of s greater than x. */
  function CountAbove(s: seq<int>, x: int): nat
  {
    if s == [] then 0
    else CountAbove(s[..|s| - 1], x) + (if s[|s| - 1] > x then 1 else 0)
  }

  /** The inversions y forms as right-hand element with the elements of s before it. */
  function InversionsWith(s: seq<int>, y: int): nat
  {
    if y == 0 then 0 else CountAbove(s, y)
  }

  /**
   * The brute-force count: the pairs p < q with s[p] > s[q] and s[q] != 0,
   * taken right-hand element by right-hand element.
   */
  function Inversions(s: seq<int>): nat
  {
    if s == [] then 0
    else Inversions(s[..|s| - 1]) + InversionsWith(s[..|s| - 1], s[|s| - 1])
  }

  /** The counted pairs whose left element lies in l and right element in r. */
  function Cross(l: seq<int>, r: seq<int>): nat
  {
    if r == [] then 0
    else Cross(l, r[..|r| - 1]) + InversionsWith(l, r[|r| - 1])
  }

  // ---------------------------------------------------------------------------
  // Splitting and permuting

  lemma {:induction false} CountAboveConcat(a: seq<int>, b: seq<int>, x: int)
    ensures CountAbove(a + b, x) == CountAbove(a, x) + CountAbove(b, x)
  {
    if b == [] {
      assert a + b == a;
    } else {
      assert (a + b)[..|a + b| - 1] == a + b[..|b| - 1];
      CountAboveConcat(a, b[..|b| - 1], x);
    }
  }

  lemma {:induction false} CrossConcat(l: seq<int>, a: seq<int>, b: seq<int>)
    ensures Cross(l, a + b) == Cross(l, a) + Cross(l, b)
  {
    if b == [] {
      assert a + b == a;
    } else {
      assert (a + b)[..|a + b| - 1] == a + b[..|b| - 1];
      CrossConcat(l, a, b[..|b| - 1]);
    }
  }

  /** The count of a concatenation: each half's own pairs plus the pairs across. */
  lemma {:induction false} InversionsConcat(a: seq<int>, b: seq<int>)
    ensures Inversions(a + b) == Inversions(a) + Inversions(b) + Cross(a, b)
  {
    if b == [] {
      assert a + b == a;
    } else {
      var init, y := b[..|b| - 1], b[|b| - 1];
      assert (a + b)[..|a + b| - 1] == a + init;
      InversionsConcat(a, init);
      CountAboveConcat(a, init, y);
    }
  }

  /** Taking element k out of b lowers the count by one exactly when b[k] exceeds x. */
  lemma {:induction false} CountAboveRemove(b: seq<int>, k: int, x: int)
    requires 0 <= k < |b|
    ensures CountAbove(b, x) == CountAbove(b[..k] + b[k + 1..], x) + (if b[k] > x then 1 else 0)
  {
    var before, after := b[..k], b[k + 1..];
    assert b == before + ([b[k]] + after);
    CountAboveConcat(before, [b[k]] + after, x);
    CountAboveConcat([b[k]], after, x);
    CountAboveConcat(before, after, x);
    assert [b[k]][..0] == [];
  }

  lemma {:induction false} CrossRemove(l: seq<int>, r: seq<int>, k: int)
    requires 0 <= k < |r|
    ensures Cross(l, r) == Cross(l, r[..k] + r[k + 1..]) + InversionsWith(l, r[k])
  {
    var before, after := r[..k], r[k + 1..];
    assert r == before + ([r[k]] + after);
    CrossConcat(l, before, [r[k]] + after);
    CrossConcat(l, [r[k]], after);
    CrossConcat(l, before, after);
    assert [r[k]][..0] == [];
  }

  /** Some position of b holds the last element of a, and the rest of b is a permutation of the rest of a. */
  lemma {:induction false} PermPeel(a: seq<int>, b: seq<int>) returns (k: int)
    requires multiset(a) == multiset(b) && a != []
    ensures 0 <= k < |b| && b[k] == a[|a| - 1]
    ensures multiset(a[..|a| - 1]) == multiset(b[..k] + b[k + 1..])
  {
    var v := a[|a| - 1];
    assert v in multiset(b) by {
      assert v in a;
    }
    k :| 0 <= k < |b| && b[k] == v;
    var ma := multiset(a[..|a| - 1]);
    assert ma == multiset(a) - multiset{v} by {
      MultisetRemove(a, |a| - 1);
      assert a[..|a| - 1] + a[|a|..] == a[..|a| - 1];
    }
    assert multiset(b[..k] + b[k + 1..]) == multiset(b) - multiset{v} by {
      MultisetRemove(b, k);
    }
  }

  /** How many elements exceed x does not depend on their order. */
  lemma {:induction false} CountAbovePerm(a: seq<int>, b: seq<int>, x: int)
    requires multiset(a) == multiset(b)
    ensures CountAbove(a, x) == CountAbove(b, x)
    decreases |a|
  {
    if a == [] {
      assert |b| == |multiset(b)| == 0;
    } else {
      var k := PermPeel(a, b);
      CountAbovePerm(a[..|a| - 1], b[..k] + b[k + 1..], x);
      CountAboveRemove(b, k, x);
    }
  }

  lemma {:induction false} CrossPermLeft(l: seq<int>, l': seq<int>, r: seq<int>)
    requires multiset(l) == multiset(l')
    ensures Cross(l, r) == Cross(l', r)
  {
    if r != [] {
      CrossPermLeft(l, l', r[..|r| - 1]);
      CountAbovePerm(l, l', r[|r| - 1]);
    }
  }

  lemma {:induction false} CrossPermRight(l: seq<int>, r: seq<int>, r': seq<int>)
    requires multiset(r) == multiset(r')
    ensures Cross(l, r) == Cross(l, r')
    decreases |r|
  {
    if r == [] {
      assert |r'| == |multiset(r')| == 0;
    } else {
      var k := PermPeel(r, r');
      CrossPermRight(l, r[..|r| - 1], r'[..k] + r'[k + 1..]);
      CrossRemove(l, r', k);
    }
  }

  /**
   * The cross count of two runs depends only on which values they hold, so
   * sorting each run first does not change it.
   */
  lemma CrossPerm(l: seq<int>, l': seq<int>, r: seq<int>, r': seq<int>)
    requires multiset(l) == multiset(l') && multiset(r) == multiset(r')
    ensures Cross(l, r) == Cross(l', r')
  {
    CrossPermLeft(l, l', r);
    CrossPermRight(l', r, r');
  }

  /** In a run whose first i elements are at most x and the rest above x, |s| - i exceed x. */
  lemma {:induction false} CountAboveSplit(s: seq<int>, i: int, x: int)
    requires 0 <= i <= |s|
    requires forall p :: 0 <= p < i ==> s[p] <= x
    requires forall p :: i <= p < |s| ==> s[p] > x
    ensures CountAbove(s, x) == |s| - i
  {
    if s != [] {
      var init := s[..|s| - 1];
      CountAboveSplit(init, if i < |s| then i else |s| - 1, x);
    }
  }

  lemma {:induction false} MultisetRemove(s: seq<int>, k: int)
    requires 0 <= k < |s|
    ensures multiset(s[..k] + s[k + 1..]) == multiset(s) - multiset{s[k]}
  {
    assert s == s[..k] + [s[k]] + s[k + 1..];
  }

  lemma CrossAppend(l: seq<int>, r: seq<int>, y: int)
    ensures Cross(l, r + [y]) == Cross(l, r) + InversionsWith(l, y)
  {
    assert (r + [y])[..|r|] == r;
  }

  lemma {:induction false} CrossLeftConcat(a: seq<int>, b: seq<int>, r: seq<int>)
    ensures Cross(a + b, r) == Cross(a, r) + Cross(b, r)
  {
    if r != [] {
      CrossLeftConcat(a, b, r[..|r| - 1]);
      CountAboveConcat(a, b, r[|r| - 1]);
    }
  }

  /** Every element of s is at least h. */
  predicate AtLeast(s: seq<int>, h: int)
  {
    forall p :: 0 <= p < |s| ==> h <= s[p]
  }

  /** A single element no larger than anything in r forms no counted pair with r. */
  lemma {:induction false} CrossBelow(x: int, r: seq<int>)
    requires AtLeast(r, x)
    ensures Cross([x], r) == 0
  {
    if r != [] {
      CrossBelow(x, r[..|r| - 1]);
      assert [x][..0] == [];
      assert x <= r[|r| - 1];
      assert CountAbove([x], r[|r| - 1]) == 0;
    }
  }

  lemma {:induction false} CrossEmpty(r: seq<int>)
    ensures Cross([], r) == 0
  {
    if r != [] {
      CrossEmpty(r[..|r| - 1]);
    }
  }

  // ---------------------------------------------------------------------------
  // The merge of two sorted runs

  /**
   * The merge the merge loop performs, stated front to back: the smaller head
   * goes first, and on a tie the left head does.
   */
  function MergeOf(l: seq<int>, r: seq<int>): seq<int>
    decreases |l| + |r|
  {
    if l == [] then r
    else if r == [] then l
    else if l[0] <= r[0] then [l[0]] + MergeOf(l[1..], r)
    else [r[0]] + MergeOf(l, r[1..])
  }

  /**
   * What the merge loop adds to its counter: whenever the right head goes
   * first and is not the blank, one for each element still in the left run.
   */
  function MergeCount(l: seq<int>, r: seq<int>): nat
    decreases |l| + |r|
  {
    if l == [] || r == [] then 0
    else if l[0] <= r[0] then MergeCount(l[1..], r)
    else (if r[0] != 0 then |l| else 0) + MergeCount(l, r[1..])
  }

  lemma {:induction false} MergeOfPerm(l: seq<int>, r: seq<int>)
    ensures multiset(MergeOf(l, r)) == multiset(l) + multiset(r)
    decreases |l| + |r|
  {
    if l != [] && r != [] {
      if l[0] <= r[0] {
        MergeOfPerm(l[1..], r);
        HeadFirst(l[0], l[1..], r, MergeOf(l[1..], r));
        assert l == [l[0]] + l[1..];
      } else {
        MergeOfPerm(l, r[1..]);
        HeadFirst(r[0], r[1..], l, MergeOf(l, r[1..]));
        assert r == [r[0]] + r[1..];
      }
    }
  }

  /** One step of MergeOfPerm: putting the head x in front of the rest of the merge. */
  lemma HeadFirst(x: int, rest: seq<int>, other: seq<int>, m: seq<int>)
    requires multiset(m) == multiset(rest) + multiset(other)
    ensures multiset([x] + m) == multiset([x] + rest) + multiset(other)
  {
  }

  lemma {:induction false} MergeOfAtLeast(l: seq<int>, r: seq<int>, h: int)
    requires AtLeast(l, h) && AtLeast(r, h)
    ensures AtLeast(MergeOf(l, r), h)
    decreases |l| + |r|
  {
    if l != [] && r != [] {
      if l[0] <= r[0] {
        MergeOfAtLeast(l[1..], r, h);
      } else {
        MergeOfAtLeast(l, r[1..], h);
      }
    }
  }

  /** Merging two sorted runs gives a sorted run. */
  lemma {:induction false} MergeOfSorted(l: seq<int>, r: seq<int>)
    requires Sorted(l) && Sorted(r)
    ensures Sorted(MergeOf(l, r))
    decreases |l| + |r|
  {
    if l != [] && r != [] {
      if l[0] <= r[0] {
        MergeOfSorted(l[1..], r);
        MergeOfAtLeast(l[1..], r, l[0]);
      } else {
        MergeOfSorted(l, r[1..]);
        MergeOfAtLeast(l, r[1..], r[0]);
      }
    }
  }

  /**
   * On sorted runs the merge loop's counter is exactly the number of counted
   * pairs with the left element in l and the right element in r.
   */
  lemma {:induction false} MergeCountCross(l: seq<int>, r: seq<int>)
    requires Sorted(l) && Sorted(r)
    ensures MergeCount(l, r) == Cross(l, r)
    decreases |l| + |r|
  {
    if l == [] {
      CrossEmpty(r);
    } else if r == [] {
    } else if l[0] <= r[0] {
      MergeCountCross(l[1..], r);
      assert l == [l[0]] + l[1..];
      CrossLeftConcat([l[0]], l[1..], r);
      CrossBelow(l[0], r);
    } else {
      MergeCountCross(l, r[1..]);
      assert r == [r[0]] + r[1..];
      CrossConcat(l, [r[0]], r[1..]);
      CrossAppend(l, [], r[0]);
      assert [] + [r[0]] == [r[0]];
      CountAboveSplit(l, 0, r[0]);
    }
  }

  // ---------------------------------------------------------------------------
  // The merge sort

  /**
   * MergeOf and MergeCount on the runs A[i..mid] and A[j..right] of one
   * sequence, following indices the way the merge loop does.
   */
  function MergeFrom(A: seq<int>, i: int, mid: int, j: int, right: int): seq<int>
    requires 0 <= i <= mid + 1 <= j <= right + 1 <= |A|
    decreases mid + right - i - j
  {
    if i > mid then A[j..right + 1]
    else if j > right then A[i..mid + 1]
    else if A[i] <= A[j] then [A[i]] + MergeFrom(A, i + 1, mid, j, right)
    else [A[j]] + MergeFrom(A, i, mid, j + 1, right)
  }

  function CountFrom(A: seq<int>, i: int, mid: int, j: int, right: int): nat
    requires 0 <= i <= mid + 1 <= j <= right + 1 <= |A|
    decreases mid + right - i - j
  {
    if i > mid || j > right then 0
    else if A[i] <= A[j] then CountFrom(A, i + 1, mid, j, right)
    else (if A[j] != 0 then mid - i + 1 else 0) + CountFrom(A, i, mid, j + 1, right)
  }

  lemma {:induction false} MergeFromOf(A: seq<int>, i: int, mid: int, j: int, right: int)
    requires 0 <= i <= mid + 1 <= j <= right + 1 <= |A|
    ensures MergeFrom(A, i, mid, j, right) == MergeOf(A[i..mid + 1], A[j..right + 1])
    ensures CountFrom(A, i, mid, j, right) == MergeCount(A[i..mid + 1], A[j..right + 1])
    decreases mid + right - i - j
  {
    var l, r := A[i..mid + 1], A[j..right + 1];
    if i <= mid && j <= right {
      assert l[0] == A[i] && l[1..] == A[i + 1..mid + 1];
      assert r[0] == A[j] && r[1..] == A[j + 1..right + 1];
      if A[i] <= A[j] {
        MergeFromOf(A, i + 1, mid, j, right);
      } else {
        MergeFromOf(A, i, mid, j + 1, right);
      }
    }
  }

  /** x and y agree everywhere except possibly on positions lo..hi. */
  ghost predicate SameOutside(x: seq<int>, y: seq<int>, lo: int, hi: int)
  {
    |x| == |y| && forall p :: 0 <= p < |x| && !(lo <= p <= hi) ==> x[p] == y[p]
  }

  /**
   * The merge state: t[left..k-1] followed by the merge of what remains of
   * the runs, A[i..mid] and A[j..right], is the merge of the whole runs.
   */
  ghost predicate MergedSoFar(t: seq<int>, A: seq<int>, left: int, mid: int, right: int, i: int, j: int, k: int)
  {
    0 <= left <= i <= mid + 1 <= j <= right + 1 <= |A| == |t| && k == i + j - mid - 1 &&
    t[left..k] + MergeFrom(A, i, mid, j, right) == MergeFrom(A, left, mid, mid + 1, right)
  }

  /** Writing the head of the pending part at position k extends the written prefix by one. */
  lemma AppendStep(t: seq<int>, x: int, rest: seq<int>, whole: seq<int>, left: int, k: int)
    requires 0 <= left <= k < |t| && t[left..k] + ([x] + rest) == whole
    ensures t[k := x][left..k + 1] + rest == whole
  {
    assert t[k := x][left..k + 1] == t[left..k] + [x];
    assert t[left..k] + ([x] + rest) == (t[left..k] + [x]) + rest;
  }

  /** The merge loop takes A[i] from the left run and writes it at position k of t. */
  lemma TakeLeft(t: seq<int>, A: seq<int>, left: int, mid: int, right: int, i: int, j: int, k: int)
    requires MergedSoFar(t, A, left, mid, right, i, j, k)
    requires i <= mid && (j <= right ==> A[i] <= A[j])
    ensures MergedSoFar(t[k := A[i]], A, left, mid, right, i + 1, j, k + 1)
    ensures CountFrom(A, i, mid, j, right) == CountFrom(A, i + 1, mid, j, right)
  {
    assert MergeFrom(A, i, mid, j, right) == [A[i]] + MergeFrom(A, i + 1, mid, j, right) by {
      if j > right {
        assert A[i..mid + 1] == [A[i]] + A[i + 1..mid + 1];
      }
    }
    AppendStep(t, A[i], MergeFrom(A, i + 1, mid, j, right), MergeFrom(A, left, mid, mid + 1, right), left, k);
  }

  /** The merge loop takes A[j] from the right run and writes it at position k of t. */
  lemma TakeRight(t: seq<int>, A: seq<int>, left: int, mid: int, right: int, i: int, j: int, k: int)
    requires MergedSoFar(t, A, left, mid, right, i, j, k)
    requires j <= right && (i <= mid ==> A[i] > A[j])
    ensures MergedSoFar(t[k := A[j]], A, left, mid, right, i, j + 1, k + 1)
    ensures CountFrom(A, i, mid, j, right) ==
            (if i <= mid && A[j] != 0 then mid - i + 1 else 0) + CountFrom(A, i, mid, j + 1, right)
  {
    assert MergeFrom(A, i, mid, j, right) == [A[j]] + MergeFrom(A, i, mid, j + 1, right) by {
      if i > mid {
        assert A[j..right + 1] == [A[j]] + A[j + 1..right + 1];
      }
    }
    AppendStep(t, A[j], MergeFrom(A, i, mid, j + 1, right), MergeFrom(A, left, mid, mid + 1, right), left, k);
  }

  /** The merge statement `tmp[k] := a[i]` that takes the head of the left run. */
  method PutLeft(a: array<int>, tmp: array<int>, left: int, mid: int, right: int, i: int, j: int, k: int)
    requires a != tmp
    requires MergedSoFar(tmp[..], a[..], left, mid, right, i, j, k)
    requires i <= mid && (j <= right ==> a[i] <= a[j])
    modifies tmp
    ensures MergedSoFar(tmp[..], a[..], left, mid, right, i + 1, j, k + 1)
    ensures CountFrom(a[..], i, mid, j, right) == CountFrom(a[..], i + 1, mid, j, right)
  {
    ghost var t := tmp[..];
    TakeLeft(t, a[..], left, mid, right, i, j, k);
    tmp[k] := a[i];
    assert tmp[..] == t[k := a[i]];
  }

  /** The merge statement `tmp[k] := a[j]` that takes the head of the right run. */
  method PutRight(a: array<int>, tmp: array<int>, left: int, mid: int, right: int, i: int, j: int, k: int)
    requires a != tmp
    requires MergedSoFar(tmp[..], a[..], left, mid, right, i, j, k)
    requires j <= right && (i <= mid ==> a[i] > a[j])
    modifies tmp
    ensures MergedSoFar(tmp[..], a[..], left, mid, right, i, j + 1, k + 1)
    ensures CountFrom(a[..], i, mid, j, right) ==
            (if i <= mid && a[j] != 0 then mid - i + 1 else 0) + CountFrom(a[..], i, mid, j + 1, right)
  {
    ghost var t := tmp[..];
    TakeRight(t, a[..], left, mid, right, i, j, k);
    tmp[k] := a[j];
    assert tmp[..] == t[k := a[j]];
  }

  /** The second merge loop: moves what is left of the left run into tmp. */
  method DrainLeft(a: array<int>, tmp: array<int>, left: int, mid: int, right: int, i0: int, j: int, k0: int)
      returns (i: int, k: int)
    requires a != tmp
    requires MergedSoFar(tmp[..], a[..], left, mid, right, i0, j, k0) && (i0 > mid || j > right)
    modifies tmp
    ensures MergedSoFar(tmp[..], a[..], left, mid, right, i, j, k) && i > mid
  {
    i, k := i0, k0;
    while i <= mid
      invariant MergedSoFar(tmp[..], a[..], left, mid, right, i, j, k) && (i > mid || j > right)
      decreases mid - i
    {
      PutLeft(a, tmp, left, mid, right, i, j, k);
      k, i := k + 1, i + 1;
    }
  }

  /** The third merge loop: moves what is left of the right run into tmp, completing the merge. */
  method DrainRight(a: array<int>, tmp: array<int>, left: int, mid: int, right: int, i: int, j0: int, k0: int)
    requires a != tmp
    requires MergedSoFar(tmp[..], a[..], left, mid, right, i, j0, k0) && i > mid
    modifies tmp
    ensures tmp[left..right + 1] == MergeFrom(a[..], left, mid, mid + 1, right)
  {
    var j, k := j0, k0;
    while j <= right
      invariant MergedSoFar(tmp[..], a[..], left, mid, right, i, j, k) && i > mid
      decreases right - j
    {
      PutRight(a, tmp, left, mid, right, i, j, k);
      k, j := k + 1, j + 1;
    }
    MergeDone(tmp[..], a[..], left, mid, right, i, j, k);
  }

  /** Once both runs are used up, the written part of t is the whole merge. */
  lemma MergeDone(t: seq<int>, A: seq<int>, left: int, mid: int, right: int, i: int, j: int, k: int)
    requires MergedSoFar(t, A, left, mid, right, i, j, k) && i > mid && j > right
    ensures t[left..right + 1] == MergeFrom(A, left, mid, mid + 1, right)
  {
    assert t[left..k] + [] == t[left..right + 1];
  }

  /**
   * One pass of the first merge loop: moves the smaller head (the left one
   * on a tie) into tmp, and when the right head goes first and is not the
   * blank, counts the elements still waiting in the left run.
   */
  method HeadStep(a: array<int>, tmp: array<int>, left: int, mid: int, right: int, i: int, j: int, k: int, inversions: nat)
      returns (i': int, j': int, k': int, inversions': nat)
    requires a != tmp && i <= mid && j <= right
    requires MergedSoFar(tmp[..], a[..], left, mid, right, i, j, k)
    modifies tmp
    ensures MergedSoFar(tmp[..], a[..], left, mid, right, i', j', k')
    ensures inversions' + CountFrom(a[..], i', mid, j', right) == inversions + CountFrom(a[..], i, mid, j, right)
    ensures i' + j' == i + j + 1
  {
    i', j', k', inversions' := i, j, k, inversions;
    if a[i'] <= a[j'] {
      PutLeft(a, tmp, left, mid, right, i', j', k');
      k', i' := k' + 1, i' + 1;
    } else {
      PutRight(a, tmp, left, mid, right, i', j', k');
      if a[j'] != 0 {
        inversions' := inversions' + mid - i' + 1;
      }
      k', j' := k' + 1, j' + 1;
    }
  }

  /**
   * HeadStep as the second version of the utilities writes it: j is
   * advanced before the element just moved, a[j - 1], is compared with the
   * blank. The contract is the same as HeadStep's.
   */
  method HeadStep2(a: array<int>, tmp: array<int>, left: int, mid: int, right: int, i: int, j: int, k: int, inversions: nat)
      returns (i': int, j': int, k': int, inversions': nat)
    requires a != tmp && i <= mid && j <= right
    requires MergedSoFar(tmp[..], a[..], left, mid, right, i, j, k)
    modifies tmp
    ensures MergedSoFar(tmp[..], a[..], left, mid, right, i', j', k')
    ensures inversions' + CountFrom(a[..], i', mid, j', right) == inversions + CountFrom(a[..], i, mid, j, right)
    ensures i' + j' == i + j + 1
  {
    i', j', k', inversions' := i, j, k, inversions;
    if a[i'] <= a[j'] {
      PutLeft(a, tmp, left, mid, right, i', j', k');
      k', i' := k' + 1, i' + 1;
    } else {
      PutRight(a, tmp, left, mid, right, i', j', k');
      k', j' := k' + 1, j' + 1;
      if a[j' - 1] != 0 {
        inversions' := inversions' + mid - i' + 1;
      }
    }
  }

  /**
   * The first merge loop: runs while both runs have elements. The count
   * returned is the whole merge's count, since the leftover run adds nothing.
   */
  method MergeHeads(a: array<int>, tmp: array<int>, left: int, mid: int, right: int)
      returns (i: int, j: int, k: int, inversions: nat)
    requires a != tmp && tmp.Length == a.Length && 0 <= left <= mid < right < a.Length
    modifies tmp
    ensures MergedSoFar(tmp[..], a[..], left, mid, right, i, j, k) && (i > mid || j > right)
    ensures inversions == CountFrom(a[..], left, mid, mid + 1, right)
  {
    inversions := 0;
    i, j, k := left, mid + 1, left;
    assert tmp[left..k] == [];
    while i <= mid && j <= right
      invariant MergedSoFar(tmp[..], a[..], left, mid, right, i, j, k)
      invariant inversions + CountFrom(a[..], i, mid, j, right) == CountFrom(a[..], left, mid, mid + 1, right)
      decreases mid + right - i - j
    {
      i, j, k, inversions := HeadStep(a, tmp, left, mid, right, i, j, k, inversions);
    }
  }

  /** The first merge loop of the second version, built on HeadStep2. */
  method MergeHeads2(a: array<int>, tmp: array<int>, left: int, mid: int, right: int)
      returns (i: int, j: int, k: int, inversions: nat)
    requires a != tmp && tmp.Length == a.Length && 0 <= left <= mid < right < a.Length
    modifies tmp
    ensures MergedSoFar(tmp[..], a[..], left, mid, right, i, j, k) && (i > mid || j > right)
    ensures inversions == CountFrom(a[..], left, mid, mid + 1, right)
  {
    inversions := 0;
    i, j, k := left, mid + 1, left;
    assert tmp[left..k] == [];
    while i <= mid && j <= right
      invariant MergedSoFar(tmp[..], a[..], left, mid, right, i, j, k)
      invariant inversions + CountFrom(a[..], i, mid, j, right) == CountFrom(a[..], left, mid, mid + 1, right)
      decreases mid + right - i - j
    {
      i, j, k, inversions := HeadStep2(a, tmp, left, mid, right, i, j, k, inversions);
    }
  }

  /** The three merge loops: tmp[left..right] receives the merge of the two runs. */
  method MergeRuns(a: array<int>, tmp: array<int>, left: int, mid: int, right: int) returns (inversions: nat)
    requires a != tmp && tmp.Length == a.Length && 0 <= left <= mid < right < a.Length
    modifies tmp
    ensures tmp[left..right + 1] == MergeFrom(a[..], left, mid, mid + 1, right)
    ensures inversions == CountFrom(a[..], left, mid, mid + 1, right)
  {
    ghost var A := a[..];
    var i, j, k;
    i, j, k, inversions := MergeHeads(a, tmp, left, mid, right);
    assert a[..] == A;
    i, k := DrainLeft(a, tmp, left, mid, right, i, j, k);
    assert a[..] == A;
    DrainRight(a, tmp, left, mid, right, i, j, k);
    assert a[..] == A;
  }

  /** The final loop of the merge: copies tmp[left..right] back into a. */
  method CopyBack(a: array<int>, tmp: array<int>, left: int, right: int)
    requires a != tmp && tmp.Length == a.Length && 0 <= left <= right + 1 <= a.Length
    modifies a
    ensures a[left..right + 1] == tmp[left..right + 1]
    ensures SameOutside(a[..], old(a[..]), left, right)
  {
    for x := left to right + 1
      invariant a[left..x] == tmp[left..x]
      invariant forall p :: 0 <= p < left || x <= p < a.Length ==> a[p] == old(a[p])
    {
      a[x] := tmp[x];
    }
  }

  /**
   * Merges the sorted runs a[left..mid] and a[mid+1..right] through tmp,
   * copies the result back, and returns the counted pairs across the runs.
   */
  method Merge(a: array<int>, tmp: array<int>, left: int, mid: int, right: int) returns (inversions: nat)
    requires a != tmp && tmp.Length == a.Length
    requires 0 <= left <= mid < right < a.Length
    requires Sorted(a[left..mid + 1]) && Sorted(a[mid + 1..right + 1])
    modifies a, tmp
    ensures a[left..right + 1] == MergeOf(old(a[left..mid + 1]), old(a[mid + 1..right + 1]))
    ensures SameOutside(a[..], old(a[..]), left, right)
    ensures inversions == Cross(old(a[left..mid + 1]), old(a[mid + 1..right + 1]))
  {
    ghost var A := a[..];
    ghost var M := MergeOf(a[left..mid + 1], a[mid + 1..right + 1]);
    MergeLoopsMeaning(A, left, mid, right);
    inversions := MergeRuns(a, tmp, left, mid, right);
    assert a[..] == A;
    ghost var T := tmp[..];
    CopyBack(a, tmp, left, right);
    assert tmp[..] == T;
    assert a[left..right + 1] == M;
  }

  /**
   * What the merge loops compute, on sorted runs: the merge of the two runs
   * and the number of counted pairs across them.
   */
  lemma MergeLoopsMeaning(A: seq<int>, left: int, mid: int, right: int)
    requires 0 <= left <= mid < right < |A|
    requires Sorted(A[left..mid + 1]) && Sorted(A[mid + 1..right + 1])
    ensures MergeFrom(A, left, mid, mid + 1, right) == MergeOf(A[left..mid + 1], A[mid + 1..right + 1])
    ensures CountFrom(A, left, mid, mid + 1, right) == Cross(A[left..mid + 1], A[mid + 1..right + 1])
  {
    MergeFromOf(A, left, mid, mid + 1, right);
    MergeCountCross(A[left..mid + 1], A[mid + 1..right + 1]);
  }

  /** The three merge loops of the second version (its first loop is MergeHeads2). */
  method MergeRuns2(a: array<int>, tmp: array<int>, left: int, mid: int, right: int) returns (inversions: nat)
    requires a != tmp && tmp.Length == a.Length && 0 <= left <= mid < right < a.Length
    modifies tmp
    ensures tmp[left..right + 1] == MergeFrom(a[..], left, mid, mid + 1, right)
    ensures inversions == CountFrom(a[..], left, mid, mid + 1, right)
  {
    ghost var A := a[..];
    var i, j, k;
    i, j, k, inversions := MergeHeads2(a, tmp, left, mid, right);
    assert a[..] == A;
    i, k := DrainLeft(a, tmp, left, mid, right, i, j, k);
    assert a[..] == A;
    DrainRight(a, tmp, left, mid, right, i, j, k);
    assert a[..] == A;
  }

  /** The merge of the second version: the same contract as Merge. */
  method Merge2(a: array<int>, tmp: array<int>, left: int, mid: int, right: int) returns (inversions: nat)
    requires a != tmp && tmp.Length == a.Length
    requires 0 <= left <= mid < right < a.Length
    requires Sorted(a[left..mid + 1]) && Sorted(a[mid + 1..right + 1])
    modifies a, tmp
    ensures a[left..right + 1] == MergeOf(old(a[left..mid + 1]), old(a[mid + 1..right + 1]))
    ensures SameOutside(a[..], old(a[..]), left, right)
    ensures inversions == Cross(old(a[left..mid + 1]), old(a[mid + 1..right + 1]))
  {
    ghost var A := a[..];
    ghost var M := MergeOf(a[left..mid + 1], a[mid + 1..right + 1]);
    MergeLoopsMeaning(A, left, mid, right);
    inversions := MergeRuns2(a, tmp, left, mid, right);
    assert a[..] == A;
    ghost var T := tmp[..];
    CopyBack(a, tmp, left, right);
    assert tmp[..] == T;
    assert a[left..right + 1] == M;
  }

  /**
   * After sorting a[left..mid] and then a[mid+1..right]: each half of C is
   * sorted, holds the values of the same half of A, and the counts returned
   * are those of A's halves.
   */
  lemma HalvesSorted(A: seq<int>, B: seq<int>, C: seq<int>, left: int, mid: int, right: int)
    requires 0 <= left <= mid < right < |A|
    requires SameOutside(B, A, left, mid) && SameOutside(C, B, mid + 1, right)
    requires Sorted(B[left..mid + 1]) && multiset(B[left..mid + 1]) == multiset(A[left..mid + 1])
    requires Sorted(C[mid + 1..right + 1]) && multiset(C[mid + 1..right + 1]) == multiset(B[mid + 1..right + 1])
    ensures C[left..mid + 1] == B[left..mid + 1] && B[mid + 1..right + 1] == A[mid + 1..right + 1]
    ensures Sorted(C[left..mid + 1]) && Sorted(C[mid + 1..right + 1])
    ensures multiset(C[left..mid + 1]) == multiset(A[left..mid + 1])
    ensures multiset(C[mid + 1..right + 1]) == multiset(A[mid + 1..right + 1])
  {
    assert C[left..mid + 1] == B[left..mid + 1];
    assert B[mid + 1..right + 1] == A[mid + 1..right + 1];
  }

  /** Merging the sorted halves of C gives the sorted permutation of A[left..right] and its count. */
  lemma MergedWhole(A: seq<int>, C: seq<int>, D: seq<int>, left: int, mid: int, right: int)
    requires 0 <= left <= mid < right < |A| == |C| == |D|
    requires Sorted(C[left..mid + 1]) && Sorted(C[mid + 1..right + 1])
    requires multiset(C[left..mid + 1]) == multiset(A[left..mid + 1])
    requires multiset(C[mid + 1..right + 1]) == multiset(A[mid + 1..right + 1])
    requires D[left..right + 1] == MergeOf(C[left..mid + 1], C[mid + 1..right + 1])
    ensures Sorted(D[left..right + 1])
    ensures multiset(D[left..right + 1]) == multiset(A[left..right + 1])
    ensures Inversions(A[left..right + 1]) ==
            Inversions(A[left..mid + 1]) + Inversions(A[mid + 1..right + 1]) + Cross(C[left..mid + 1], C[mid + 1..right + 1])
  {
    var l, r := A[left..mid + 1], A[mid + 1..right + 1];
    assert A[left..right + 1] == l + r;
    MergeOfSorted(C[left..mid + 1], C[mid + 1..right + 1]);
    MergeOfPerm(C[left..mid + 1], C[mid + 1..right + 1]);
    InversionsConcat(l, r);
    CrossPerm(l, C[left..mid + 1], r, C[mid + 1..right + 1]);
  }

  lemma SameOutsideTrans(A: seq<int>, B: seq<int>, C: seq<int>, D: seq<int>, left: int, mid: int, right: int)
    requires 0 <= left <= mid < right
    requires SameOutside(B, A, left, mid) && SameOutside(C, B, mid + 1, right) && SameOutside(D, C, left, right)
    ensures SameOutside(D, A, left, right)
  {
  }

  /** A run of at most one element is sorted and has no counted pair. */
  lemma ShortRun(s: seq<int>)
    requires |s| <= 1
    ensures Sorted(s) && Inversions(s) == 0
  {
    if |s| == 1 {
      assert s[..0] == [];
    }
  }

  /**
   * Sorts a[left..right] in place with tmp as the merge buffer and returns
   * the number of counted pairs in the original a[left..right].
   */
  method MergeSort(a: array<int>, tmp: array<int>, left: int, right: int) returns (inversions: nat)
    requires a != tmp && tmp.Length == a.Length && 0 <= left <= right + 1 <= a.Length
    modifies a, tmp
    ensures Sorted(a[left..right + 1])
    ensures multiset(a[left..right + 1]) == multiset(old(a[left..right + 1]))
    ensures SameOutside(a[..], old(a[..]), left, right)
    ensures inversions == Inversions(old(a[left..right + 1]))
    decreases right - left
  {
    inversions := 0;
    if left < right {
      var mid := (left + right) / 2;
      ghost var A := a[..];
      var n := MergeSort(a, tmp, left, mid);
      inversions := inversions + n;
      ghost var B := a[..];
      n := MergeSort(a, tmp, mid + 1, right);
      inversions := inversions + n;
      ghost var C := a[..];
      HalvesSorted(A, B, C, left, mid, right);
      n := Merge(a, tmp, left, mid, right);
      inversions := inversions + n;
      MergedWhole(A, C, a[..], left, mid, right);
      SameOutsideTrans(A, B, C, a[..], left, mid, right);
    } else {
      ShortRun(a[left..right + 1]);
    }
  }

  /**
   * Counts the pairs p < q with s[p] > s[q] and s[q] not the blank, sorting
   * the array in place on the way. The scratch buffer, which grows on demand
   * in the original, is allocated here with the array's length.
   */
  method CountInversions(a: array<int>) returns (inversions: nat)
    modifies a
    ensures inversions == Inversions(old(a[..]))
    ensures Sorted(a[..]) && multiset(a[..]) == multiset(old(a[..]))
  {
    ghost var A := a[..];
    assert A[0..a.Length] == A;
    var tmp := new int[a.Length];
    inversions := MergeSort(a, tmp, 0, a.Length - 1);
    assert a[0..a.Length] == a[..];
  }
}
