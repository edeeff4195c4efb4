/** The mathematics of the bidirectional frontier search behind CalcMiddleSnake, on values.

    `a` and `b` are the two ranges, N = |a| and M = |b|. A point (x, y) lies on diagonal k = x - y. A frontier
    sequence `p` with origin `o` holds at index o + k an x value on diagonal k. Forward round d fills the diagonals
    -d, -d + 2, ..., d; reverse round d fills delta - d, ..., delta + d, where delta = N - M. */
module Frontier {

  // ----- shared vocabulary -----

  /** The diagonal step of diagonal k that leaves column x is free: a[x] equals b[x - k]. */
  predicate Match<T(==)>(a: seq<T>, b: seq<T>, k: int, x: int) {
    0 <= x < |a| && 0 <= x - k < |b| && a[x] == b[x - k]
  }

  function At(p: seq<int>, o: int, k: int): int {
    if 0 <= o + k < |p| then p[o + k] else 0
  }

  predicate InRound(d: int, k: int) {
    -d <= k <= d && (d + k) % 2 == 0
  }

  predicate InReverse(n: int, m: int, d: int, k: int) {
    InRound(d, k - (n - m))
  }

  /** Every step of diagonal k from column x to column e is free. */
  ghost predicate Diagonal<T>(a: seq<T>, b: seq<T>, k: int, x: int, e: int) {
    forall i :: x <= i < e ==> Match(a, b, k, i)
  }

  // ----- the forward half -----

  /** The column where the matching run of diagonal k from column x stops. */
  function Slide<T(==)>(a: seq<T>, b: seq<T>, k: int, x: int): (e: int)
    ensures x <= e
    ensures e == x || (e <= |a| && e - k <= |b|)
    ensures Diagonal(a, b, k, x, e)
    ensures !Match(a, b, k, e)
    decreases |a| - x
  {
    if Match(a, b, k, x) then Slide(a, b, k, x + 1) else x
  }

  predicate ForwardDown(p: seq<int>, o: int, d: int, k: int) {
    k == -d || (k != d && At(p, o, k + 1) > At(p, o, k - 1))
  }

  /** The diagonal the edit of round d comes from. */
  function ForwardFrom(p: seq<int>, o: int, d: int, k: int): int {
    if ForwardDown(p, o, d, k) then k + 1 else k - 1
  }

  /** The x value after the single edit of forward round d on diagonal k. */
  function ForwardMove(p: seq<int>, o: int, d: int, k: int): int {
    if ForwardDown(p, o, d, k) then At(p, o, k + 1) else At(p, o, k - 1) + 1
  }

  function ForwardNext<T(==)>(a: seq<T>, b: seq<T>, p: seq<int>, o: int, d: int, k: int): int {
    Slide(a, b, k, ForwardMove(p, o, d, k))
  }

  /** What forward round d guarantees on diagonal k. Frontier values may leave the rectangle; the clause on the
      neighbour k + 2 limits how far apart two neighbours can be when one of them has. */
  ghost predicate ForwardGood(n: int, m: int, p: seq<int>, o: int, d: int, k: int) {
    var x := At(p, o, k);
    var x2 := At(p, o, k + 2);
    && 2 * x >= d + k
    && (k == d ==> x - k <= m)
    && (k == -d ==> x <= n)
    && (k + 2 <= d ==>
          && (x2 > n ==> x2 <= x + 1)
          && (x - k > m ==> x < x2))
  }

  ghost predicate ForwardOk(n: int, m: int, p: seq<int>, o: int, d: int) {
    forall k | InRound(d, k) :: ForwardGood(n, m, p, o, d, k)
  }

  /** On the diagonals already met by the other half, the frontier is strictly inside the rectangle. */
  ghost predicate ForwardInside(n: int, m: int, p: seq<int>, o: int, d: int) {
    forall k | InRound(d, k) && -(d - 1) <= k - (n - m) <= d - 1 :: At(p, o, k) < n && At(p, o, k) - k < m
  }

  ghost predicate ForwardRound<T>(a: seq<T>, b: seq<T>, p: seq<int>, q: seq<int>, o: int, d: int) {
    forall k {:trigger InRound(d, k)} | InRound(d, k) :: At(q, o, k) == ForwardNext(a, b, p, o, d, k)
  }

  lemma ForwardCandidates<T>(a: seq<T>, b: seq<T>, p: seq<int>, o: int, d: int, k: int)
    requires InRound(d, k)
    ensures k < d ==> ForwardNext(a, b, p, o, d, k) >= At(p, o, k + 1)
    ensures -d < k ==> ForwardNext(a, b, p, o, d, k) >= At(p, o, k - 1) + 1
    ensures var x := ForwardNext(a, b, p, o, d, k);
            x > |a| || x - k > |b| ==> x == ForwardMove(p, o, d, k)
  {
  }

  lemma ForwardStart<T>(a: seq<T>, b: seq<T>, q: seq<int>, o: int)
    requires At(q, o, 0) == Slide(a, b, 0, 0)
    ensures ForwardOk(|a|, |b|, q, o, 0)
  {
    forall k | InRound(0, k) ensures ForwardGood(|a|, |b|, q, o, 0, k) {
      assert k == 0;
    }
  }

  lemma ForwardStepAt<T>(a: seq<T>, b: seq<T>, p: seq<int>, q: seq<int>, o: int, d: int, k: int)
    requires d > 0 && InRound(d, k)
    requires ForwardOk(|a|, |b|, p, o, d - 1)
    requires ForwardRound(a, b, p, q, o, d)
    ensures ForwardGood(|a|, |b|, q, o, d, k)
  {
    var n, m := |a|, |b|;
    ForwardCandidates(a, b, p, o, d, k);
    if -d < k {
      assert InRound(d - 1, k - 1);
      assert ForwardGood(n, m, p, o, d - 1, k - 1);
    }
    if k < d {
      assert InRound(d - 1, k + 1);
      assert ForwardGood(n, m, p, o, d - 1, k + 1);
      assert InRound(d, k + 2);
      ForwardCandidates(a, b, p, o, d, k + 2);
      if k + 2 < d {
        assert InRound(d - 1, k + 3);
        assert ForwardGood(n, m, p, o, d - 1, k + 3);
      }
    }
  }

  lemma ForwardStep<T>(a: seq<T>, b: seq<T>, p: seq<int>, q: seq<int>, o: int, d: int)
    requires d > 0
    requires ForwardOk(|a|, |b|, p, o, d - 1)
    requires ForwardRound(a, b, p, q, o, d)
    ensures ForwardOk(|a|, |b|, q, o, d)
  {
    forall k | InRound(d, k) ensures ForwardGood(|a|, |b|, q, o, d, k) {
      ForwardStepAt(a, b, p, q, o, d, k);
    }
  }

  /** The edit of round d starts at a point of the quadrant, whatever diagonal it is on. */
  lemma ForwardMoveInQuadrant(n: int, m: int, p: seq<int>, o: int, d: int, k: int)
    requires d > 0 && InRound(d, k)
    requires ForwardOk(n, m, p, o, d - 1)
    ensures ForwardDown(p, o, d, k) ==> At(p, o, k + 1) >= 0 && At(p, o, k + 1) - (k + 1) >= 0
    ensures !ForwardDown(p, o, d, k) ==> At(p, o, k - 1) >= 0 && At(p, o, k - 1) - (k - 1) >= 0
    ensures ForwardMove(p, o, d, k) >= 0 && ForwardMove(p, o, d, k) - k >= 0
  {
    if ForwardDown(p, o, d, k) {
      assert InRound(d - 1, k + 1);
      assert ForwardGood(n, m, p, o, d - 1, k + 1);
    } else {
      assert InRound(d - 1, k - 1);
      assert ForwardGood(n, m, p, o, d - 1, k - 1);
    }
  }

  /** On a diagonal the reverse half has met, the edit of round d stays inside the rectangle. */
  lemma ForwardMoveInRectangle(n: int, m: int, p: seq<int>, o: int, d: int, k: int)
    requires d > 0 && InRound(d, k)
    requires (n - m) % 2 != 0 && -(d - 1) <= k - (n - m) <= d - 1
    requires ForwardOk(n, m, p, o, d - 1) && ForwardInside(n, m, p, o, d - 1)
    ensures ForwardMove(p, o, d, k) <= n && ForwardMove(p, o, d, k) - k <= m
  {
    var delta := n - m;
    if ForwardDown(p, o, d, k) {
      assert InRound(d - 1, k + 1);
      assert ForwardGood(n, m, p, o, d - 1, k + 1);
      if k + 1 - delta > d - 2 {
        assert k + 1 == delta + d;
        if -(d - 1) <= k - 1 {
          assert InRound(d - 1, k - 1);
          assert ForwardGood(n, m, p, o, d - 1, k - 1);
        }
      }
    } else {
      assert InRound(d - 1, k - 1);
      assert ForwardGood(n, m, p, o, d - 1, k - 1);
      if k - 1 - delta < -(d - 2) {
        assert k - 1 == delta - d;
        if k + 1 <= d - 1 {
          assert InRound(d - 1, k + 1);
          assert ForwardGood(n, m, p, o, d - 1, k + 1);
        }
      }
    }
  }

  // ----- the reverse half -----

  /** The column where the matching run of diagonal k backwards from column x stops. */
  function SlideBack<T(==)>(a: seq<T>, b: seq<T>, k: int, x: int): (e: int)
    ensures e <= x
    ensures e == x || (0 <= e && 0 <= e - k)
    ensures Diagonal(a, b, k, e, x)
    ensures !Match(a, b, k, e - 1)
    decreases x
  {
    if Match(a, b, k, x - 1) then SlideBack(a, b, k, x - 1) else x
  }

  predicate ReverseLeft(r: seq<int>, o: int, delta: int, d: int, k: int) {
    k == -d + delta || (k != d + delta && At(r, o, k + 1) < At(r, o, k - 1))
  }

  /** The diagonal the edit of reverse round d comes from. */
  function ReverseFrom(r: seq<int>, o: int, delta: int, d: int, k: int): int {
    if ReverseLeft(r, o, delta, d, k) then k + 1 else k - 1
  }

  /** The x value after the single edit of reverse round d on diagonal k. */
  function ReverseMove(r: seq<int>, o: int, delta: int, d: int, k: int): int {
    if ReverseLeft(r, o, delta, d, k) then At(r, o, k + 1) - 1 else At(r, o, k - 1)
  }

  function ReverseNext<T(==)>(a: seq<T>, b: seq<T>, r: seq<int>, o: int, d: int, k: int): int {
    SlideBack(a, b, k, if d == 0 then |a| else ReverseMove(r, o, |a| - |b|, d, k))
  }

  /** What reverse round d guarantees on diagonal k. Because ties go to the upper neighbour the two neighbour clauses
      are not mirror images: the one about y leaves one unit more. */
  ghost predicate ReverseGood(n: int, m: int, r: seq<int>, o: int, d: int, k: int) {
    var delta := n - m;
    var x := At(r, o, k);
    var x2 := At(r, o, k + 2);
    && 2 * x <= 2 * n - (d - (k - delta))
    && (k == delta - d ==> x - k >= 0)
    && (k == delta + d ==> x >= 0)
    && (k + 2 <= delta + d ==>
          && (x < 0 ==> x >= x2 - 1)
          && (x2 - (k + 2) < 0 ==> x2 >= x))
  }

  ghost predicate ReverseOk(n: int, m: int, r: seq<int>, o: int, d: int) {
    forall k | InReverse(n, m, d, k) :: ReverseGood(n, m, r, o, d, k)
  }

  /** On the diagonals already met by the other half, the frontier is strictly inside the rectangle. */
  ghost predicate ReverseInside(n: int, m: int, r: seq<int>, o: int, d: int) {
    forall k | InReverse(n, m, d, k) && -d <= k <= d :: At(r, o, k) > 0 && At(r, o, k) - k > 0
  }

  ghost predicate ReverseRound<T>(a: seq<T>, b: seq<T>, r: seq<int>, s: seq<int>, o: int, d: int) {
    forall k {:trigger InReverse(|a|, |b|, d, k)} | InReverse(|a|, |b|, d, k) :: At(s, o, k) == ReverseNext(a, b, r, o, d, k)
  }

  lemma ReverseCandidates<T>(a: seq<T>, b: seq<T>, r: seq<int>, o: int, d: int, k: int)
    requires d > 0 && InReverse(|a|, |b|, d, k)
    ensures var delta := |a| - |b|; k < delta + d ==> ReverseNext(a, b, r, o, d, k) <= At(r, o, k + 1)
    ensures var delta := |a| - |b|; delta - d < k ==> ReverseNext(a, b, r, o, d, k) <= At(r, o, k - 1)
    ensures var x := ReverseNext(a, b, r, o, d, k);
            x < 0 || x - k < 0 ==> x == ReverseMove(r, o, |a| - |b|, d, k)
  {
  }

  lemma ReverseStart<T>(a: seq<T>, b: seq<T>, s: seq<int>, o: int)
    requires At(s, o, |a| - |b|) == SlideBack(a, b, |a| - |b|, |a|)
    ensures ReverseOk(|a|, |b|, s, o, 0)
  {
    forall k | InReverse(|a|, |b|, 0, k) ensures ReverseGood(|a|, |b|, s, o, 0, k) {
      assert k == |a| - |b|;
    }
  }

  lemma ReverseStepAt<T>(a: seq<T>, b: seq<T>, r: seq<int>, s: seq<int>, o: int, d: int, k: int)
    requires d > 0 && InReverse(|a|, |b|, d, k)
    requires ReverseOk(|a|, |b|, r, o, d - 1)
    requires ReverseRound(a, b, r, s, o, d)
    ensures ReverseGood(|a|, |b|, s, o, d, k)
  {
    var n, m, delta := |a|, |b|, |a| - |b|;
    ReverseCandidates(a, b, r, o, d, k);
    if delta - d < k {
      assert InReverse(n, m, d - 1, k - 1);
      assert ReverseGood(n, m, r, o, d - 1, k - 1);
    }
    if k < delta + d {
      assert InReverse(n, m, d - 1, k + 1);
      assert ReverseGood(n, m, r, o, d - 1, k + 1);
      assert InReverse(n, m, d, k + 2);
      ReverseCandidates(a, b, r, o, d, k + 2);
      if k + 2 < delta + d {
        assert InReverse(n, m, d - 1, k + 3);
        assert ReverseGood(n, m, r, o, d - 1, k + 3);
      }
    }
  }

  lemma ReverseStep<T>(a: seq<T>, b: seq<T>, r: seq<int>, s: seq<int>, o: int, d: int)
    requires d > 0
    requires ReverseOk(|a|, |b|, r, o, d - 1)
    requires ReverseRound(a, b, r, s, o, d)
    ensures ReverseOk(|a|, |b|, s, o, d)
  {
    forall k | InReverse(|a|, |b|, d, k) ensures ReverseGood(|a|, |b|, s, o, d, k) {
      ReverseStepAt(a, b, r, s, o, d, k);
    }
  }

  lemma ReverseMoveBelowCorner(n: int, m: int, r: seq<int>, o: int, d: int, k: int)
    requires d > 0 && InReverse(n, m, d, k)
    requires ReverseOk(n, m, r, o, d - 1)
    ensures ReverseLeft(r, o, n - m, d, k) ==> At(r, o, k + 1) <= n && At(r, o, k + 1) - (k + 1) <= m
    ensures !ReverseLeft(r, o, n - m, d, k) ==> At(r, o, k - 1) <= n && At(r, o, k - 1) - (k - 1) <= m
    ensures ReverseMove(r, o, n - m, d, k) <= n && ReverseMove(r, o, n - m, d, k) - k <= m
  {
    var delta := n - m;
    if ReverseLeft(r, o, delta, d, k) {
      assert InReverse(n, m, d - 1, k + 1);
      assert ReverseGood(n, m, r, o, d - 1, k + 1);
    } else {
      assert InReverse(n, m, d - 1, k - 1);
      assert ReverseGood(n, m, r, o, d - 1, k - 1);
    }
  }

  /** On a diagonal the forward half has met, the edit of reverse round d stays inside the rectangle. */
  lemma ReverseMoveInRectangle(n: int, m: int, r: seq<int>, o: int, d: int, k: int)
    requires d > 0 && InReverse(n, m, d, k)
    requires (n - m) % 2 == 0 && -d <= k <= d
    requires ReverseOk(n, m, r, o, d - 1) && ReverseInside(n, m, r, o, d - 1)
    ensures ReverseMove(r, o, n - m, d, k) >= 0 && ReverseMove(r, o, n - m, d, k) - k >= 0
  {
    var delta := n - m;
    if ReverseLeft(r, o, delta, d, k) {
      assert InReverse(n, m, d - 1, k + 1);
      assert ReverseGood(n, m, r, o, d - 1, k + 1);
      if delta - (d - 1) <= k - 1 {
        assert InReverse(n, m, d - 1, k - 1);
        assert ReverseGood(n, m, r, o, d - 1, k - 1);
      }
    } else {
      assert InReverse(n, m, d - 1, k - 1);
      assert ReverseGood(n, m, r, o, d - 1, k - 1);
      if k + 1 <= delta + d - 1 {
        assert InReverse(n, m, d - 1, k + 1);
        assert ReverseGood(n, m, r, o, d - 1, k + 1);
      }
    }
  }

  // ----- the two halves must meet -----

  /** Odd delta: if forward round d stays short of reverse round d - 1, the rounds are not used up yet. */
  lemma ForwardMustMeet(n: int, m: int, p: seq<int>, r: seq<int>, o: int, d: int)
    requires n > 0 && m > 0 && (n - m) % 2 != 0 && d >= 0
    requires ForwardOk(n, m, p, o, d)
    requires d > 0 ==> ReverseOk(n, m, r, o, d - 1)
    requires forall k | InRound(d, k) && -(d - 1) <= k - (n - m) <= d - 1 :: At(p, o, k) < At(r, o, k)
    ensures 2 * d <= n + m
    ensures ForwardInside(n, m, p, o, d)
  {
    var delta := n - m;
    forall k | InRound(d, k) && -(d - 1) <= k - delta <= d - 1
      ensures At(p, o, k) < n && At(p, o, k) - k < m && 2 * d - 1 < n + m
    {
      assert ForwardGood(n, m, p, o, d, k);
      assert InReverse(n, m, d - 1, k);
      assert ReverseGood(n, m, r, o, d - 1, k);
    }
    if 2 * d > n + m {
      var k := if -d <= delta - d + 1 then delta - d + 1 else -d;
      assert InRound(d, k);
    }
  }

  lemma ReverseShort(n: int, m: int, p: seq<int>, r: seq<int>, o: int, d: int, k: int)
    requires (n - m) % 2 == 0 && InReverse(n, m, d, k) && -d <= k <= d
    requires ForwardOk(n, m, p, o, d) && ReverseOk(n, m, r, o, d)
    requires At(r, o, k) > At(p, o, k)
    ensures At(r, o, k) > 0 && At(r, o, k) - k > 0
    ensures 2 * d < n + m
  {
    assert ReverseGood(n, m, r, o, d, k);
    SameParity(n, m, d, k);
    assert ForwardGood(n, m, p, o, d, k);
  }

  lemma SameParity(n: int, m: int, d: int, k: int)
    requires (n - m) % 2 == 0 && InReverse(n, m, d, k) && -d <= k <= d
    ensures InRound(d, k)
  {
    var h, j := (n - m) / 2, (d + k - (n - m)) / 2;
    assert d + k == 2 * (h + j);
  }

  /** Even delta: if reverse round d stays short of forward round d, the rounds are not used up yet. */
  lemma ReverseMustMeet(n: int, m: int, p: seq<int>, r: seq<int>, o: int, d: int)
    requires n > 0 && m > 0 && (n - m) % 2 == 0 && d >= 0
    requires ForwardOk(n, m, p, o, d) && ReverseOk(n, m, r, o, d)
    requires forall k | InReverse(n, m, d, k) && -d <= k <= d :: At(r, o, k) > At(p, o, k)
    ensures 2 * d < n + m
    ensures ReverseInside(n, m, r, o, d)
  {
    var delta := n - m;
    forall k | InReverse(n, m, d, k) && -d <= k <= d
      ensures At(r, o, k) > 0 && At(r, o, k) - k > 0
    {
      ReverseShort(n, m, p, r, o, d, k);
    }
    if 2 * d >= n + m {
      ReverseShort(n, m, p, r, o, d, if -d <= delta - d then delta - d else -d);
    }
  }

  // ----- furthest reaching -----

  /** Column x of diagonal k can be reached from (0, 0) with exactly d unit edits and any number of free matches.
      Edits may leave the rectangle, matches exist only inside it. */
  ghost predicate Reach<T(!new)>(a: seq<T>, b: seq<T>, d: nat, k: int, x: int)
    decreases d, x
  {
    x >= 0 && x - k >= 0 &&
    ((d == 0 && k == 0 && x == 0) ||
     (Match(a, b, k, x - 1) && Reach(a, b, d, k, x - 1)) ||
     (d > 0 && Reach(a, b, d - 1, k - 1, x - 1)) ||
     (d > 0 && Reach(a, b, d - 1, k + 1, x)))
  }

  /** x is the largest column of diagonal k reachable with exactly d edits. */
  ghost predicate Furthest<T(!new)>(a: seq<T>, b: seq<T>, d: nat, k: int, x: int) {
    Reach(a, b, d, k, x) && forall e | Reach(a, b, d, k, e) :: e <= x
  }

  ghost predicate FurthestRound<T(!new)>(a: seq<T>, b: seq<T>, p: seq<int>, o: int, d: nat) {
    forall k | InRound(d, k) :: Furthest(a, b, d, k, At(p, o, k))
  }

  lemma {:induction false} ReachDiagonal<T(!new)>(a: seq<T>, b: seq<T>, d: nat, k: int, x: int)
    requires Reach(a, b, d, k, x)
    ensures InRound(d, k)
    decreases d, x
  {
    if d == 0 && k == 0 && x == 0 {
    } else if Match(a, b, k, x - 1) && Reach(a, b, d, k, x - 1) {
      ReachDiagonal(a, b, d, k, x - 1);
    } else if Reach(a, b, d - 1, k - 1, x - 1) {
      ReachDiagonal(a, b, d - 1, k - 1, x - 1);
    } else {
      ReachDiagonal(a, b, d - 1, k + 1, x);
    }
  }

  lemma {:induction false} ReachSlide<T(!new)>(a: seq<T>, b: seq<T>, d: nat, k: int, x: int)
    requires Reach(a, b, d, k, x)
    ensures Reach(a, b, d, k, Slide(a, b, k, x))
    decreases |a| - x
  {
    if Match(a, b, k, x) {
      ReachSlide(a, b, d, k, x + 1);
    }
  }

  lemma {:induction false} ReachBelowNext<T(!new)>(a: seq<T>, b: seq<T>, p: seq<int>, o: int, d: nat, k: int, x: int)
    requires InRound(d, k)
    requires d == 0 ==> ForwardMove(p, o, 0, 0) == 0
    requires d > 0 ==> FurthestRound(a, b, p, o, d - 1)
    requires Reach(a, b, d, k, x)
    ensures x <= ForwardNext(a, b, p, o, d, k)
    decreases x
  {
    ForwardCandidates(a, b, p, o, d, k);
    if Match(a, b, k, x - 1) && Reach(a, b, d, k, x - 1) {
      ReachBelowNext(a, b, p, o, d, k, x - 1);
    } else if d == 0 {
      assert x == 0;
    } else if Reach(a, b, d - 1, k - 1, x - 1) {
      ReachDiagonal(a, b, d - 1, k - 1, x - 1);
      assert Furthest(a, b, d - 1, k - 1, At(p, o, k - 1));
    } else {
      ReachDiagonal(a, b, d - 1, k + 1, x);
      assert Furthest(a, b, d - 1, k + 1, At(p, o, k + 1));
    }
  }

  lemma ForwardNextReached<T(!new)>(a: seq<T>, b: seq<T>, p: seq<int>, o: int, d: nat, k: int)
    requires InRound(d, k)
    requires d == 0 ==> ForwardMove(p, o, 0, 0) == 0
    requires d > 0 ==> Reach(a, b, d - 1, ForwardFrom(p, o, d, k), At(p, o, ForwardFrom(p, o, d, k)))
    requires d > 0 ==> ForwardMove(p, o, d, k) >= 0 && ForwardMove(p, o, d, k) - k >= 0
    ensures Reach(a, b, d, k, ForwardNext(a, b, p, o, d, k))
  {
    ReachSlide(a, b, d, k, ForwardMove(p, o, d, k));
  }

  lemma ForwardNextFurthest<T(!new)>(a: seq<T>, b: seq<T>, p: seq<int>, o: int, d: nat, k: int)
    requires InRound(d, k)
    requires d == 0 ==> ForwardMove(p, o, 0, 0) == 0
    requires d > 0 ==> FurthestRound(a, b, p, o, d - 1) && ForwardOk(|a|, |b|, p, o, d - 1)
    ensures Furthest(a, b, d, k, ForwardNext(a, b, p, o, d, k))
    ensures d > 0 ==> Furthest(a, b, d - 1, ForwardFrom(p, o, d, k), At(p, o, ForwardFrom(p, o, d, k)))
  {
    if d > 0 {
      ForwardMoveInQuadrant(|a|, |b|, p, o, d, k);
      assert InRound(d - 1, ForwardFrom(p, o, d, k));
    }
    ForwardNextReached(a, b, p, o, d, k);
    forall x | Reach(a, b, d, k, x) ensures x <= ForwardNext(a, b, p, o, d, k) {
      ReachBelowNext(a, b, p, o, d, k, x);
    }
  }

  /** One forward round takes furthest-reaching frontiers to furthest-reaching frontiers. */
  lemma ForwardRoundIsFurthest<T(!new)>(a: seq<T>, b: seq<T>, p: seq<int>, q: seq<int>, o: int, d: nat)
    requires d == 0 ==> ForwardMove(p, o, 0, 0) == 0
    requires d > 0 ==> FurthestRound(a, b, p, o, d - 1) && ForwardOk(|a|, |b|, p, o, d - 1)
    requires ForwardRound(a, b, p, q, o, d)
    ensures FurthestRound(a, b, q, o, d)
  {
    forall k | InRound(d, k) ensures Furthest(a, b, d, k, At(q, o, k)) {
      ForwardNextFurthest(a, b, p, o, d, k);
    }
  }
}
