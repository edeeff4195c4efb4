/** The generic diff engine: the linear-space algorithm of Myers, "An O(ND) Difference Algorithm and Its
    Variations", section 4b, as the code runs it. */
module Myers {
  import opened EditScript
  import opened Frontier
  import opened Meeting
  import opened Division

  /** The forward half stopped at furthest-reaching points on both sides of its edit. */
  ghost predicate FurthestSnake<T(!new)>(a: seq<T>, b: seq<T>, xs: int, ys: int, xe: int, ye: int, totalDiff: nat) {
    totalDiff % 2 == 1 ==>
      && Furthest(a, b, totalDiff / 2, xs - ys, xs)
      && Furthest(a, b, totalDiff / 2 + 1, xe - ye, xe)
  }

  /** A free diagonal of a range is a free diagonal of the whole. */
  lemma DiagonalInWhole<T>(A: seq<T>, B: seq<T>, aOfs: int, aLen: int, bOfs: int, bLen: int, k: int, x: int, e: int)
    requires 0 <= aOfs && 0 <= aLen && aOfs + aLen <= |A|
    requires 0 <= bOfs && 0 <= bLen && bOfs + bLen <= |B|
    requires Diagonal(A[aOfs..aOfs + aLen], B[bOfs..bOfs + bLen], k, x, e)
    ensures Diagonal(A, B, aOfs - bOfs + k, aOfs + x, aOfs + e)
  {
    var kk := aOfs - bOfs + k;
    forall i | aOfs + x <= i < aOfs + e ensures Match(A, B, kk, i) {
      assert Match(A[aOfs..aOfs + aLen], B[bOfs..bOfs + bLen], k, i - aOfs);
    }
  }

  lemma SnakeInWhole<T>(A: seq<T>, B: seq<T>, aOfs: int, aLen: int, bOfs: int, bLen: int,
                        xs: int, ys: int, xe: int, ye: int, totalDiff: int)
    requires 0 <= aOfs && 0 <= aLen && aOfs + aLen <= |A|
    requires 0 <= bOfs && 0 <= bLen && bOfs + bLen <= |B|
    requires MiddleSnake(A[aOfs..aOfs + aLen], B[bOfs..bOfs + bLen], xs, ys, xe, ye, totalDiff)
    ensures Span(A, B, aOfs + xs, bOfs + ys, aOfs + xe, bOfs + ye, totalDiff % 2 == 0)
    ensures totalDiff == 1 ==> Span(A, B, aOfs, bOfs, aOfs + xs, bOfs + ys, false)
  {
    var diag := Min(xe - xs, ye - ys);
    if totalDiff % 2 == 0 {
      DiagonalInWhole(A, B, aOfs, aLen, bOfs, bLen, xs - ys, xs, xs + diag);
    } else {
      DiagonalInWhole(A, B, aOfs, aLen, bOfs, bLen, xe - ye, xe - diag, xe);
    }
    if totalDiff == 1 {
      DiagonalInWhole(A, B, aOfs, aLen, bOfs, bLen, 0, 0, xs);
    }
  }

  // ----- the state between half rounds -----

  /** The forward half has finished rounds 0..d without meeting the other half. */
  ghost predicate ForwardRounds<T>(a: seq<T>, b: seq<T>, v: seq<int>, o: int, d: nat) {
    && ForwardOk(|a|, |b|, v, o, d)
    && (d == 0 ==> At(v, o, 0) == Slide(a, b, 0, 0))
    && ((|a| - |b|) % 2 != 0 ==> ForwardInside(|a|, |b|, v, o, d))
  }

  /** The reverse half has finished rounds 0..d without meeting the other half. */
  ghost predicate ReverseRounds<T>(a: seq<T>, b: seq<T>, rv: seq<int>, o: int, d: nat) {
    && ReverseOk(|a|, |b|, rv, o, d)
    && (d == 0 ==> At(rv, o, |a| - |b|) == SlideBack(a, b, |a| - |b|, |a|))
    && ((|a| - |b|) % 2 == 0 ==> ReverseInside(|a|, |b|, rv, o, d))
  }

  /** `q` is `p` with the diagonals of round d below k replaced by the next forward values. */
  ghost predicate ForwardFilled<T>(a: seq<T>, b: seq<T>, p: seq<int>, q: seq<int>, o: int, d: int, k: int) {
    && |q| == |p|
    && (forall i {:trigger InRound(d, i)} | InRound(d, i) && i < k :: At(q, o, i) == ForwardNext(a, b, p, o, d, i))
    && (forall i {:trigger At(q, o, i)} | i >= k - 1 :: At(q, o, i) == At(p, o, i))
  }

  ghost predicate ReverseFilled<T>(a: seq<T>, b: seq<T>, p: seq<int>, q: seq<int>, o: int, d: int, k: int) {
    && |q| == |p|
    && (forall i {:trigger InReverse(|a|, |b|, d, i)} |
          InReverse(|a|, |b|, d, i) && i < k :: At(q, o, i) == ReverseNext(a, b, p, o, d, i))
    && (forall i {:trigger At(q, o, i)} | i >= k - 1 :: At(q, o, i) == At(p, o, i))
  }

  /** No overlap on the diagonals of forward round d below k that reverse round d - 1 has reached. */
  ghost predicate ForwardApart(v: seq<int>, rv: seq<int>, o: int, delta: int, d: int, k: int) {
    forall i {:trigger InRound(d, i)} | InRound(d, i) && i < k && -(d - 1) <= i - delta <= d - 1 :: At(v, o, i) < At(rv, o, i)
  }

  ghost predicate ReverseApart(v: seq<int>, rv: seq<int>, o: int, n: int, m: int, d: int, k: int) {
    forall i {:trigger InReverse(n, m, d, i)} | InReverse(n, m, d, i) && i < k && -d <= i <= d :: At(rv, o, i) > At(v, o, i)
  }

  /** The next value on an unfilled diagonal does not depend on what has been filled. */
  lemma ForwardUnfilled<T>(a: seq<T>, b: seq<T>, p: seq<int>, q: seq<int>, o: int, d: int, k: int)
    requires ForwardFilled(a, b, p, q, o, d, k) && InRound(d, k)
    ensures At(q, o, k - 1) == At(p, o, k - 1) && At(q, o, k + 1) == At(p, o, k + 1)
    ensures ForwardDown(q, o, d, k) == ForwardDown(p, o, d, k)
    ensures ForwardNext(a, b, q, o, d, k) == ForwardNext(a, b, p, o, d, k)
  {
  }

  lemma ReverseUnfilled<T>(a: seq<T>, b: seq<T>, p: seq<int>, q: seq<int>, o: int, d: int, k: int)
    requires ReverseFilled(a, b, p, q, o, d, k) && InReverse(|a|, |b|, d, k)
    ensures At(q, o, k - 1) == At(p, o, k - 1) && At(q, o, k + 1) == At(p, o, k + 1)
    ensures ReverseLeft(q, o, |a| - |b|, d, k) == ReverseLeft(p, o, |a| - |b|, d, k)
    ensures ReverseNext(a, b, q, o, d, k) == ReverseNext(a, b, p, o, d, k)
  {
  }

  lemma ForwardFill<T>(a: seq<T>, b: seq<T>, p: seq<int>, q: seq<int>, r: seq<int>, o: int, d: int, k: int, x: int)
    requires InRound(d, k) && 0 <= o + k < |q|
    requires ForwardFilled(a, b, p, q, o, d, k) && x == ForwardNext(a, b, p, o, d, k)
    requires (|a| - |b|) % 2 != 0 ==> ForwardApart(q, r, o, |a| - |b|, d, k)
    requires (|a| - |b|) % 2 != 0 && -(d - 1) <= k - (|a| - |b|) <= d - 1 ==> x < At(r, o, k)
    ensures ForwardFilled(a, b, p, q[o + k := x], o, d, k + 2)
    ensures (|a| - |b|) % 2 != 0 ==> ForwardApart(q[o + k := x], r, o, |a| - |b|, d, k + 2)
  {
    assert !InRound(d, k + 1);
    var s := q[o + k := x];
    forall i ensures At(s, o, i) == if i == k then x else At(q, o, i) {
    }
  }

  lemma ReverseFill<T>(a: seq<T>, b: seq<T>, v: seq<int>, p: seq<int>, q: seq<int>, o: int, d: int, k: int, x: int)
    requires InReverse(|a|, |b|, d, k) && 0 <= o + k < |q|
    requires ReverseFilled(a, b, p, q, o, d, k) && x == ReverseNext(a, b, p, o, d, k)
    requires (|a| - |b|) % 2 == 0 ==> ReverseApart(v, q, o, |a|, |b|, d, k)
    requires (|a| - |b|) % 2 == 0 && -d <= k <= d ==> x > At(v, o, k)
    ensures ReverseFilled(a, b, p, q[o + k := x], o, d, k + 2)
    ensures (|a| - |b|) % 2 == 0 ==> ReverseApart(v, q[o + k := x], o, |a|, |b|, d, k + 2)
  {
    assert !InReverse(|a|, |b|, d, k + 1);
    var s := q[o + k := x];
    forall i ensures At(s, o, i) == if i == k then x else At(q, o, i) {
    }
  }

  lemma DiagonalInRound(d: int, i: int, k: int)
    requires 0 <= i <= d && k == 2 * i - d
    ensures InRound(d, k)
  {
  }

  lemma ForwardMoveOk<T>(a: seq<T>, b: seq<T>, p: seq<int>, o: int, d: int, k: int)
    requires 0 <= d && InRound(d, k)
    requires d == 0 ==> At(p, o, 1) == 0
    requires d > 0 ==> ForwardOk(|a|, |b|, p, o, d - 1)
    ensures ForwardMove(p, o, d, k) >= 0 && ForwardMove(p, o, d, k) - k >= 0
  {
    if d > 0 {
      ForwardMoveInQuadrant(|a|, |b|, p, o, d, k);
    }
  }

  lemma ReverseMoveOk<T>(a: seq<T>, b: seq<T>, r: seq<int>, o: int, d: int, k: int)
    requires 0 <= d && InReverse(|a|, |b|, d, k)
    requires d > 0 ==> ReverseOk(|a|, |b|, r, o, d - 1)
    ensures d > 0 ==> ReverseMove(r, o, |a| - |b|, d, k) <= |a| && ReverseMove(r, o, |a| - |b|, d, k) - k <= |b|
  {
    if d > 0 {
      ReverseMoveBelowCorner(|a|, |b|, r, o, d, k);
    }
  }

  lemma ForwardHalfDone<T>(a: seq<T>, b: seq<T>, p: seq<int>, q: seq<int>, rv: seq<int>, o: int, d: nat)
    requires |a| > 0 && |b| > 0
    requires d == 0 ==> ForwardMove(p, o, 0, 0) == 0
    requires d > 0 ==> ForwardRounds(a, b, p, o, d - 1) && ReverseRounds(a, b, rv, o, d - 1)
    requires ForwardFilled(a, b, p, q, o, d, d + 2)
    requires (|a| - |b|) % 2 != 0 ==> ForwardApart(q, rv, o, |a| - |b|, d, d + 2)
    ensures ForwardRounds(a, b, q, o, d)
    ensures (|a| - |b|) % 2 != 0 ==> 2 * d < |a| + |b|
  {
    if d == 0 {
      assert InRound(0, 0);
      ForwardStart(a, b, q, o);
    } else {
      ForwardStep(a, b, p, q, o, d);
    }
    if (|a| - |b|) % 2 != 0 {
      ForwardMustMeet(|a|, |b|, q, rv, o, d);
    }
  }

  lemma ForwardHalfFurthest<T(!new)>(a: seq<T>, b: seq<T>, p: seq<int>, q: seq<int>, o: int, d: nat)
    requires d == 0 ==> At(p, o, 1) == 0
    requires d > 0 ==> FurthestRound(a, b, p, o, d - 1) && ForwardRounds(a, b, p, o, d - 1)
    requires ForwardFilled(a, b, p, q, o, d, d + 2)
    ensures FurthestRound(a, b, q, o, d)
  {
    ForwardRoundIsFurthest(a, b, p, q, o, d);
  }

  lemma ReverseHalfDone<T>(a: seq<T>, b: seq<T>, v: seq<int>, r: seq<int>, s: seq<int>, o: int, d: nat)
    requires |a| > 0 && |b| > 0
    requires ForwardRounds(a, b, v, o, d)
    requires d > 0 ==> ReverseRounds(a, b, r, o, d - 1)
    requires ReverseFilled(a, b, r, s, o, d, |a| - |b| + d + 2)
    requires (|a| - |b|) % 2 == 0 ==> ReverseApart(v, s, o, |a|, |b|, d, |a| - |b| + d + 2)
    ensures ReverseRounds(a, b, s, o, d)
    ensures (|a| - |b|) % 2 == 0 ==> 2 * d < |a| + |b|
  {
    if d == 0 {
      assert InReverse(|a|, |b|, 0, |a| - |b|);
      ReverseStart(a, b, s, o);
    } else {
      ReverseStep(a, b, r, s, o, d);
    }
    if (|a| - |b|) % 2 == 0 {
      ReverseMustMeet(|a|, |b|, v, s, o, d);
    }
  }

  function MaxD(n: int, m: int): int {
    (m + n + 1) / 2
  }

  // ----- what an overlap reports -----

  /** The reported segment is the edit and the matches of one diagonal of forward round d, overlapping the reverse
      frontier `r` of round d - 1; `p` is v before the round. */
  ghost predicate ForwardFound<T>(a: seq<T>, b: seq<T>, p: seq<int>, r: seq<int>, o: int, d: int,
                                  xs: int, ys: int, xe: int, ye: int, totalDiff: int) {
    var k, delta := xe - ye, |a| - |b|;
    && delta % 2 != 0 && d > 0 && InRound(d, k) && -(d - 1) <= k - delta <= d - 1 && totalDiff == 2 * d - 1
    && var from := ForwardFrom(p, o, d, k);
    && xs == At(p, o, from) && ys == xs - from
    && xe == ForwardNext(a, b, p, o, d, k) >= At(r, o, k)
  }

  lemma ForwardSnakeFound<T>(a: seq<T>, b: seq<T>, p: seq<int>, r: seq<int>, o: int, d: int,
                             xs: int, ys: int, xe: int, ye: int, totalDiff: int)
    requires |a| > 0 && |b| > 0 && d > 0 && ForwardRounds(a, b, p, o, d - 1) && ReverseRounds(a, b, r, o, d - 1)
    requires ForwardFound(a, b, p, r, o, d, xs, ys, xe, ye, totalDiff)
    ensures MiddleSnake(a, b, xs, ys, xe, ye, totalDiff)
  {
    var k := xe - ye;
    var move := ForwardMove(p, o, d, k);
    assert 0 <= move <= |a| && 0 <= move - k <= |b| && xs >= 0 && ys >= 0 by {
      ForwardMoveInQuadrant(|a|, |b|, p, o, d, k);
      ForwardMoveInRectangle(|a|, |b|, p, o, d, k);
    }
    assert Diagonal(a, b, k, move, xe);
    if d == 1 {
      assert k == |a| - |b|;
      assert xe < |a| ==> Match(a, b, k, xe);
    }
  }

  lemma ForwardSnakeFurthest<T(!new)>(a: seq<T>, b: seq<T>, p: seq<int>, r: seq<int>, o: int, d: nat,
                                      xs: int, ys: int, xe: int, ye: int, totalDiff: nat)
    requires d > 0 && FurthestRound(a, b, p, o, d - 1) && ForwardRounds(a, b, p, o, d - 1)
    requires ForwardFound(a, b, p, r, o, d, xs, ys, xe, ye, totalDiff)
    ensures FurthestSnake(a, b, xs, ys, xe, ye, totalDiff)
  {
    ForwardStartFurthest(a, b, p, r, o, d, xs, ys, xe, ye, totalDiff);
    ForwardNextFurthest(a, b, p, o, d, xe - ye);
    assert totalDiff / 2 == d - 1;
  }

  lemma ForwardStartFurthest<T(!new)>(a: seq<T>, b: seq<T>, p: seq<int>, r: seq<int>, o: int, d: nat,
                                      xs: int, ys: int, xe: int, ye: int, totalDiff: nat)
    requires d > 0 && FurthestRound(a, b, p, o, d - 1)
    requires ForwardFound(a, b, p, r, o, d, xs, ys, xe, ye, totalDiff)
    ensures Furthest(a, b, d - 1, xs - ys, xs)
  {
    assert InRound(d - 1, xs - ys) && xs == At(p, o, xs - ys);
  }

  /** The edit of reverse round d on a diagonal the forward half has met, as a unit step of the rectangle. */
  lemma ReverseEdit(n: int, m: int, r: seq<int>, o: int, d: int, k: int)
    requires d > 0 && InReverse(n, m, d, k) && (n - m) % 2 == 0 && -d <= k <= d
    requires ReverseOk(n, m, r, o, d - 1) && ReverseInside(n, m, r, o, d - 1)
    ensures var move, from := ReverseMove(r, o, n - m, d, k), ReverseFrom(r, o, n - m, d, k);
            var xe := At(r, o, from);
            && 0 <= move <= xe <= n && 0 <= move - k <= xe - from <= m
            && ((from == k + 1 && xe == move + 1) || (from == k - 1 && xe == move))
  {
    ReverseMoveBelowCorner(n, m, r, o, d, k);
    ReverseMoveInRectangle(n, m, r, o, d, k);
  }

  lemma WholeDiagonalFound<T>(a: seq<T>, b: seq<T>, v: seq<int>, r: seq<int>, o: int)
    requires |a| == |b|
    requires At(v, o, 0) == Slide(a, b, 0, 0)
    requires ReverseNext(a, b, r, o, 0, 0) <= At(v, o, 0)
    ensures ReverseNext(a, b, r, o, 0, 0) == 0
    ensures MiddleSnake(a, b, 0, 0, |a|, |b|, 0)
  {
    var xs := ReverseNext(a, b, r, o, 0, 0);
    assert xs > 0 ==> Match(a, b, 0, xs - 1);
  }

  /** An overlap that the forward half finds. */
  lemma ForwardOverlap<T>(a: seq<T>, b: seq<T>, p: seq<int>, r: seq<int>, o: int, d: int, k: int,
                          xs: int, ys: int, xe: int, ye: int, totalDiff: int)
    requires |a| > 0 && |b| > 0 && InRound(d, k) && (|a| - |b|) % 2 != 0 && -(d - 1) <= k - (|a| - |b|) <= d - 1
    requires xs == At(p, o, ForwardFrom(p, o, d, k)) == ys + ForwardFrom(p, o, d, k)
    requires xe == ForwardNext(a, b, p, o, d, k) >= At(r, o, k) && ye == xe - k && totalDiff == 2 * d - 1
    ensures ForwardFound(a, b, p, r, o, d, xs, ys, xe, ye, totalDiff)
  {
    assert xe - ye == k && xs - ys == ForwardFrom(p, o, d, k);
  }

  /** The reported segment is the matches of one diagonal of reverse round d, overlapping the forward frontier `v` of
      the round, and the edit behind them; `r` is rv before the round. */
  ghost predicate ReverseFound<T>(a: seq<T>, b: seq<T>, v: seq<int>, r: seq<int>, o: int, d: int,
                                  xs: int, ys: int, xe: int, ye: int, totalDiff: int) {
    var k, delta := xs - ys, |a| - |b|;
    && delta % 2 == 0 && d >= 0 && InReverse(|a|, |b|, d, k) && -d <= k <= d && totalDiff == 2 * d
    && xs == ReverseNext(a, b, r, o, d, k) <= At(v, o, k)
    && if d == 0 then xe == |a| && ye == |b|
       else var from := ReverseFrom(r, o, delta, d, k); xe == At(r, o, from) && ye == xe - from
  }

  /** An overlap that the reverse half finds. */
  lemma ReverseOverlap<T>(a: seq<T>, b: seq<T>, v: seq<int>, r: seq<int>, o: int, d: int, k: int,
                          xe: int, ye: int, newX: int)
    requires InReverse(|a|, |b|, d, k) && (|a| - |b|) % 2 == 0 && 0 <= d && -d <= k <= d
    requires d == 0 ==> xe == |a| && ye == xe - k
    requires d > 0 ==> xe == At(r, o, ReverseFrom(r, o, |a| - |b|, d, k)) == ye + ReverseFrom(r, o, |a| - |b|, d, k)
    requires newX == ReverseNext(a, b, r, o, d, k) <= At(v, o, k)
    ensures ReverseFound(a, b, v, r, o, d, newX, newX - k, xe, ye, 2 * d)
  {
    assert d == 0 ==> k == |a| - |b|;
  }

  lemma ReverseSnakeFound<T>(a: seq<T>, b: seq<T>, v: seq<int>, r: seq<int>, o: int, d: int,
                             xs: int, ys: int, xe: int, ye: int, totalDiff: int)
    requires |a| > 0 && |b| > 0 && 0 <= d && ForwardRounds(a, b, v, o, d)
    requires d > 0 ==> ReverseRounds(a, b, r, o, d - 1)
    requires ReverseFound(a, b, v, r, o, d, xs, ys, xe, ye, totalDiff)
    ensures MiddleSnake(a, b, xs, ys, xe, ye, totalDiff) && totalDiff % 2 == 0
  {
    if d == 0 {
      WholeDiagonalFound(a, b, v, r, o);
    } else {
      var k := xs - ys;
      ReverseEdit(|a|, |b|, r, o, d, k);
      assert Diagonal(a, b, k, xs, ReverseMove(r, o, |a| - |b|, d, k));
    }
  }

  // ----- the first overlap -----

  /** The forward half is through with round d. */
  lemma ForwardHalfUnmet<T>(a: seq<T>, b: seq<T>, p: seq<int>, q: seq<int>, r: seq<int>, o: int, d: nat)
    requires d == 0 ==> At(p, o, 1) == 0
    requires d > 0 ==> ForwardRow(a, b, p, o, d - 1) && ReverseRow(a, b, r, o, d - 1)
    requires ForwardFilled(a, b, p, q, o, d, d + 2)
    requires (|a| - |b|) % 2 != 0 ==> ForwardApart(q, r, o, |a| - |b|, d, d + 2)
    ensures ForwardRow(a, b, q, o, d)
    ensures (|a| - |b|) % 2 != 0 ==> forall k :: !Meets(a, b, d, k)
  {
    forall k | InRound(d, k) ensures At(q, o, k) == ForwardX(a, b, d, k) {
      ForwardRowNext(a, b, p, o, d, k);
    }
    if (|a| - |b|) % 2 != 0 {
      forall k ensures !Meets(a, b, d, k) {
        if Tested(|a|, |b|, d, k) {
          ForwardShort(a, b, q, r, o, d, k, d + 2);
        }
      }
    }
  }

  /** The test that found nothing on diagonal i. */
  lemma ForwardShort<T>(a: seq<T>, b: seq<T>, q: seq<int>, r: seq<int>, o: int, d: nat, i: int, k: int)
    requires (|a| - |b|) % 2 != 0 && d > 0 && Tested(|a|, |b|, d, i) && i < k
    requires At(q, o, i) == ForwardX(a, b, d, i) && ReverseRow(a, b, r, o, d - 1)
    requires ForwardApart(q, r, o, |a| - |b|, d, k)
    ensures !Meets(a, b, d, i)
  {
    OddTested(|a|, |b|, d, i);
  }

  /** The forward half stops in round d. */
  lemma ForwardHalfFirst<T>(a: seq<T>, b: seq<T>, p: seq<int>, q: seq<int>, r: seq<int>, o: int, d: nat,
                            xs: int, ys: int, xe: int, ye: int, totalDiff: int)
    requires d > 0 && ForwardRow(a, b, p, o, d - 1) && ReverseRow(a, b, r, o, d - 1) && Unmet(a, b, d)
    requires ForwardFound(a, b, p, r, o, d, xs, ys, xe, ye, totalDiff)
    requires ForwardFilled(a, b, p, q, o, d, xe - ye) && ForwardApart(q, r, o, |a| - |b|, d, xe - ye)
    ensures FirstSegment(a, b, xs, ys, xe, ye, totalDiff)
  {
    var k := xe - ye;
    ForwardNotBefore(a, b, p, q, r, o, d, k);
    ForwardRowNext(a, b, p, o, d, k);
    ForwardMeets(a, b, r, o, d, k, xe);
    ForwardSegmentFirst(a, b, d, k, ForwardFrom(p, o, d, k), xs, ys, xe, ye);
  }

  lemma ForwardNotBefore<T>(a: seq<T>, b: seq<T>, p: seq<int>, q: seq<int>, r: seq<int>, o: int, d: nat, k: int)
    requires (|a| - |b|) % 2 != 0 && d > 0 && ForwardRow(a, b, p, o, d - 1) && ReverseRow(a, b, r, o, d - 1)
    requires ForwardFilled(a, b, p, q, o, d, k) && ForwardApart(q, r, o, |a| - |b|, d, k)
    ensures forall i | i < k :: !Meets(a, b, d, i)
  {
    forall i | i < k ensures !Meets(a, b, d, i) {
      if Tested(|a|, |b|, d, i) {
        ForwardRowNext(a, b, p, o, d, i);
        ForwardShort(a, b, q, r, o, d, i, k);
      }
    }
  }

  lemma OddTested(n: int, m: int, d: nat, k: int)
    requires (n - m) % 2 != 0 && Tested(n, m, d, k)
    ensures InRound(d, k) && InReverse(n, m, d - 1, k) && ReverseRoundOf(n, m, d) == d - 1
  {
  }

  lemma ForwardMeets<T>(a: seq<T>, b: seq<T>, r: seq<int>, o: int, d: nat, k: int, x: int)
    requires d > 0 && ReverseRow(a, b, r, o, d - 1)
    requires (|a| - |b|) % 2 != 0 && Tested(|a|, |b|, d, k) && x == ForwardX(a, b, d, k) && x >= At(r, o, k)
    ensures Meets(a, b, d, k)
  {
    OddTested(|a|, |b|, d, k);
    ReverseRowAt(a, b, r, o, d - 1, k);
    MeetsAt(a, b, d, k, d - 1, x, At(r, o, k));
  }

  lemma ForwardSegmentFirst<T>(a: seq<T>, b: seq<T>, d: nat, k: int, from: int, xs: int, ys: int, xe: int, ye: int)
    requires MeetsFirst(a, b, d, k)
    requires (|a| - |b|) % 2 != 0 && d > 0 && from == ForwardSource(a, b, d, k)
    requires xs == ForwardX(a, b, d - 1, from) && ys == xs - from && xe == ForwardX(a, b, d, k) && ye == xe - k
    ensures FirstSegment(a, b, xs, ys, xe, ye, 2 * d - 1)
  {
    assert SegmentAt(a, b, d, k, xs, ys, xe, ye, 2 * d - 1);
    FirstIsOne(a, b, d, k, xs, ys, xe, ye, 2 * d - 1);
  }

  /** The reverse half is through with round d. */
  lemma ReverseHalfUnmet<T>(a: seq<T>, b: seq<T>, v: seq<int>, r: seq<int>, s: seq<int>, o: int, d: nat)
    requires d > 0 ==> ReverseRow(a, b, r, o, d - 1)
    requires ForwardRow(a, b, v, o, d)
    requires ReverseFilled(a, b, r, s, o, d, |a| - |b| + d + 2)
    requires (|a| - |b|) % 2 == 0 ==> ReverseApart(v, s, o, |a|, |b|, d, |a| - |b| + d + 2)
    ensures ReverseRow(a, b, s, o, d)
    ensures (|a| - |b|) % 2 == 0 ==> forall k :: !Meets(a, b, d, k)
  {
    forall k | InReverse(|a|, |b|, d, k) ensures At(s, o, k) == ReverseX(a, b, d, k) {
      ReverseRowNext(a, b, r, o, d, k);
    }
    if (|a| - |b|) % 2 == 0 {
      forall k ensures !Meets(a, b, d, k) {
        if Tested(|a|, |b|, d, k) {
          ReverseShortAt(a, b, v, s, o, d, k, |a| - |b| + d + 2);
        }
      }
    }
  }

  lemma ReverseShortAt<T>(a: seq<T>, b: seq<T>, v: seq<int>, s: seq<int>, o: int, d: nat, i: int, k: int)
    requires (|a| - |b|) % 2 == 0 && Tested(|a|, |b|, d, i) && i < k
    requires At(s, o, i) == ReverseX(a, b, d, i) && ForwardRow(a, b, v, o, d)
    requires ReverseApart(v, s, o, |a|, |b|, d, k)
    ensures !Meets(a, b, d, i)
  {
    SameParity(|a|, |b|, d, i);
  }

  /** The reverse half stops in round d. */
  lemma ReverseHalfFirst<T>(a: seq<T>, b: seq<T>, v: seq<int>, r: seq<int>, s: seq<int>, o: int, d: nat,
                            xs: int, ys: int, xe: int, ye: int, totalDiff: int)
    requires d > 0 ==> ReverseRow(a, b, r, o, d - 1)
    requires ForwardRow(a, b, v, o, d) && Unmet(a, b, d)
    requires ReverseFound(a, b, v, r, o, d, xs, ys, xe, ye, totalDiff)
    requires ReverseFilled(a, b, r, s, o, d, xs - ys) && ReverseApart(v, s, o, |a|, |b|, d, xs - ys)
    ensures FirstSegment(a, b, xs, ys, xe, ye, totalDiff)
  {
    var k := xs - ys;
    ReverseNotBefore(a, b, v, r, s, o, d, k);
    EvenTested(|a|, |b|, d, k);
    ReverseRowNext(a, b, r, o, d, k);
    ReverseMeets(a, b, v, o, d, k, xs);
    assert MeetsFirst(a, b, d, k);
    if d == 0 {
      ReverseSegmentFirst(a, b, d, k, k, xs, ys, xe, ye);
    } else {
      ReverseSegmentFirst(a, b, d, k, ReverseFrom(r, o, |a| - |b|, d, k), xs, ys, xe, ye);
    }
  }

  lemma ReverseNotBefore<T>(a: seq<T>, b: seq<T>, v: seq<int>, r: seq<int>, s: seq<int>, o: int, d: nat, k: int)
    requires (|a| - |b|) % 2 == 0 && ForwardRow(a, b, v, o, d)
    requires d > 0 ==> ReverseRow(a, b, r, o, d - 1)
    requires ReverseFilled(a, b, r, s, o, d, k) && ReverseApart(v, s, o, |a|, |b|, d, k)
    ensures forall i | i < k :: !Meets(a, b, d, i)
  {
    forall i | i < k ensures !Meets(a, b, d, i) {
      if Tested(|a|, |b|, d, i) {
        ReverseRowNext(a, b, r, o, d, i);
        ReverseShortAt(a, b, v, s, o, d, i, k);
      }
    }
  }

  lemma EvenTested(n: int, m: int, d: nat, k: int)
    requires (n - m) % 2 == 0 && InReverse(n, m, d, k) && 0 <= k + d && k <= d
    ensures Tested(n, m, d, k)
  {
  }

  lemma ReverseMeets<T>(a: seq<T>, b: seq<T>, v: seq<int>, o: int, d: nat, k: int, x: int)
    requires ForwardRow(a, b, v, o, d)
    requires (|a| - |b|) % 2 == 0 && Tested(|a|, |b|, d, k) && x == ReverseX(a, b, d, k) && x <= At(v, o, k)
    ensures Meets(a, b, d, k)
  {
    SameParity(|a|, |b|, d, k);
    ForwardRowAt(a, b, v, o, d, k);
    MeetsAt(a, b, d, k, d, At(v, o, k), x);
  }

  lemma ReverseSegmentFirst<T>(a: seq<T>, b: seq<T>, d: nat, k: int, from: int, xs: int, ys: int, xe: int, ye: int)
    requires MeetsFirst(a, b, d, k)
    requires (|a| - |b|) % 2 == 0 && xs == ReverseX(a, b, d, k) && ys == xs - k
    requires d == 0 ==> xe == |a| && ye == |b|
    requires d > 0 ==> from == ReverseSource(a, b, d, k) && xe == ReverseX(a, b, d - 1, from) && ye == xe - from
    ensures FirstSegment(a, b, xs, ys, xe, ye, 2 * d)
  {
    assert SegmentAt(a, b, d, k, xs, ys, xe, ye, 2 * d);
    FirstIsOne(a, b, d, k, xs, ys, xe, ye, 2 * d);
  }

  lemma UnmetNext<T>(a: seq<T>, b: seq<T>, d: nat)
    requires Unmet(a, b, d) && forall k :: !Meets(a, b, d, k)
    ensures Unmet(a, b, d + 1)
  {
  }

  // ----- the search; `a` and `b` are the two ranges cut out of mA and mB -----

  /** Follows matching elements down diagonal k from column x. */
  method FollowMatches<T(==)>(a: seq<T>, b: seq<T>, k: int, x: int) returns (newX: int)
    requires |a| > 0 && |b| > 0
    requires x >= 0 && x - k >= 0
    ensures newX == Slide(a, b, k, x)
  {
    newX := x;
    var newY := newX - k;
    while newX < |a|
      invariant newX >= 0 && newY == newX - k >= 0
      invariant Slide(a, b, k, newX) == Slide(a, b, k, x)
    {
      if newY >= |b| {
        break;
      }
      if a[newX] != b[newY] {
        break;
      }
      newX, newY := newX + 1, newY + 1;
    }
  }

  /** Follows matching elements up diagonal k from column x. */
  method FollowMatchesBack<T(==)>(a: seq<T>, b: seq<T>, k: int, x: int) returns (newX: int)
    requires |a| > 0 && |b| > 0
    requires x <= |a| && x - k <= |b|
    ensures newX == SlideBack(a, b, k, x)
  {
    newX := x;
    var newY := newX - k;
    while newX > 0
      invariant newX <= |a| && newY == newX - k <= |b|
      invariant SlideBack(a, b, k, newX) == SlideBack(a, b, k, x)
    {
      if newY <= 0 {
        break;
      }
      if a[newX - 1] != b[newY - 1] {
        break;
      }
      newX, newY := newX - 1, newY - 1;
    }
  }

  /** The edit and the matches of one diagonal of forward round d. */
  method ForwardDiagonal<T(==)>(a: seq<T>, b: seq<T>, v: array<int>, vOfs: int, d: int, k: int)
    returns (xStart: int, yStart: int, newX: int)
    requires |a| > 0 && |b| > 0
    requires 0 <= d <= vOfs && 0 < vOfs && v.Length == 2 * vOfs + 1 && InRound(d, k)
    requires ForwardMove(v[..], vOfs, d, k) >= 0 && ForwardMove(v[..], vOfs, d, k) - k >= 0
    ensures xStart == At(v[..], vOfs, ForwardFrom(v[..], vOfs, d, k))
    ensures yStart == xStart - ForwardFrom(v[..], vOfs, d, k)
    ensures newX == ForwardNext(a, b, v[..], vOfs, d, k)
  {
    if k == -d || (k != d && v[vOfs + k + 1] > v[vOfs + k - 1]) {
      // A step down from the diagonal above.
      xStart := v[vOfs + k + 1];
      yStart := xStart - (k + 1);
      newX := xStart;
    } else {
      // A step right from the diagonal below.
      xStart := v[vOfs + k - 1];
      yStart := xStart - (k - 1);
      newX := xStart + 1;
    }
    newX := FollowMatches(a, b, k, newX);
  }

  /** The edit and the matches of one diagonal of reverse round d. */
  method ReverseDiagonal<T(==)>(a: seq<T>, b: seq<T>, rv: array<int>, vOfs: int, d: int, k: int)
    returns (xEnd: int, yEnd: int, newX: int)
    requires |a| > 0 && |b| > 0
    requires 0 <= d && rv.Length == 2 * vOfs + 1 && d + Abs(|a| - |b|) <= vOfs && InReverse(|a|, |b|, d, k)
    requires d > 0 ==> ReverseMove(rv[..], vOfs, |a| - |b|, d, k) <= |a|
    requires d > 0 ==> ReverseMove(rv[..], vOfs, |a| - |b|, d, k) - k <= |b|
    ensures var from := ReverseFrom(rv[..], vOfs, |a| - |b|, d, k);
            && xEnd == (if d == 0 then |a| else At(rv[..], vOfs, from))
            && yEnd == xEnd - (if d == 0 then k else from)
    ensures newX == ReverseNext(a, b, rv[..], vOfs, d, k)
  {
    var delta := |a| - |b|;
    if d == 0 {
      newX := |a|;
      xEnd := |a|;
      yEnd := xEnd - k;
    } else if k == -d + delta || (k != d + delta && rv[vOfs + k + 1] < rv[vOfs + k - 1]) {
      // A step left from the diagonal above.
      xEnd := rv[vOfs + k + 1];
      yEnd := xEnd - (k + 1);
      newX := xEnd - 1;
    } else {
      // A step up from the diagonal below.
      xEnd := rv[vOfs + k - 1];
      yEnd := xEnd - (k - 1);
      newX := xEnd;
    }
    newX := FollowMatchesBack(a, b, k, newX);
  }

  /** One diagonal of forward round d with its overlap test; `p` is v as the round began. */
  method ForwardTry<T(==)>(a: seq<T>, b: seq<T>, v: array<int>, rv: array<int>, vOfs: int, d: int, k: int,
                           ghost p: seq<int>)
    returns (found: bool, xStart: int, yStart: int, xEnd: int, yEnd: int, totalDiff: int, newX: int)
    requires |a| > 0 && |b| > 0
    requires vOfs == MaxD(|a|, |b|) + Abs(|a| - |b|) && 0 <= d <= MaxD(|a|, |b|) && InRound(d, k)
    requires v.Length == rv.Length == 2 * vOfs + 1
    requires d == 0 ==> At(p, vOfs, 1) == 0
    requires d > 0 ==> ForwardRounds(a, b, p, vOfs, d - 1)
    requires d > 0 ==> ReverseRounds(a, b, rv[..], vOfs, d - 1)
    requires ForwardFilled(a, b, p, v[..], vOfs, d, k)
    ensures newX == ForwardNext(a, b, p, vOfs, d, k)
    ensures found ==> ForwardFound(a, b, p, rv[..], vOfs, d, xStart, yStart, xEnd, yEnd, totalDiff) && xEnd - yEnd == k
    ensures !found && (|a| - |b|) % 2 != 0 && -(d - 1) <= k - (|a| - |b|) <= d - 1 ==> newX < At(rv[..], vOfs, k)
  {
    var delta := |a| - |b|;
    ForwardUnfilled(a, b, p, v[..], vOfs, d, k);
    ForwardMoveOk(a, b, p, vOfs, d, k);
    xEnd, yEnd, totalDiff, found := 0, 0, 0, false;
    xStart, yStart, newX := ForwardDiagonal(a, b, v, vOfs, d, k);
    if delta % 2 != 0 && k >= delta - (d - 1) && k <= delta + (d - 1) && newX >= rv[vOfs + k] {
      xEnd := newX;
      yEnd := newX - k;
      totalDiff := 2 * d - 1;
      found := true;
      ForwardOverlap(a, b, p, rv[..], vOfs, d, k, xStart, yStart, xEnd, yEnd, totalDiff);
    }
  }

  /** One diagonal of reverse round d with its overlap test; `r` is rv as the round began. */
  method ReverseTry<T(==)>(a: seq<T>, b: seq<T>, v: array<int>, rv: array<int>, vOfs: int, d: int, k: int,
                           ghost r: seq<int>)
    returns (found: bool, xStart: int, yStart: int, xEnd: int, yEnd: int, totalDiff: int, newX: int)
    requires |a| > 0 && |b| > 0
    requires vOfs == MaxD(|a|, |b|) + Abs(|a| - |b|) && 0 <= d <= MaxD(|a|, |b|) && InReverse(|a|, |b|, d, k)
    requires v.Length == rv.Length == 2 * vOfs + 1
    requires d > 0 ==> ReverseRounds(a, b, r, vOfs, d - 1)
    requires ReverseFilled(a, b, r, rv[..], vOfs, d, k)
    ensures newX == ReverseNext(a, b, r, vOfs, d, k)
    ensures found ==> ReverseFound(a, b, v[..], r, vOfs, d, xStart, yStart, xEnd, yEnd, totalDiff) && xStart - yStart == k
    ensures !found && (|a| - |b|) % 2 == 0 && -d <= k <= d ==> newX > At(v[..], vOfs, k)
  {
    var delta := |a| - |b|;
    ReverseUnfilled(a, b, r, rv[..], vOfs, d, k);
    ReverseMoveOk(a, b, r, vOfs, d, k);
    xStart, yStart, totalDiff, found := 0, 0, 0, false;
    xEnd, yEnd, newX := ReverseDiagonal(a, b, rv, vOfs, d, k);
    if delta % 2 == 0 && k >= -d && k <= d && newX <= v[vOfs + k] {
      xStart := newX;
      yStart := newX - k;
      totalDiff := 2 * d;
      found := true;
      ReverseOverlap(a, b, v[..], r, vOfs, d, k, xEnd, yEnd, newX);
    }
  }

  /** One diagonal of the forward half: an overlap, or its value filled in. */
  method ForwardTurn<T(==)>(a: seq<T>, b: seq<T>, v: array<int>, rv: array<int>, vOfs: int, d: int, k: int,
                            ghost p: seq<int>)
    returns (found: bool, xStart: int, yStart: int, xEnd: int, yEnd: int, totalDiff: int)
    requires |a| > 0 && |b| > 0
    requires vOfs == MaxD(|a|, |b|) + Abs(|a| - |b|) && 0 <= d <= MaxD(|a|, |b|) && InRound(d, k)
    requires v.Length == rv.Length == 2 * vOfs + 1 && v != rv
    requires d == 0 ==> At(p, vOfs, 1) == 0
    requires d > 0 ==> ForwardRounds(a, b, p, vOfs, d - 1)
    requires d > 0 ==> ReverseRounds(a, b, rv[..], vOfs, d - 1)
    requires ForwardFilled(a, b, p, v[..], vOfs, d, k)
    requires (|a| - |b|) % 2 != 0 ==> ForwardApart(v[..], rv[..], vOfs, |a| - |b|, d, k)
    modifies v
    ensures found ==> ForwardFound(a, b, p, rv[..], vOfs, d, xStart, yStart, xEnd, yEnd, totalDiff) && xEnd - yEnd == k
    ensures found ==> v[..] == old(v[..])
    ensures !found ==> ForwardFilled(a, b, p, v[..], vOfs, d, k + 2)
    ensures !found && (|a| - |b|) % 2 != 0 ==> ForwardApart(v[..], rv[..], vOfs, |a| - |b|, d, k + 2)
  {
    var newX;
    found, xStart, yStart, xEnd, yEnd, totalDiff, newX := ForwardTry(a, b, v, rv, vOfs, d, k, p);
    if !found {
      ghost var q := v[..];
      ForwardFill(a, b, p, q, rv[..], vOfs, d, k, newX);
      v[vOfs + k] := newX;
      assert v[..] == q[vOfs + k := newX];
    }
  }

  /** The forward half of round d: fills v on the diagonals of the round, or stops at an overlap. */
  method ForwardHalf<T(==)>(a: seq<T>, b: seq<T>, v: array<int>, rv: array<int>, vOfs: int, d: int)
    returns (found: bool, xStart: int, yStart: int, xEnd: int, yEnd: int, totalDiff: int)
    requires |a| > 0 && |b| > 0
    requires vOfs == MaxD(|a|, |b|) + Abs(|a| - |b|) && 0 <= d <= MaxD(|a|, |b|)
    requires v.Length == rv.Length == 2 * vOfs + 1 && v != rv
    requires d == 0 ==> v[vOfs + 1] == 0
    requires d > 0 ==> ForwardRounds(a, b, v[..], vOfs, d - 1)
    requires d > 0 ==> ReverseRounds(a, b, rv[..], vOfs, d - 1)
    modifies v
    ensures found ==>
              && ForwardFound(a, b, old(v[..]), rv[..], vOfs, d, xStart, yStart, xEnd, yEnd, totalDiff)
              && ForwardFilled(a, b, old(v[..]), v[..], vOfs, d, xEnd - yEnd)
              && ForwardApart(v[..], rv[..], vOfs, |a| - |b|, d, xEnd - yEnd)
    ensures !found ==>
              && ForwardFilled(a, b, old(v[..]), v[..], vOfs, d, d + 2)
              && ((|a| - |b|) % 2 != 0 ==> ForwardApart(v[..], rv[..], vOfs, |a| - |b|, d, d + 2))
  {
    ghost var p, q, r := v[..], v[..], rv[..];
    var delta := |a| - |b|;
    found, xStart, yStart, xEnd, yEnd, totalDiff := false, 0, 0, 0, 0, 0;
    var k := -d;
    ghost var i := 0;
    while k <= d
      invariant 0 <= i <= d + 1 && k == 2 * i - d
      invariant v[..] == q && rv[..] == r && ForwardFilled(a, b, p, q, vOfs, d, k)
      invariant delta % 2 != 0 ==> ForwardApart(q, r, vOfs, delta, d, k)
    {
      DiagonalInRound(d, i, k);
      found, xStart, yStart, xEnd, yEnd, totalDiff := ForwardTurn(a, b, v, rv, vOfs, d, k, p);
      if found {
        return;
      }
      q := v[..];
      k, i := k + 2, i + 1;
    }
    assert k == d + 2;
  }

  /** One diagonal of the reverse half: an overlap, or its value filled in. */
  method ReverseTurn<T(==)>(a: seq<T>, b: seq<T>, v: array<int>, rv: array<int>, vOfs: int, d: int, k: int,
                            ghost r: seq<int>)
    returns (found: bool, xStart: int, yStart: int, xEnd: int, yEnd: int, totalDiff: int)
    requires |a| > 0 && |b| > 0
    requires vOfs == MaxD(|a|, |b|) + Abs(|a| - |b|) && 0 <= d <= MaxD(|a|, |b|) && InReverse(|a|, |b|, d, k)
    requires v.Length == rv.Length == 2 * vOfs + 1 && v != rv
    requires d > 0 ==> ReverseRounds(a, b, r, vOfs, d - 1)
    requires ReverseFilled(a, b, r, rv[..], vOfs, d, k)
    requires (|a| - |b|) % 2 == 0 ==> ReverseApart(v[..], rv[..], vOfs, |a|, |b|, d, k)
    modifies rv
    ensures found ==> ReverseFound(a, b, v[..], r, vOfs, d, xStart, yStart, xEnd, yEnd, totalDiff) && xStart - yStart == k
    ensures found ==> rv[..] == old(rv[..])
    ensures !found ==> ReverseFilled(a, b, r, rv[..], vOfs, d, k + 2)
    ensures !found && (|a| - |b|) % 2 == 0 ==> ReverseApart(v[..], rv[..], vOfs, |a|, |b|, d, k + 2)
  {
    var newX;
    found, xStart, yStart, xEnd, yEnd, totalDiff, newX := ReverseTry(a, b, v, rv, vOfs, d, k, r);
    if !found {
      ghost var q := rv[..];
      ReverseFill(a, b, v[..], r, q, vOfs, d, k, newX);
      rv[vOfs + k] := newX;
      assert rv[..] == q[vOfs + k := newX];
    }
  }

  /** The reverse half of round d: fills rv on the diagonals of the round, or stops at an overlap. */
  method ReverseHalf<T(==)>(a: seq<T>, b: seq<T>, v: array<int>, rv: array<int>, vOfs: int, d: int)
    returns (found: bool, xStart: int, yStart: int, xEnd: int, yEnd: int, totalDiff: int)
    requires |a| > 0 && |b| > 0
    requires vOfs == MaxD(|a|, |b|) + Abs(|a| - |b|) && 0 <= d <= MaxD(|a|, |b|)
    requires v.Length == rv.Length == 2 * vOfs + 1 && v != rv
    requires d > 0 ==> ReverseRounds(a, b, rv[..], vOfs, d - 1)
    modifies rv
    ensures found ==>
              && ReverseFound(a, b, v[..], old(rv[..]), vOfs, d, xStart, yStart, xEnd, yEnd, totalDiff)
              && ReverseFilled(a, b, old(rv[..]), rv[..], vOfs, d, xStart - yStart)
              && ReverseApart(v[..], rv[..], vOfs, |a|, |b|, d, xStart - yStart)
    ensures !found ==>
              && ReverseFilled(a, b, old(rv[..]), rv[..], vOfs, d, |a| - |b| + d + 2)
              && ((|a| - |b|) % 2 == 0 ==> ReverseApart(v[..], rv[..], vOfs, |a|, |b|, d, |a| - |b| + d + 2))
  {
    ghost var p, q, r := v[..], rv[..], rv[..];
    var delta := |a| - |b|;
    found, xStart, yStart, xEnd, yEnd, totalDiff := false, 0, 0, 0, 0, 0;
    var k := -d + delta;
    ghost var i := 0;
    while k <= d + delta
      invariant 0 <= i <= d + 1 && k == delta + 2 * i - d
      invariant v[..] == p && rv[..] == q && ReverseFilled(a, b, r, q, vOfs, d, k)
      invariant delta % 2 == 0 ==> ReverseApart(p, q, vOfs, |a|, |b|, d, k)
    {
      DiagonalInRound(d, i, k - delta);
      found, xStart, yStart, xEnd, yEnd, totalDiff := ReverseTurn(a, b, v, rv, vOfs, d, k, r);
      if found {
        return;
      }
      q := rv[..];
      k, i := k + 2, i + 1;
    }
    assert k == |a| - |b| + d + 2;
  }

  /** Round d: an overlap of its forward or its reverse half, or both frontiers one round further. */
  method BothHalves<T(==, !new)>(a: seq<T>, b: seq<T>, v: array<int>, rv: array<int>, vOfs: int, d: int)
    returns (found: bool, xStart: int, yStart: int, xEnd: int, yEnd: int, totalDiff: int)
    requires |a| > 0 && |b| > 0
    requires vOfs == MaxD(|a|, |b|) + Abs(|a| - |b|) && 0 <= d <= MaxD(|a|, |b|)
    requires v.Length == rv.Length == 2 * vOfs + 1 && v != rv
    requires d == 0 ==> v[vOfs + 1] == 0
    requires d > 0 ==> ForwardRounds(a, b, v[..], vOfs, d - 1) && FurthestRound(a, b, v[..], vOfs, d - 1)
    requires d > 0 ==> ReverseRounds(a, b, rv[..], vOfs, d - 1)
    requires d > 0 ==> ForwardRow(a, b, v[..], vOfs, d - 1) && ReverseRow(a, b, rv[..], vOfs, d - 1)
    requires Unmet(a, b, d)
    modifies v, rv
    ensures found ==> MiddleSnake(a, b, xStart, yStart, xEnd, yEnd, totalDiff)
    ensures found ==> FurthestSnake(a, b, xStart, yStart, xEnd, yEnd, totalDiff)
    ensures found ==> FirstSegment(a, b, xStart, yStart, xEnd, yEnd, totalDiff)
    ensures !found ==> ForwardRounds(a, b, v[..], vOfs, d) && FurthestRound(a, b, v[..], vOfs, d)
    ensures !found ==> ReverseRounds(a, b, rv[..], vOfs, d) && d < MaxD(|a|, |b|)
    ensures !found ==> ForwardRow(a, b, v[..], vOfs, d) && ReverseRow(a, b, rv[..], vOfs, d) && Unmet(a, b, d + 1)
  {
    ghost var p, r := v[..], rv[..];
    found, xStart, yStart, xEnd, yEnd, totalDiff := ForwardHalf(a, b, v, rv, vOfs, d);
    if found {
      ForwardSnakeFound(a, b, p, r, vOfs, d, xStart, yStart, xEnd, yEnd, totalDiff);
      ForwardSnakeFurthest(a, b, p, r, vOfs, d, xStart, yStart, xEnd, yEnd, totalDiff);
      ForwardHalfFirst(a, b, p, v[..], r, vOfs, d, xStart, yStart, xEnd, yEnd, totalDiff);
      return;
    }
    ghost var q := v[..];
    ForwardHalfDone(a, b, p, q, r, vOfs, d);
    ForwardHalfFurthest(a, b, p, q, vOfs, d);
    ForwardHalfUnmet(a, b, p, q, r, vOfs, d);
    found, xStart, yStart, xEnd, yEnd, totalDiff := ReverseHalf(a, b, v, rv, vOfs, d);
    if found {
      ReverseSnakeFound(a, b, q, r, vOfs, d, xStart, yStart, xEnd, yEnd, totalDiff);
      ReverseHalfFirst(a, b, q, r, rv[..], vOfs, d, xStart, yStart, xEnd, yEnd, totalDiff);
      return;
    }
    ReverseHalfDone(a, b, q, r, rv[..], vOfs, d);
    ReverseHalfUnmet(a, b, q, r, rv[..], vOfs, d);
    UnmetNext(a, b, d);
  }

  /** What the scripts of both sides and of the segment between are together. */
  lemma Together<T>(A: seq<T>, B: seq<T>, aOfs: int, aLen: int, bOfs: int, bLen: int, path: seq<Entry>, c: Cut)
    requires 0 < aLen && 0 <= aOfs && aOfs + aLen <= |A| && 0 < bLen && 0 <= bOfs && bOfs + bLen <= |B|
    requires FirstSegment(A[aOfs..aOfs + aLen], B[bOfs..bOfs + bLen], c.xs, c.ys, c.xe, c.ye, c.totalDiff)
    requires InRectangle(aLen, bLen, c.xs, c.ys, c.xe, c.ye, c.totalDiff)
    requires InOrder(c.segment, Min(c.xe - c.xs, c.ye - c.ys), Abs((c.xe - c.xs) - (c.ye - c.ys)), c.totalDiff % 2 == 0)
    requires c.totalDiff <= 1 ==> Joined(c.before) == |c.before| == c.xs && c.behind == []
    requires c.totalDiff > 1 ==>
               && Divided(A[aOfs..aOfs + c.xs], B[bOfs..bOfs + c.ys], c.before)
               && Divided(A[aOfs + c.xe..aOfs + c.xe + (aLen - c.xe)], B[bOfs + c.ye..bOfs + c.ye + (bLen - c.ye)], c.behind)
    requires path == c.before + c.segment + c.behind
    ensures Divided(A[aOfs..aOfs + aLen], B[bOfs..bOfs + bLen], path)
  {
    Parts(A, aOfs, aLen, c.xs, c.xe);
    Parts(B, bOfs, bLen, c.ys, c.ye);
    DividedBy(A[aOfs..aOfs + aLen], B[bOfs..bOfs + bLen], path, c, A[aOfs..aOfs + c.xs], B[bOfs..bOfs + c.ys],
              A[aOfs + c.xe..aOfs + c.xe + (aLen - c.xe)], B[bOfs + c.ye..bOfs + c.ye + (bLen - c.ye)]);
  }

  /** The same for a script, with what it joins. */
  lemma ScriptTogether<T>(A: seq<T>, B: seq<T>, aOfs: int, aLen: int, bOfs: int, bLen: int, path: seq<Entry>, c: Cut)
    requires 0 < aLen && 0 <= aOfs && aOfs + aLen <= |A| && 0 < bLen && 0 <= bOfs && bOfs + bLen <= |B|
    requires FirstSegment(A[aOfs..aOfs + aLen], B[bOfs..bOfs + bLen], c.xs, c.ys, c.xe, c.ye, c.totalDiff)
    requires InRectangle(aLen, bLen, c.xs, c.ys, c.xe, c.ye, c.totalDiff)
    requires InOrder(c.segment, Min(c.xe - c.xs, c.ye - c.ys), Abs((c.xe - c.xs) - (c.ye - c.ys)), c.totalDiff % 2 == 0)
    requires c.totalDiff <= 1 ==> Joined(c.before) == |c.before| == c.xs && c.behind == []
    requires c.totalDiff > 1 ==>
               && Divided(A[aOfs..aOfs + c.xs], B[bOfs..bOfs + c.ys], c.before)
               && Divided(A[aOfs + c.xe..aOfs + c.xe + (aLen - c.xe)], B[bOfs + c.ye..bOfs + c.ye + (bLen - c.ye)], c.behind)
    requires path == c.before + c.segment + c.behind && IsScript(A, B, path, aOfs, bOfs, aOfs + aLen, bOfs + bLen)
    ensures Divided(A[aOfs..aOfs + aLen], B[bOfs..bOfs + bLen], path)
    ensures Joined(path) == bLen <==> Contains(A[aOfs..aOfs + aLen], B[bOfs..bOfs + bLen])
    ensures Joined(path) == aLen <==> Contains(B[bOfs..bOfs + bLen], A[aOfs..aOfs + aLen])
  {
    Together(A, B, aOfs, aLen, bOfs, bLen, path, c);
    AllJoined(A, B, path, aOfs, bOfs, aOfs + aLen, bOfs + bLen, A[aOfs..aOfs + aLen], B[bOfs..bOfs + bLen]);
  }

  lemma ShortTogether<T>(A: seq<T>, B: seq<T>, aOfs: int, aLen: int, bOfs: int, bLen: int, path: seq<Entry>, c: Cut)
    requires 0 < aLen && 0 <= aOfs && aOfs + aLen <= |A| && 0 < bLen && 0 <= bOfs && bOfs + bLen <= |B|
    requires FirstSegment(A[aOfs..aOfs + aLen], B[bOfs..bOfs + bLen], c.xs, c.ys, c.xe, c.ye, c.totalDiff)
    requires InRectangle(aLen, bLen, c.xs, c.ys, c.xe, c.ye, c.totalDiff) && c.totalDiff <= 1
    requires InOrder(c.segment, Min(c.xe - c.xs, c.ye - c.ys), Abs((c.xe - c.xs) - (c.ye - c.ys)), c.totalDiff % 2 == 0)
    requires Joined(c.before) == |c.before| == c.xs && c.behind == []
    requires path == c.before + c.segment && IsScript(A, B, path, aOfs, bOfs, aOfs + aLen, bOfs + bLen)
    ensures Divided(A[aOfs..aOfs + aLen], B[bOfs..bOfs + bLen], path)
    ensures Joined(path) == bLen <==> Contains(A[aOfs..aOfs + aLen], B[bOfs..bOfs + bLen])
    ensures Joined(path) == aLen <==> Contains(B[bOfs..bOfs + bLen], A[aOfs..aOfs + aLen])
  {
    assert path == c.before + c.segment + c.behind;
    ScriptTogether(A, B, aOfs, aLen, bOfs, bLen, path, c);
  }

  lemma PairsFirst(pairs: seq<Entry>, edits: seq<Entry>)
    requires Joined(pairs) == |pairs| && Joined(edits) == 0
    ensures InOrder(pairs + edits, |pairs|, |edits|, true)
  {
    forall i | 0 <= i < |pairs| ensures pairs[i].Equal? { OnlyPairs(pairs, i); }
    forall i | 0 <= i < |edits| ensures !edits[i].Equal? { OnlyEdits(edits, i); }
  }

  lemma PairsLast(edits: seq<Entry>, pairs: seq<Entry>)
    requires Joined(pairs) == |pairs| && Joined(edits) == 0
    ensures InOrder(edits + pairs, |pairs|, |edits|, false)
  {
    forall i | 0 <= i < |pairs| ensures pairs[i].Equal? { OnlyPairs(pairs, i); }
    forall i | 0 <= i < |edits| ensures !edits[i].Equal? { OnlyEdits(edits, i); }
  }

  lemma {:induction false} OnlyEdits(p: seq<Entry>, i: nat)
    requires Joined(p) == 0 && i < |p|
    ensures !p[i].Equal?
  {
    if i > 0 { OnlyEdits(p[1..], i - 1); }
  }

  class DiffEngine<T(==, !new)> {
    const mA: seq<T>
    const mB: seq<T>
    /** The EmitEntry* calls made so far. */
    var mLog: seq<Entry>

    constructor (a: seq<T>, b: seq<T>)
      ensures mA == a && mB == b && mLog == []
    {
      mA, mB, mLog := a, b, [];
    }

    method EmitEntryEqual(aIdx: int, bIdx: int)
      modifies this
      ensures mLog == old(mLog) + [Equal(aIdx, bIdx)]
    {
      mLog := mLog + [Equal(aIdx, bIdx)];
    }

    method EmitEntryDelete(aIdx: int)
      modifies this
      ensures mLog == old(mLog) + [Delete(aIdx)]
    {
      mLog := mLog + [Delete(aIdx)];
    }

    method EmitEntryInsert(aIdx: int, bIdx: int)
      modifies this
      ensures mLog == old(mLog) + [Insert(aIdx, bIdx)]
    {
      mLog := mLog + [Insert(aIdx, bIdx)];
    }

    ghost function A(aOfs: int, aLen: int): seq<T>
      requires 0 <= aOfs && 0 <= aLen && aOfs + aLen <= |mA|
    {
      mA[aOfs..aOfs + aLen]
    }

    ghost function B(bOfs: int, bLen: int): seq<T>
      requires 0 <= bOfs && 0 <= bLen && bOfs + bLen <= |mB|
    {
      mB[bOfs..bOfs + bLen]
    }

    /** Finds a segment every script can go through, or rather: always returns one, within MaxD rounds. */
    method CalcMiddleSnake(aOfs: int, aLen: int, bOfs: int, bLen: int)
      returns (xStart: int, yStart: int, xEnd: int, yEnd: int, totalDiff: int)
      requires 0 < aLen && 0 <= aOfs && aOfs + aLen <= |mA|
      requires 0 < bLen && 0 <= bOfs && bOfs + bLen <= |mB|
      ensures MiddleSnake(A(aOfs, aLen), B(bOfs, bLen), xStart, yStart, xEnd, yEnd, totalDiff)
      ensures FurthestSnake(A(aOfs, aLen), B(bOfs, bLen), xStart, yStart, xEnd, yEnd, totalDiff)
      ensures FirstSegment(A(aOfs, aLen), B(bOfs, bLen), xStart, yStart, xEnd, yEnd, totalDiff)
    {
      var maxD := (bLen + aLen + 1) / 2;
      var delta := aLen - bLen;
      var vOfs := maxD + Abs(delta);
      var a, b := mA[aOfs..aOfs + aLen], mB[bOfs..bOfs + bLen];
      // Column frontiers, indexed by diagonal.
      var v := new int[vOfs * 2 + 1](_ => 0);
      var rv := new int[vOfs * 2 + 1](_ => 0);
      rv[vOfs + delta] := aLen;
      var found;
      var d := 0;
      while d <= maxD
        invariant 0 <= d <= maxD
        invariant d == 0 ==> v[vOfs + 1] == 0
        invariant d > 0 ==> ForwardRounds(a, b, v[..], vOfs, d - 1)
        invariant d > 0 ==> ReverseRounds(a, b, rv[..], vOfs, d - 1)
        invariant d > 0 ==> FurthestRound(a, b, v[..], vOfs, d - 1)
        invariant d > 0 ==> ForwardRow(a, b, v[..], vOfs, d - 1) && ReverseRow(a, b, rv[..], vOfs, d - 1)
        invariant Unmet(a, b, d)
        decreases maxD - d
      {
        found, xStart, yStart, xEnd, yEnd, totalDiff := BothHalves(a, b, v, rv, vOfs, d);
        if found {
          return;
        }
        d := d + 1;
      }
      assert false;
    }

    /** Joins `count` elements of a free diagonal, in order. */
    method EmitDiagonal(aIdx: int, bIdx: int, count: int) returns (ghost path: seq<Entry>)
      requires 0 <= count && Diagonal(mA, mB, aIdx - bIdx, aIdx, aIdx + count)
      modifies this
      ensures mLog == old(mLog) + path && Joined(path) == |path| == count
      ensures IsScript(mA, mB, path, aIdx, bIdx, aIdx + count, bIdx + count)
    {
      path := [];
      for i := 0 to count
        invariant mLog == old(mLog) + path && IsScript(mA, mB, path, aIdx, bIdx, aIdx + i, bIdx + i)
        invariant Joined(path) == |path| == i
      {
        JoinedOne(path, Equal(aIdx + i, bIdx + i));
        assert Match(mA, mB, aIdx - bIdx, aIdx + i);
        EmitEntryEqual(aIdx + i, bIdx + i);
        ScriptEqual(mA, mB, path, aIdx, bIdx, aIdx + i, bIdx + i);
        path := path + [Equal(aIdx + i, bIdx + i)];
      }
    }

    /** Deletes when `deltaDiff` is positive, inserts when it is negative. */
    method EmitEdits(aIdx: int, bIdx: int, deltaDiff: int) returns (ghost path: seq<Entry>)
      modifies this
      ensures mLog == old(mLog) + path && Joined(path) == 0 && |path| == Abs(deltaDiff)
      ensures IsScript(mA, mB, path, aIdx, bIdx,
                       aIdx + (if deltaDiff > 0 then deltaDiff else 0), bIdx + (if deltaDiff < 0 then -deltaDiff else 0))
    {
      path := [];
      if deltaDiff > 0 {
        for i := 0 to deltaDiff
          invariant mLog == old(mLog) + path && IsScript(mA, mB, path, aIdx, bIdx, aIdx + i, bIdx)
          invariant Joined(path) == 0 && |path| == i
        {
          JoinedOne(path, Delete(aIdx + i));
          EmitEntryDelete(aIdx + i);
          ScriptDelete(mA, mB, path, aIdx, bIdx, aIdx + i, bIdx);
          path := path + [Delete(aIdx + i)];
        }
      } else if deltaDiff < 0 {
        for i := 0 to -deltaDiff
          invariant mLog == old(mLog) + path && IsScript(mA, mB, path, aIdx, bIdx, aIdx, bIdx + i)
          invariant Joined(path) == 0 && |path| == i
        {
          JoinedOne(path, Insert(aIdx, bIdx + i));
          EmitEntryInsert(aIdx, bIdx + i);
          ScriptInsert(mA, mB, path, aIdx, bIdx, aIdx, bIdx + i);
          path := path + [Insert(aIdx, bIdx + i)];
        }
      }
    }

    /** Emits the segment from (xStart, yStart) to (xEnd, yEnd): surplus deletions or insertions, then the free
        diagonal; the other way round when `isReverse`. */
    method AddDiffSpan(aOfs: int, bOfs: int, xStart: int, yStart: int, xEnd: int, yEnd: int, isReverse: bool)
      returns (ghost path: seq<Entry>)
      requires Span(mA, mB, aOfs + xStart, bOfs + yStart, aOfs + xEnd, bOfs + yEnd, isReverse)
      modifies this
      ensures mLog == old(mLog) + path
      ensures IsScript(mA, mB, path, aOfs + xStart, bOfs + yStart, aOfs + xEnd, bOfs + yEnd)
      ensures InOrder(path, Min(xEnd - xStart, yEnd - yStart), Abs((xEnd - xStart) - (yEnd - yStart)), isReverse)
    {
      if isReverse {
        path := PairsThenEdits(aOfs + xStart, bOfs + yStart, xEnd - xStart, yEnd - yStart);
      } else {
        path := EditsThenPairs(aOfs + xStart, bOfs + yStart, xEnd - xStart, yEnd - yStart);
      }
    }

    /** A segment of xDelta by yDelta elements, its pairs first. */
    method PairsThenEdits(aIdx: int, bIdx: int, xDelta: int, yDelta: int) returns (ghost path: seq<Entry>)
      requires 0 <= xDelta && 0 <= yDelta
      requires Diagonal(mA, mB, aIdx - bIdx, aIdx, aIdx + Min(xDelta, yDelta))
      modifies this
      ensures mLog == old(mLog) + path && IsScript(mA, mB, path, aIdx, bIdx, aIdx + xDelta, bIdx + yDelta)
      ensures InOrder(path, Min(xDelta, yDelta), Abs(xDelta - yDelta), true)
    {
      var diag := Min(xDelta, yDelta);
      var pairs := EmitDiagonal(aIdx, bIdx, diag);
      var edits := EmitEdits(aIdx + diag, bIdx + diag, (xDelta - diag) - (yDelta - diag));
      path := pairs + edits;
      PairsFirst(pairs, edits);
      ScriptConcat(mA, mB, pairs, edits, aIdx, bIdx, aIdx + diag, bIdx + diag, aIdx + xDelta, bIdx + yDelta);
    }

    /** Such a segment, its pairs last. */
    method EditsThenPairs(aIdx: int, bIdx: int, xDelta: int, yDelta: int) returns (ghost path: seq<Entry>)
      requires 0 <= xDelta && 0 <= yDelta
      requires var diag := Min(xDelta, yDelta);
        Diagonal(mA, mB, aIdx + xDelta - (bIdx + yDelta), aIdx + xDelta - diag, aIdx + xDelta)
      modifies this
      ensures mLog == old(mLog) + path && IsScript(mA, mB, path, aIdx, bIdx, aIdx + xDelta, bIdx + yDelta)
      ensures InOrder(path, Min(xDelta, yDelta), Abs(xDelta - yDelta), false)
    {
      var deltaDiff := xDelta - yDelta;
      var edits := EmitEdits(aIdx, bIdx, deltaDiff);
      var diagLen := xDelta - (if deltaDiff > 0 then deltaDiff else 0);
      assert diagLen == Min(xDelta, yDelta);
      var pairs := EmitDiagonal(aIdx + xDelta - diagLen, bIdx + yDelta - diagLen, diagLen);
      path := edits + pairs;
      PairsLast(edits, pairs);
      ScriptConcat(mA, mB, edits, pairs, aIdx, bIdx, aIdx + xDelta - diagLen, bIdx + yDelta - diagLen,
                   aIdx + xDelta, bIdx + yDelta);
    }

    /** Emits one monotone script over the two ranges, divided at every level by the first segment the search meets. All
        of one range is joined if and only if it is contained in the other. */
    method MyersDiff(aOfs: int, aLen: int, bOfs: int, bLen: int)
      returns (ghost path: seq<Entry>)
      requires 0 <= aLen && 0 <= aOfs && aOfs + aLen <= |mA|
      requires 0 <= bLen && 0 <= bOfs && bOfs + bLen <= |mB|
      modifies this
      ensures mLog == old(mLog) + path
      ensures IsScript(mA, mB, path, aOfs, bOfs, aOfs + aLen, bOfs + bLen)
      ensures Divided(A(aOfs, aLen), B(bOfs, bLen), path)
      ensures Joined(path) == bLen <==> Contains(A(aOfs, aLen), B(bOfs, bLen))
      ensures Joined(path) == aLen <==> Contains(B(bOfs, bLen), A(aOfs, aLen))
      decreases aLen + bLen, 2
    {
      if aLen == 0 || bLen == 0 {
        path := DiffEmpty(aOfs, aLen, bOfs, bLen);
        return;
      }
      var xStart, yStart, xEnd, yEnd, totalDiff := FindMiddle(aOfs, aLen, bOfs, bLen);
      if totalDiff > 1 {
        path := DiffLong(aOfs, aLen, bOfs, bLen, xStart, yStart, xEnd, yEnd, totalDiff);
      } else {
        path := DiffShort(aOfs, aLen, bOfs, bLen, xStart, yStart, xEnd, yEnd, totalDiff);
      }
    }

    /** More than one difference: both sides of the segment are diffed on their own. */
    method DiffLong(aOfs: int, aLen: int, bOfs: int, bLen: int, xStart: int, yStart: int, xEnd: int, yEnd: int,
                    totalDiff: int) returns (ghost path: seq<Entry>)
      requires 0 < aLen && 0 <= aOfs && aOfs + aLen <= |mA| && 0 < bLen && 0 <= bOfs && bOfs + bLen <= |mB|
      requires totalDiff > 1 && InRectangle(aLen, bLen, xStart, yStart, xEnd, yEnd, totalDiff)
      requires FirstSegment(A(aOfs, aLen), B(bOfs, bLen), xStart, yStart, xEnd, yEnd, totalDiff)
      requires Span(mA, mB, aOfs + xStart, bOfs + yStart, aOfs + xEnd, bOfs + yEnd, totalDiff % 2 == 0)
      modifies this
      ensures mLog == old(mLog) + path
      ensures IsScript(mA, mB, path, aOfs, bOfs, aOfs + aLen, bOfs + bLen)
      ensures Divided(A(aOfs, aLen), B(bOfs, bLen), path)
      ensures Joined(path) == bLen <==> Contains(A(aOfs, aLen), B(bOfs, bLen))
      ensures Joined(path) == aLen <==> Contains(B(bOfs, bLen), A(aOfs, aLen))
      decreases aLen + bLen, 1
    {
      ghost var p, q, r := DiffSides(aOfs, aLen, bOfs, bLen, xStart, yStart, xEnd, yEnd, totalDiff);
      path := p + q + r;
      ScriptTogether(mA, mB, aOfs, aLen, bOfs, bLen, path, Cut(xStart, yStart, xEnd, yEnd, totalDiff, p, q, r));
    }

    /** The middle segment, as one of the whole of mA and mB. */
    method FindMiddle(aOfs: int, aLen: int, bOfs: int, bLen: int)
      returns (xStart: int, yStart: int, xEnd: int, yEnd: int, totalDiff: int)
      requires 0 < aLen && 0 <= aOfs && aOfs + aLen <= |mA|
      requires 0 < bLen && 0 <= bOfs && bOfs + bLen <= |mB|
      ensures FirstSegment(A(aOfs, aLen), B(bOfs, bLen), xStart, yStart, xEnd, yEnd, totalDiff)
      ensures InRectangle(aLen, bLen, xStart, yStart, xEnd, yEnd, totalDiff)
      ensures Span(mA, mB, aOfs + xStart, bOfs + yStart, aOfs + xEnd, bOfs + yEnd, totalDiff % 2 == 0)
      ensures totalDiff == 1 ==> Span(mA, mB, aOfs, bOfs, aOfs + xStart, bOfs + yStart, false)
    {
      xStart, yStart, xEnd, yEnd, totalDiff := CalcMiddleSnake(aOfs, aLen, bOfs, bLen);
      SnakeInWhole(mA, mB, aOfs, aLen, bOfs, bLen, xStart, yStart, xEnd, yEnd, totalDiff);
    }

    /** One of the ranges is empty. */
    method DiffEmpty(aOfs: int, aLen: int, bOfs: int, bLen: int) returns (ghost path: seq<Entry>)
      requires 0 <= aLen && 0 <= aOfs && aOfs + aLen <= |mA|
      requires 0 <= bLen && 0 <= bOfs && bOfs + bLen <= |mB|
      requires aLen == 0 || bLen == 0
      modifies this
      ensures mLog == old(mLog) + path
      ensures IsScript(mA, mB, path, aOfs, bOfs, aOfs + aLen, bOfs + bLen)
      ensures Divided(A(aOfs, aLen), B(bOfs, bLen), path)
      ensures Joined(path) == bLen <==> Contains(A(aOfs, aLen), B(bOfs, bLen))
      ensures Joined(path) == aLen <==> Contains(B(bOfs, bLen), A(aOfs, aLen))
    {
      path := AddDiffSpan(aOfs, bOfs, 0, 0, aLen, bLen, false);
      InOrderJoined(path, Min(aLen, bLen), Abs(aLen - bLen), false);
      AllJoined(mA, mB, path, aOfs, bOfs, aOfs + aLen, bOfs + bLen, A(aOfs, aLen), B(bOfs, bLen));
    }

    /** The part before the middle segment, the segment, and the part behind it. */
    method DiffSides(aOfs: int, aLen: int, bOfs: int, bLen: int, xStart: int, yStart: int, xEnd: int, yEnd: int,
                     totalDiff: int) returns (ghost p: seq<Entry>, ghost q: seq<Entry>, ghost r: seq<Entry>)
      requires 0 <= aOfs && aOfs + aLen <= |mA| && 0 <= bOfs && bOfs + bLen <= |mB|
      requires 0 <= xStart <= xEnd <= aLen && 0 <= yStart <= yEnd <= bLen
      requires xStart + yStart < aLen + bLen && 0 < xEnd + yEnd
      requires Span(mA, mB, aOfs + xStart, bOfs + yStart, aOfs + xEnd, bOfs + yEnd, totalDiff % 2 == 0)
      modifies this
      ensures mLog == old(mLog) + (p + q + r)
      ensures IsScript(mA, mB, p + q + r, aOfs, bOfs, aOfs + aLen, bOfs + bLen)
      ensures Divided(mA[aOfs..aOfs + xStart], mB[bOfs..bOfs + yStart], p)
      ensures InOrder(q, Min(xEnd - xStart, yEnd - yStart), Abs((xEnd - xStart) - (yEnd - yStart)), totalDiff % 2 == 0)
      ensures Divided(mA[aOfs + xEnd..aOfs + xEnd + (aLen - xEnd)], mB[bOfs + yEnd..bOfs + yEnd + (bLen - yEnd)], r)
      decreases aLen + bLen, 0
    {
      p := MyersDiff(aOfs, xStart, bOfs, yStart);
      q := AddDiffSpan(aOfs, bOfs, xStart, yStart, xEnd, yEnd, totalDiff % 2 == 0);
      r := MyersDiff(aOfs + xEnd, aLen - xEnd, bOfs + yEnd, bLen - yEnd);
      ScriptConcat3(mA, mB, p, q, r, aOfs, bOfs, aOfs + xStart, bOfs + yStart,
                    aOfs + xEnd, bOfs + yEnd, aOfs + aLen, bOfs + bLen);
    }

    /** At most one difference: the segment reaches the far corner. */
    method DiffShort(aOfs: int, aLen: int, bOfs: int, bLen: int, xStart: int, yStart: int, xEnd: int, yEnd: int,
                     totalDiff: int) returns (ghost path: seq<Entry>)
      requires 0 < aLen && 0 <= aOfs && aOfs + aLen <= |mA| && 0 < bLen && 0 <= bOfs && bOfs + bLen <= |mB|
      requires totalDiff <= 1 && InRectangle(aLen, bLen, xStart, yStart, xEnd, yEnd, totalDiff)
      requires FirstSegment(A(aOfs, aLen), B(bOfs, bLen), xStart, yStart, xEnd, yEnd, totalDiff)
      requires totalDiff == 1 ==> Span(mA, mB, aOfs, bOfs, aOfs + xStart, bOfs + yStart, false)
      requires Span(mA, mB, aOfs + xStart, bOfs + yStart, aOfs + xEnd, bOfs + yEnd, totalDiff % 2 == 0)
      modifies this
      ensures mLog == old(mLog) + path
      ensures IsScript(mA, mB, path, aOfs, bOfs, aOfs + aLen, bOfs + bLen)
      ensures Divided(A(aOfs, aLen), B(bOfs, bLen), path)
      ensures Joined(path) == bLen <==> Contains(A(aOfs, aLen), B(bOfs, bLen))
      ensures Joined(path) == aLen <==> Contains(B(bOfs, bLen), A(aOfs, aLen))
    {
      ghost var p, q := EmitShort(aOfs, aLen, bOfs, bLen, xStart, yStart, xEnd, yEnd, totalDiff);
      path := p + q;
      ShortTogether(mA, mB, aOfs, aLen, bOfs, bLen, path, Cut(xStart, yStart, xEnd, yEnd, totalDiff, p, q, []));
    }

    /** The run of matches before the segment, and the segment. */
    method EmitShort(aOfs: int, aLen: int, bOfs: int, bLen: int, xStart: int, yStart: int, xEnd: int, yEnd: int,
                     totalDiff: int) returns (ghost p: seq<Entry>, ghost q: seq<Entry>)
      requires 0 <= xStart && xEnd == aLen && yEnd == bLen
      requires totalDiff == 1 ==> xStart == yStart && Span(mA, mB, aOfs, bOfs, aOfs + xStart, bOfs + yStart, false)
      requires totalDiff != 1 ==> xStart == 0 && yStart == 0
      requires Span(mA, mB, aOfs + xStart, bOfs + yStart, aOfs + xEnd, bOfs + yEnd, totalDiff % 2 == 0)
      modifies this
      ensures mLog == old(mLog) + (p + q)
      ensures IsScript(mA, mB, p + q, aOfs, bOfs, aOfs + aLen, bOfs + bLen)
      ensures Joined(p) == |p| == xStart
      ensures InOrder(q, Min(xEnd - xStart, yEnd - yStart), Abs((xEnd - xStart) - (yEnd - yStart)), totalDiff % 2 == 0)
    {
      p := [];
      if totalDiff == 1 {
        p := AddDiffSpan(aOfs, bOfs, 0, 0, xStart, yStart, false);
        InOrderJoined(p, xStart, 0, false);
      }
      q := AddDiffSpan(aOfs, bOfs, xStart, yStart, xEnd, yEnd, totalDiff % 2 == 0);
      ScriptConcat(mA, mB, p, q, aOfs, bOfs, aOfs + xStart, bOfs + yStart, aOfs + aLen, bOfs + bLen);
    }
  }
}
