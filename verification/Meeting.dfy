/** Where the two halves of the search meet first, as a function of the two ranges, and what that meeting is when one
    range can be made of the other by deletions alone. */
module Meeting {
  import opened Frontier

  /** Round d takes the column of the diagonal above to diagonal k, not that of the diagonal below; they are `above` and
      `below`. */
  predicate FromAbove(d: int, k: int, above: int, below: int) {
    k + d == 0 || (k != d && above > below)
  }

  /** The column forward round d reaches on diagonal k. */
  function ForwardX<T(==)>(a: seq<T>, b: seq<T>, d: nat, k: int): int {
    if d == 0 then Slide(a, b, k, 0)
    else
      var above, below := ForwardX(a, b, d - 1, k + 1), ForwardX(a, b, d - 1, k - 1);
      Slide(a, b, k, if FromAbove(d, k, above, below) then above else below + 1)
  }

  /** The diagonal whose column forward round d takes to diagonal k. */
  function ForwardSource<T(==)>(a: seq<T>, b: seq<T>, d: nat, k: int): int
    requires d > 0
  {
    if FromAbove(d, k, ForwardX(a, b, d - 1, k + 1), ForwardX(a, b, d - 1, k - 1)) then k + 1 else k - 1
  }

  predicate FromRight(d: int, k: int, delta: int, right: int, left: int) {
    k + d == delta || (k != d + delta && right < left)
  }

  /** The column reverse round d reaches on diagonal k. */
  function ReverseX<T(==)>(a: seq<T>, b: seq<T>, d: nat, k: int): int {
    if d == 0 then SlideBack(a, b, k, |a|)
    else
      var right, left := ReverseX(a, b, d - 1, k + 1), ReverseX(a, b, d - 1, k - 1);
      SlideBack(a, b, k, if FromRight(d, k, |a| - |b|, right, left) then right - 1 else left)
  }

  /** The diagonal whose column reverse round d takes to diagonal k. */
  function ReverseSource<T(==)>(a: seq<T>, b: seq<T>, d: nat, k: int): int
    requires d > 0
  {
    if FromRight(d, k, |a| - |b|, ReverseX(a, b, d - 1, k + 1), ReverseX(a, b, d - 1, k - 1)) then k + 1 else k - 1
  }

  /** Round d tests diagonal k for an overlap. */
  predicate Tested(n: int, m: int, d: nat, k: int) {
    if (n - m) % 2 != 0 then
      d > 0 && InRound(d, k) && -(d - 1) <= k - (n - m) <= d - 1
    else
      InReverse(n, m, d, k) && 0 <= k + d && k <= d
  }

  /** The reverse round that round d is tested against; for an odd difference of lengths the forward half tests, before
      the reverse half's turn. */
  function ReverseRoundOf(n: int, m: int, d: nat): nat {
    if (n - m) % 2 != 0 && d > 0 then d - 1 else d
  }

  /** The overlap test of round d on diagonal k succeeds. */
  predicate Meets<T(==)>(a: seq<T>, b: seq<T>, d: nat, k: int) {
    Tested(|a|, |b|, d, k) && ForwardX(a, b, d, k) >= ReverseX(a, b, ReverseRoundOf(|a|, |b|, d), k)
  }

  /** No test succeeds before round d. */
  ghost predicate Unmet<T>(a: seq<T>, b: seq<T>, d: nat) {
    forall e: nat, k | e < d :: !Meets(a, b, e, k)
  }

  /** The test of round d on diagonal k is the first that succeeds. */
  ghost predicate MeetsFirst<T>(a: seq<T>, b: seq<T>, d: nat, k: int) {
    Meets(a, b, d, k) && Unmet(a, b, d) && forall i | i < k :: !Meets(a, b, d, i)
  }

  /** The edit of forward round d on diagonal k and the matches behind it. */
  ghost predicate ForwardSegment<T>(a: seq<T>, b: seq<T>, d: nat, k: int, xs: int, ys: int, xe: int, ye: int) {
    && d > 0
    && var from := ForwardSource(a, b, d, k);
       && xs == ForwardX(a, b, d - 1, from) && ys == xs - from
       && xe == ForwardX(a, b, d, k) && ye == xe - k
  }

  /** The matches before the edit of reverse round d on diagonal k, and that edit; in round 0 the matches alone. */
  ghost predicate ReverseSegment<T>(a: seq<T>, b: seq<T>, d: nat, k: int, xs: int, ys: int, xe: int, ye: int) {
    && xs == ReverseX(a, b, d, k) && ys == xs - k
    && if d == 0 then xe == |a| && ye == |b|
       else var from := ReverseSource(a, b, d, k); xe == ReverseX(a, b, d - 1, from) && ye == xe - from
  }

  /** The segment that is reported for round d and diagonal k. */
  ghost predicate SegmentAt<T>(a: seq<T>, b: seq<T>, d: nat, k: int, xs: int, ys: int, xe: int, ye: int, totalDiff: int) {
    if (|a| - |b|) % 2 != 0 then
      ForwardSegment(a, b, d, k, xs, ys, xe, ye) && totalDiff == 2 * d - 1
    else
      ReverseSegment(a, b, d, k, xs, ys, xe, ye) && totalDiff == 2 * d
  }

  /** The segment of the first successful test. */
  ghost predicate FirstSegment<T>(a: seq<T>, b: seq<T>, xs: int, ys: int, xe: int, ye: int, totalDiff: int) {
    forall d: nat, k: int :: MeetsFirst(a, b, d, k) ==> SegmentAt(a, b, d, k, xs, ys, xe, ye, totalDiff)
  }

  /** Only one test is the first that succeeds. */
  lemma FirstIsOne<T>(a: seq<T>, b: seq<T>, d: nat, k: int, xs: int, ys: int, xe: int, ye: int, totalDiff: int)
    requires MeetsFirst(a, b, d, k) && SegmentAt(a, b, d, k, xs, ys, xe, ye, totalDiff)
    ensures FirstSegment(a, b, xs, ys, xe, ye, totalDiff)
  {
    forall e: nat, i | MeetsFirst(a, b, e, i) ensures e == d && i == k {
      assert Meets(a, b, d, k) && Meets(a, b, e, i);
    }
  }

  // ----- the frontiers hold these columns -----

  ghost predicate ForwardRow<T>(a: seq<T>, b: seq<T>, v: seq<int>, o: int, d: nat) {
    forall k {:trigger InRound(d, k)} | InRound(d, k) :: At(v, o, k) == ForwardX(a, b, d, k)
  }

  ghost predicate ReverseRow<T>(a: seq<T>, b: seq<T>, rv: seq<int>, o: int, d: nat) {
    forall k {:trigger InReverse(|a|, |b|, d, k)} | InReverse(|a|, |b|, d, k) :: At(rv, o, k) == ReverseX(a, b, d, k)
  }

  lemma ForwardRowAt<T>(a: seq<T>, b: seq<T>, v: seq<int>, o: int, d: nat, k: int)
    requires ForwardRow(a, b, v, o, d) && InRound(d, k)
    ensures At(v, o, k) == ForwardX(a, b, d, k)
  {
  }

  lemma ReverseRowAt<T>(a: seq<T>, b: seq<T>, rv: seq<int>, o: int, d: nat, k: int)
    requires ReverseRow(a, b, rv, o, d) && InReverse(|a|, |b|, d, k)
    ensures At(rv, o, k) == ReverseX(a, b, d, k)
  {
  }

  /** A test that compares the two columns and succeeds. */
  lemma MeetsAt<T>(a: seq<T>, b: seq<T>, d: nat, k: int, e: nat, x: int, r: int)
    requires Tested(|a|, |b|, d, k) && e == ReverseRoundOf(|a|, |b|, d)
    requires x == ForwardX(a, b, d, k) && r == ReverseX(a, b, e, k)
    ensures Meets(a, b, d, k) <==> x >= r
  {
  }

  lemma ForwardRowNext<T>(a: seq<T>, b: seq<T>, p: seq<int>, o: int, d: nat, k: int)
    requires InRound(d, k)
    requires d == 0 ==> At(p, o, 1) == 0
    requires d > 0 ==> ForwardRow(a, b, p, o, d - 1)
    ensures ForwardNext(a, b, p, o, d, k) == ForwardX(a, b, d, k)
    ensures d > 0 ==> ForwardFrom(p, o, d, k) == ForwardSource(a, b, d, k)
    ensures d > 0 ==> At(p, o, ForwardFrom(p, o, d, k)) == ForwardX(a, b, d - 1, ForwardSource(a, b, d, k))
  {
    if d > 0 {
      assert k < d ==> InRound(d - 1, k + 1);
      assert 0 < k + d ==> InRound(d - 1, k - 1);
    }
  }

  lemma ReverseRowNext<T>(a: seq<T>, b: seq<T>, r: seq<int>, o: int, d: nat, k: int)
    requires InReverse(|a|, |b|, d, k)
    requires d > 0 ==> ReverseRow(a, b, r, o, d - 1)
    ensures ReverseNext(a, b, r, o, d, k) == ReverseX(a, b, d, k)
    ensures d > 0 ==> ReverseFrom(r, o, |a| - |b|, d, k) == ReverseSource(a, b, d, k)
    ensures d > 0 ==> At(r, o, ReverseFrom(r, o, |a| - |b|, d, k)) == ReverseX(a, b, d - 1, ReverseSource(a, b, d, k))
  {
    if d > 0 {
      assert k < |a| - |b| + d ==> InReverse(|a|, |b|, d - 1, k + 1);
      assert |a| - |b| - d < k ==> InReverse(|a|, |b|, d - 1, k - 1);
    }
  }

  // ----- one range contained in the other -----

  /** b can be made of a by deletions alone. */
  predicate Contains<T(==)>(a: seq<T>, b: seq<T>) {
    b == [] || (a != [] && ((a[0] == b[0] && Contains(a[1..], b[1..])) || Contains(a[1..], b)))
  }

  /** What follows (x, y) can be walked by deletions and free matches. */
  predicate Rest<T(==)>(a: seq<T>, b: seq<T>, x: int, y: int)
    decreases |a| - x
  {
    y >= |b| || (x < |a| && ((Match(a, b, x - y, x) && Rest(a, b, x + 1, y + 1)) || Rest(a, b, x + 1, y)))
  }

  /** What comes before (x, y) can. */
  predicate Begin<T(==)>(a: seq<T>, b: seq<T>, x: int, y: int)
    decreases x
  {
    y <= 0 || (0 < x && ((Match(a, b, x - y, x - 1) && Begin(a, b, x - 1, y - 1)) || Begin(a, b, x - 1, y)))
  }

  lemma {:induction false} RestIsContained<T>(a: seq<T>, b: seq<T>, x: int, y: int)
    requires 0 <= x <= |a| && 0 <= y <= |b|
    ensures Rest(a, b, x, y) <==> Contains(a[x..], b[y..])
    decreases |a| - x
  {
    if y < |b| && x < |a| {
      RestIsContained(a, b, x + 1, y);
      RestIsContained(a, b, x + 1, y + 1);
      assert a[x..][1..] == a[x + 1..] && b[y..][1..] == b[y + 1..];
    }
  }

  lemma {:induction false} RestLater<T>(a: seq<T>, b: seq<T>, x: int, y: int)
    requires Rest(a, b, x, y)
    ensures Rest(a, b, x, y + 1)
    decreases |a| - x
  {
    if y < |b| {
      if !(Match(a, b, x - y, x) && Rest(a, b, x + 1, y + 1)) {
        RestLater(a, b, x + 1, y);
      }
    }
  }

  lemma RestMatch<T>(a: seq<T>, b: seq<T>, x: int, y: int)
    requires Rest(a, b, x, y) && Match(a, b, x - y, x)
    ensures Rest(a, b, x + 1, y + 1)
  {
    if Rest(a, b, x + 1, y) {
      RestLater(a, b, x + 1, y);
    }
  }

  lemma {:induction false} RestSlide<T>(a: seq<T>, b: seq<T>, k: int, x: int)
    requires Rest(a, b, x, x - k)
    ensures Rest(a, b, Slide(a, b, k, x), Slide(a, b, k, x) - k)
    decreases |a| - x
  {
    if Match(a, b, k, x) {
      RestMatch(a, b, x, x - k);
      RestSlide(a, b, k, x + 1);
    }
  }

  lemma {:induction false} RestSlideBack<T>(a: seq<T>, b: seq<T>, k: int, x: int)
    requires Rest(a, b, x, x - k)
    ensures Rest(a, b, SlideBack(a, b, k, x), SlideBack(a, b, k, x) - k)
    decreases x
  {
    if Match(a, b, k, x - 1) {
      RestSlideBack(a, b, k, x - 1);
    }
  }

  lemma {:induction false} BeginFewer<T>(a: seq<T>, b: seq<T>, x: int, y: int)
    requires Begin(a, b, x, y)
    ensures Begin(a, b, x, y - 1)
    decreases x
  {
    if y > 0 {
      if !(Match(a, b, x - y, x - 1) && Begin(a, b, x - 1, y - 1)) {
        BeginFewer(a, b, x - 1, y);
      }
    }
  }

  lemma BeginMatch<T>(a: seq<T>, b: seq<T>, x: int, y: int)
    requires Begin(a, b, x, y) && Match(a, b, x - y, x - 1)
    ensures Begin(a, b, x - 1, y - 1)
  {
    if Begin(a, b, x - 1, y) {
      BeginFewer(a, b, x - 1, y);
    }
  }

  lemma {:induction false} BeginSlideBack<T>(a: seq<T>, b: seq<T>, k: int, x: int)
    requires Begin(a, b, x, x - k)
    ensures Begin(a, b, SlideBack(a, b, k, x), SlideBack(a, b, k, x) - k)
    decreases x
  {
    if Match(a, b, k, x - 1) {
      BeginMatch(a, b, x, x - k);
      BeginSlideBack(a, b, k, x - 1);
    }
  }

  lemma {:induction false} BeginSlide<T>(a: seq<T>, b: seq<T>, k: int, x: int)
    requires Begin(a, b, x, x - k)
    ensures Begin(a, b, Slide(a, b, k, x), Slide(a, b, k, x) - k)
    decreases |a| - x
  {
    if Match(a, b, k, x) {
      assert Begin(a, b, x + 1, x + 1 - k);
      BeginSlide(a, b, k, x + 1);
    }
  }

  /** A walk to (x, y) and one from there on make a walk from the near corner. */
  lemma {:induction false} JoinAtStart<T>(a: seq<T>, b: seq<T>, x: int, y: int)
    requires 0 <= x && 0 <= y && Begin(a, b, x, y) && Rest(a, b, x, y)
    ensures Rest(a, b, 0, 0)
    decreases x
  {
    if x == 0 {
      assert y == 0;
    } else if y == 0 {
      JoinAtStart(a, b, x - 1, 0);
    } else if Match(a, b, x - y, x - 1) && Begin(a, b, x - 1, y - 1) {
      JoinAtStart(a, b, x - 1, y - 1);
    } else {
      JoinAtStart(a, b, x - 1, y);
    }
  }

  /** ... and one to the far corner. */
  lemma {:induction false} JoinAtEnd<T>(a: seq<T>, b: seq<T>, x: int, y: int)
    requires x <= |a| && y <= |b| && Begin(a, b, x, y) && Rest(a, b, x, y)
    ensures Begin(a, b, |a|, |b|)
    decreases |a| - x
  {
    if x == |a| {
      assert y == |b|;
    } else if y == |b| {
      BeginLonger(a, b, x, y);
      JoinAtEnd(a, b, x + 1, y);
    } else if Match(a, b, x - y, x) && Rest(a, b, x + 1, y + 1) {
      assert Begin(a, b, x + 1, y + 1);
      JoinAtEnd(a, b, x + 1, y + 1);
    } else {
      BeginLonger(a, b, x, y);
      JoinAtEnd(a, b, x + 1, y);
    }
  }

  lemma BeginLonger<T>(a: seq<T>, b: seq<T>, x: int, y: int)
    requires Begin(a, b, x, y)
    ensures Begin(a, b, x + 1, y)
  {
  }

  /** A walk to (x, y) stays in what is before. */
  lemma {:induction false} BeginSlice<T>(a: seq<T>, b: seq<T>, i: int, j: int, x: int, y: int)
    requires x <= i && y <= j && 0 <= i <= |a| && 0 <= j <= |b| && Begin(a, b, x, y)
    ensures Begin(a[..i], b[..j], x, y)
    decreases x
  {
    if y > 0 {
      if Match(a, b, x - y, x - 1) && Begin(a, b, x - 1, y - 1) {
        assert Match(a[..i], b[..j], x - y, x - 1);
        BeginSlice(a, b, i, j, x - 1, y - 1);
      } else {
        BeginSlice(a, b, i, j, x - 1, y);
      }
    }
  }

  lemma BeginIsContained<T>(a: seq<T>, b: seq<T>, x: int, y: int)
    requires 0 <= x <= |a| && 0 <= y <= |b| && Begin(a, b, x, y)
    ensures Contains(a[..x], b[..y])
  {
    var p, q := a[..x], b[..y];
    BeginSlice(a, b, x, y, x, y);
    JoinAtStart(p, q, x, y);
    RestIsContained(p, q, 0, 0);
    assert p[0..] == p && q[0..] == q;
  }

  lemma ContainsWalks<T>(a: seq<T>, b: seq<T>)
    requires Contains(a, b)
    ensures Rest(a, b, 0, 0) && Begin(a, b, |a|, |b|) && |b| <= |a|
  {
    assert a[0..] == a && b[0..] == b;
    RestIsContained(a, b, 0, 0);
    JoinAtEnd(a, b, 0, 0);
    RestRoom(a, b, 0, 0);
  }

  lemma {:induction false} RestRoom<T>(a: seq<T>, b: seq<T>, x: int, y: int)
    requires x <= |a| && y <= |b| && Rest(a, b, x, y)
    ensures |b| - y <= |a| - x
    decreases |a| - x
  {
    if y < |b| {
      if Match(a, b, x - y, x) && Rest(a, b, x + 1, y + 1) {
        RestRoom(a, b, x + 1, y + 1);
      } else {
        RestRoom(a, b, x + 1, y);
      }
    }
  }

  // ----- the outermost diagonals: one deletion a round -----

  /** The column of the forward half on its outermost diagonal d: d deletions and the matches between them. */
  function Ahead<T(==)>(a: seq<T>, b: seq<T>, d: nat): int {
    Slide(a, b, d, if d == 0 then 0 else Ahead(a, b, d - 1) + 1)
  }

  /** The column of the reverse half on its outermost diagonal k, d deletions back from the far corner. */
  function Behind<T(==)>(a: seq<T>, b: seq<T>, d: nat, k: int): int {
    SlideBack(a, b, k, if d == 0 then |a| else Behind(a, b, d - 1, k + 1) - 1)
  }

  lemma {:induction false} ForwardIsAhead<T>(a: seq<T>, b: seq<T>, d: nat)
    ensures ForwardX(a, b, d, d) == Ahead(a, b, d)
  {
    if d > 0 {
      ForwardIsAhead(a, b, d - 1);
    }
  }

  /** Reverse round d on its outermost diagonal below, from the column x of the round before. */
  lemma ReverseEdgeStep<T>(a: seq<T>, b: seq<T>, d: nat, k: int, x: int)
    requires k == |a| - |b| - d && (if d == 0 then x == |a| + 1 else x == ReverseX(a, b, d - 1, k + 1))
    ensures ReverseX(a, b, d, k) == SlideBack(a, b, k, x - 1)
  {
  }

  lemma {:induction false} ReverseIsBehind<T>(a: seq<T>, b: seq<T>, d: nat, k: int)
    requires k == |a| - |b| - d
    ensures ReverseX(a, b, d, k) == Behind(a, b, d, k)
  {
    if d == 0 {
      ReverseEdgeStep(a, b, d, k, |a| + 1);
    } else {
      ReverseIsBehind(a, b, d - 1, k + 1);
      ReverseEdgeStep(a, b, d, k, Behind(a, b, d - 1, k + 1));
    }
  }

  lemma {:induction false} AheadBegin<T>(a: seq<T>, b: seq<T>, d: nat)
    ensures var x := Ahead(a, b, d); x >= d && Begin(a, b, x, x - d)
  {
    if d == 0 {
      BeginSlide(a, b, 0, 0);
    } else {
      AheadBegin(a, b, d - 1);
      var x := Ahead(a, b, d - 1);
      BeginLonger(a, b, x, x - (d - 1));
      BeginSlide(a, b, d, x + 1);
    }
  }

  lemma {:induction false} AheadRest<T>(a: seq<T>, b: seq<T>, d: nat)
    requires Rest(a, b, 0, 0)
    ensures var x := Ahead(a, b, d); Rest(a, b, x, x - d)
  {
    if d == 0 {
      RestSlide(a, b, 0, 0);
    } else {
      AheadRest(a, b, d - 1);
      var x := Ahead(a, b, d - 1);
      assert !Match(a, b, d - 1, x);
      RestSlide(a, b, d, x + 1);
    }
  }

  lemma RestBack<T>(a: seq<T>, b: seq<T>, k: int, x: int, e: int)
    requires Rest(a, b, x, x - k) && e == SlideBack(a, b, k, x)
    ensures Rest(a, b, e, e - k)
  {
    RestSlideBack(a, b, k, x);
  }

  lemma BeginBack<T>(a: seq<T>, b: seq<T>, k: int, x: int, e: int)
    requires Begin(a, b, x, x - k) && e == SlideBack(a, b, k, x)
    ensures Begin(a, b, e, e - k)
  {
    BeginSlideBack(a, b, k, x);
  }

  /** A deletion back from column x and the matches before it, to column e. */
  lemma RestDelete<T>(a: seq<T>, b: seq<T>, k: int, x: int, e: int)
    requires x <= |a| && Rest(a, b, x, x - (k + 1)) && e == SlideBack(a, b, k, x - 1)
    ensures Rest(a, b, e, e - k)
  {
    assert Rest(a, b, x - 1, x - 1 - k);
    RestSlideBack(a, b, k, x - 1);
  }

  lemma BeginDelete<T>(a: seq<T>, b: seq<T>, k: int, x: int, e: int)
    requires Begin(a, b, x, x - (k + 1)) && !Match(a, b, k + 1, x - 1) && e == SlideBack(a, b, k, x - 1)
    ensures Begin(a, b, e, e - k)
  {
    assert Begin(a, b, x - 1, x - 1 - k);
    BeginSlideBack(a, b, k, x - 1);
  }

  lemma BehindStops<T>(a: seq<T>, b: seq<T>, d: nat, k: int)
    requires k == |a| - |b| - d
    ensures !Match(a, b, k, Behind(a, b, d, k) - 1)
  {
  }

  lemma {:induction false} BehindBelow<T>(a: seq<T>, b: seq<T>, d: nat, k: int)
    ensures Behind(a, b, d, k) <= |a| - d
  {
    if d > 0 {
      BehindBelow(a, b, d - 1, k + 1);
    }
  }

  lemma {:induction false} BehindRest<T>(a: seq<T>, b: seq<T>, d: nat, k: int)
    requires k == |a| - |b| - d
    ensures Rest(a, b, Behind(a, b, d, k), Behind(a, b, d, k) - k)
  {
    if d == 0 {
      RestBack(a, b, k, |a|, Behind(a, b, d, k));
    } else {
      BehindRest(a, b, d - 1, k + 1);
      BehindBelow(a, b, d - 1, k + 1);
      RestDelete(a, b, k, Behind(a, b, d - 1, k + 1), Behind(a, b, d, k));
    }
  }

  lemma {:induction false} BehindBegin<T>(a: seq<T>, b: seq<T>, d: nat, k: int)
    requires k == |a| - |b| - d && Begin(a, b, |a|, |b|)
    ensures Begin(a, b, Behind(a, b, d, k), Behind(a, b, d, k) - k)
  {
    if d == 0 {
      BeginBack(a, b, k, |a|, Behind(a, b, d, k));
    } else {
      BehindBegin(a, b, d - 1, k + 1);
      BehindStops(a, b, d - 1, k + 1);
      BeginDelete(a, b, k, Behind(a, b, d - 1, k + 1), Behind(a, b, d, k));
    }
  }

  /** No point from which deletions lead to the far corner lies before the column of the reverse half. */
  lemma {:induction false} ReverseEdgeLeast<T>(a: seq<T>, b: seq<T>, d: nat, k: int, x: int)
    requires k == |a| - |b| - d && Rest(a, b, x, x - k)
    ensures Behind(a, b, d, k) <= x
    decreases d, |a| - x
  {
    BehindBelow(a, b, d, k);
    if x - k < |b| {
      if Match(a, b, k, x) && Rest(a, b, x + 1, x + 1 - k) {
        ReverseEdgeLeast(a, b, d, k, x + 1);
      } else if d == 0 {
        RestRoom(a, b, x + 1, x - k);
      } else {
        ReverseEdgeLeast(a, b, d - 1, k + 1, x + 1);
      }
    }
  }

  /** Deletions alone: on the outermost diagonal the forward half gets as far as the reverse half. */
  lemma EdgesCross<T>(a: seq<T>, b: seq<T>, d: nat, e: nat)
    requires Contains(a, b) && |a| - |b| == d + e
    ensures Ahead(a, b, d) >= Behind(a, b, e, d)
  {
    ContainsWalks(a, b);
    AheadRest(a, b, d);
    ReverseEdgeLeast(a, b, e, d, Ahead(a, b, d));
  }

  // ----- the first test that can succeed does -----

  /** No test succeeds in fewer rounds than the difference of lengths needs, and in the first that can it is the test of
      an outermost diagonal. */
  lemma MeetsNotBefore(n: int, m: int, d: nat, k: int)
    requires Tested(n, m, d, k)
    ensures -2 * d <= n - m <= 2 * d
    ensures n - m >= 0 && n - m >= 2 * d - 1 ==> k == d
    ensures n - m <= 0 && m - n >= 2 * d - 1 ==> k + d == 0
  {
  }

  /** The rounds that a difference of lengths needs. */
  function Half(n: nat): nat {
    (n + 1) / 2
  }

  lemma EdgeTested(n: int, m: int, d: nat, e: nat, k: int)
    requires e == d || e == d - 1
    requires (n - m == d + e && k == d) || (m - n == d + e && k + d == 0)
    ensures Tested(n, m, d, k) && ReverseRoundOf(n, m, d) == e
  {
    assert (d + e) % 2 == if e == d then 0 else 1;
    assert (0 - (d + e)) % 2 == if e == d then 0 else 1;
  }

  /** Deletions alone: the halves meet on the outermost diagonal below. */
  lemma DeletionsMeet<T>(a: seq<T>, b: seq<T>, d: nat, e: nat)
    requires Contains(a, b) && |a| - |b| == d + e && (e == d || e == d - 1)
    ensures Meets(a, b, d, d)
  {
    EdgesCross(a, b, d, e);
    ForwardIsAhead(a, b, d);
    ReverseIsBehind(a, b, e, d);
    EdgeTested(|a|, |b|, d, e, d);
  }

  /** Insertions alone: on the outermost diagonal above, which is the one below with the ranges exchanged. */
  lemma InsertionsMeet<T>(a: seq<T>, b: seq<T>, d: nat, e: nat, k: int)
    requires Contains(b, a) && |b| - |a| == d + e && (e == d || e == d - 1) && k + d == 0
    ensures Meets(a, b, d, k)
  {
    EdgesCross(b, a, d, e);
    ForwardIsAheadAbove(a, b, d, k);
    ReverseIsBehindAbove(a, b, e, k);
    EdgeTested(|a|, |b|, d, e, k);
  }

  lemma {:induction false} SlideExchanged<T>(a: seq<T>, b: seq<T>, k: int, x: int)
    ensures Slide(b, a, -k, x - k) == Slide(a, b, k, x) - k
    decreases |a| - x
  {
    assert Match(b, a, -k, x - k) <==> Match(a, b, k, x);
    if Match(a, b, k, x) {
      SlideExchanged(a, b, k, x + 1);
    }
  }

  lemma {:induction false} SlideBackExchanged<T>(a: seq<T>, b: seq<T>, k: int, x: int)
    ensures SlideBack(b, a, -k, x - k) == SlideBack(a, b, k, x) - k
    decreases x
  {
    assert Match(b, a, -k, x - k - 1) <==> Match(a, b, k, x - 1);
    if Match(a, b, k, x - 1) {
      SlideBackExchanged(a, b, k, x - 1);
    }
  }

  lemma {:induction false} ForwardIsAheadAbove<T>(a: seq<T>, b: seq<T>, d: nat, k: int)
    requires k + d == 0
    ensures ForwardX(a, b, d, k) == Ahead(b, a, d) + k
  {
    if d == 0 {
      SlideExchanged(a, b, k, 0);
    } else {
      ForwardIsAheadAbove(a, b, d - 1, k + 1);
      SlideExchanged(a, b, k, ForwardX(a, b, d - 1, k + 1));
    }
  }

  lemma BehindExchanged<T>(a: seq<T>, b: seq<T>, d: nat, k: int, x: int)
    requires k == |a| - |b| + d
    requires x - k == if d == 0 then |b| else Behind(b, a, d - 1, -k + 1) - 1
    ensures Behind(b, a, d, -k) == SlideBack(a, b, k, x) - k
  {
    SlideBackExchanged(a, b, k, x);
  }

  lemma ReverseAboveStep<T>(a: seq<T>, b: seq<T>, d: nat, k: int, x: int)
    requires k == |a| - |b| + d && x == if d == 0 then |a| else ReverseX(a, b, d - 1, k - 1)
    ensures ReverseX(a, b, d, k) == SlideBack(a, b, k, x)
  {
  }

  lemma {:induction false} ReverseIsBehindAbove<T>(a: seq<T>, b: seq<T>, d: nat, k: int)
    requires k == |a| - |b| + d
    ensures ReverseX(a, b, d, k) == Behind(b, a, d, -k) + k
  {
    if d == 0 {
      ReverseAboveStep(a, b, d, k, |a|);
      BehindExchanged(a, b, d, k, |a|);
    } else {
      ReverseIsBehindAbove(a, b, d - 1, k - 1);
      var x := Behind(b, a, d - 1, -k + 1) + k - 1;
      ReverseAboveStep(a, b, d, k, x);
      BehindExchanged(a, b, d, k, x);
    }
  }

  /** Where the halves meet first when b is contained in a. */
  lemma FirstOfDeletions<T>(a: seq<T>, b: seq<T>, d: nat)
    requires Contains(a, b) && |a| >= |b| && d == Half(|a| - |b|)
    ensures MeetsFirst(a, b, d, d)
  {
    DeletionsMeet(a, b, d, |a| - |b| - d);
    forall e: nat, i | Meets(a, b, e, i) ensures e >= d && (e == d ==> i == d) {
      MeetsNotBefore(|a|, |b|, e, i);
    }
  }

  lemma FirstOfInsertions<T>(a: seq<T>, b: seq<T>, d: nat, k: int)
    requires Contains(b, a) && |b| >= |a| && d == Half(|b| - |a|) && k + d == 0
    ensures MeetsFirst(a, b, d, k)
  {
    InsertionsMeet(a, b, d, |b| - |a| - d, k);
    forall e: nat, i | Meets(a, b, e, i) ensures e >= d && (e == d ==> i == k) {
      MeetsNotBefore(|a|, |b|, e, i);
    }
  }

  lemma EdgeStarts<T>(a: seq<T>, b: seq<T>, d: nat, k: int)
    requires d > 0
    ensures k == d ==> ForwardSource(a, b, d, k) == k - 1
    ensures k + d == 0 ==> ForwardSource(a, b, d, k) == k + 1
    ensures k == |a| - |b| - d ==> ReverseSource(a, b, d, k) == k + 1
    ensures k == |a| - |b| + d ==> ReverseSource(a, b, d, k) == k - 1
  {
  }

  /** The difference of lengths says which half reports. */
  lemma OddOrEven<T>(a: seq<T>, b: seq<T>, d: nat, k: int, xs: int, ys: int, xe: int, ye: int, totalDiff: int)
    requires SegmentAt(a, b, d, k, xs, ys, xe, ye, totalDiff)
    ensures |a| - |b| == 2 * d - 1 || |b| - |a| == 2 * d - 1 ==> ForwardSegment(a, b, d, k, xs, ys, xe, ye) && totalDiff == 2 * d - 1
    ensures |a| - |b| == 2 * d || |b| - |a| == 2 * d ==> ReverseSegment(a, b, d, k, xs, ys, xe, ye) && totalDiff == 2 * d
  {
    Parity(|a| - |b|, d);
  }

  lemma Parity(delta: int, d: int)
    ensures delta == 2 * d - 1 || delta == 1 - 2 * d ==> delta % 2 != 0
    ensures delta == 2 * d || delta == -2 * d ==> delta % 2 == 0
  {
  }

  lemma OddDeletion<T>(a: seq<T>, b: seq<T>, d: nat, xs: int, ys: int, xe: int, ye: int)
    requires |a| - |b| == 2 * d - 1 && ForwardSegment(a, b, d, d, xs, ys, xe, ye)
    ensures xs == Ahead(a, b, d - 1) == ys + (d - 1) && xe == Ahead(a, b, d) == ye + d
  {
    EdgeStarts(a, b, d, d);
    ForwardIsAhead(a, b, d);
    ForwardIsAhead(a, b, d - 1);
  }

  lemma EvenDeletion<T>(a: seq<T>, b: seq<T>, d: nat, xs: int, ys: int, xe: int, ye: int)
    requires d > 0 && |a| - |b| == 2 * d && ReverseSegment(a, b, d, d, xs, ys, xe, ye)
    ensures xs == Behind(a, b, d, d) == ys + d && xe == Behind(a, b, d - 1, d + 1) == ye + (d + 1)
  {
    EdgeStarts(a, b, d, d);
    ReverseIsBehind(a, b, d, d);
    ReverseIsBehind(a, b, d - 1, d + 1);
  }

  lemma OddDeletionWalks<T>(a: seq<T>, b: seq<T>, d: nat, xs: int, ys: int, xe: int, ye: int)
    requires d > 0 && Rest(a, b, 0, 0)
    requires xs == Ahead(a, b, d - 1) == ys + (d - 1) && xe == Ahead(a, b, d) == ye + d
    ensures Begin(a, b, xs, ys) && Rest(a, b, xe, ye)
  {
    AheadBegin(a, b, d - 1);
    AheadRest(a, b, d);
  }

  lemma EvenDeletionWalks<T>(a: seq<T>, b: seq<T>, d: nat, xs: int, ys: int, xe: int, ye: int)
    requires d > 0 && |a| - |b| == 2 * d && Begin(a, b, |a|, |b|)
    requires xs == Behind(a, b, d, d) == ys + d && xe == Behind(a, b, d - 1, d + 1) == ye + (d + 1)
    ensures Begin(a, b, xs, ys) && Rest(a, b, xe, ye)
  {
    BehindBegin(a, b, d, d);
    BehindRest(a, b, d - 1, d + 1);
  }

  /** When b is contained in a, the first segment is one deletion (none, if there is none to make), and what comes before
      it and behind it in b is contained in what comes before it and behind it in a. */
  lemma DeletionSegment<T>(a: seq<T>, b: seq<T>, d: nat, xs: int, ys: int, xe: int, ye: int, totalDiff: int)
    requires Contains(a, b) && |a| >= |b| && d == Half(|a| - |b|)
    requires SegmentAt(a, b, d, d, xs, ys, xe, ye, totalDiff)
    ensures MeetsFirst(a, b, d, d) && totalDiff == |a| - |b|
    ensures totalDiff > 0 ==> Begin(a, b, xs, ys) && Rest(a, b, xe, ye) && xe - xs == ye - ys + 1
  {
    ContainsWalks(a, b);
    FirstOfDeletions(a, b, d);
    OddOrEven(a, b, d, d, xs, ys, xe, ye, totalDiff);
    if |a| - |b| + 1 == 2 * d {
      OddDeletion(a, b, d, xs, ys, xe, ye);
      OddDeletionWalks(a, b, d, xs, ys, xe, ye);
    } else if d > 0 {
      EvenDeletion(a, b, d, xs, ys, xe, ye);
      EvenDeletionWalks(a, b, d, xs, ys, xe, ye);
    }
  }

  lemma OddInsertion<T>(a: seq<T>, b: seq<T>, d: nat, k: int, xs: int, ys: int, xe: int, ye: int)
    requires |b| - |a| == 2 * d - 1 && k + d == 0 && ForwardSegment(a, b, d, k, xs, ys, xe, ye)
    ensures ys == Ahead(b, a, d - 1) == xs + (d - 1) && ye == Ahead(b, a, d) == xe + d
  {
    EdgeStarts(a, b, d, k);
    ForwardIsAheadAbove(a, b, d, k);
    ForwardIsAheadAbove(a, b, d - 1, k + 1);
  }

  lemma EvenInsertion<T>(a: seq<T>, b: seq<T>, d: nat, k: int, xs: int, ys: int, xe: int, ye: int)
    requires d > 0 && |b| - |a| == 2 * d && k + d == 0 && ReverseSegment(a, b, d, k, xs, ys, xe, ye)
    ensures ys == Behind(b, a, d, d) == xs + d && ye == Behind(b, a, d - 1, d + 1) == xe + (d + 1)
  {
    EdgeStarts(a, b, d, k);
    ReverseIsBehindAbove(a, b, d, k);
    ReverseIsBehindAbove(a, b, d - 1, k - 1);
  }

  /** The same with insertions, when a is contained in b. */
  lemma InsertionSegment<T>(a: seq<T>, b: seq<T>, d: nat, k: int, xs: int, ys: int, xe: int, ye: int, totalDiff: int)
    requires Contains(b, a) && |b| >= |a| && d == Half(|b| - |a|) && k + d == 0
    requires SegmentAt(a, b, d, k, xs, ys, xe, ye, totalDiff)
    ensures MeetsFirst(a, b, d, k) && totalDiff == |b| - |a|
    ensures totalDiff > 0 ==> Begin(b, a, ys, xs) && Rest(b, a, ye, xe) && ye - ys == xe - xs + 1
  {
    ContainsWalks(b, a);
    FirstOfInsertions(a, b, d, k);
    OddOrEven(a, b, d, k, xs, ys, xe, ye, totalDiff);
    if |b| - |a| + 1 == 2 * d {
      OddInsertion(a, b, d, k, xs, ys, xe, ye);
      OddDeletionWalks(b, a, d, ys, xs, ye, xe);
    } else if d > 0 {
      EvenInsertion(a, b, d, k, xs, ys, xe, ye);
      EvenDeletionWalks(b, a, d, ys, xs, ye, xe);
    }
  }

  /** The parts of a point both parts of which can be walked. */
  lemma PartsContained<T>(a: seq<T>, b: seq<T>, xs: int, ys: int, xe: int, ye: int)
    requires 0 <= xs <= |a| && 0 <= ys <= |b| && Begin(a, b, xs, ys)
    requires 0 <= xe <= |a| && 0 <= ye <= |b| && Rest(a, b, xe, ye)
    ensures Contains(a[..xs], b[..ys]) && Contains(a[xe..], b[ye..])
  {
    BeginIsContained(a, b, xs, ys);
    RestIsContained(a, b, xe, ye);
  }
}
