/** Two texts that end in the same character and share no other pair the divided search finds: it joins nothing at all. */
module TailLost {
  import opened EditScript
  import opened Frontier
  import opened Meeting
  import opened Division

  function Old(): seq<char> { "ddddddaa" }
  function New(): seq<char> { "acabaababbaba" }

  /** No element of a before column `end` occurs in b. */
  ghost predicate NoMatches<T>(a: seq<T>, b: seq<T>, end: int) {
    forall k, x | x < end :: !Match(a, b, k, x)
  }

  /** Without matches the forward half goes one column further with every step right. */
  lemma {:induction false} ForwardPlain<T>(a: seq<T>, b: seq<T>, end: int, d: nat, k: int, c: int)
    requires NoMatches(a, b, end) && 0 <= c <= d && d + k == 2 * c && c < end
    ensures ForwardX(a, b, d, k) == c
  {
    if d > 0 {
      if c < d {
        ForwardPlain(a, b, end, d - 1, k + 1, c);
      }
      if 0 < c {
        ForwardPlain(a, b, end, d - 1, k - 1, c - 1);
      }
      PlainStepRight(a, b, end, d, k, c, ForwardX(a, b, d - 1, k + 1), ForwardX(a, b, d - 1, k - 1));
    } else {
      assert !Match(a, b, k, 0);
    }
  }

  lemma PlainStepRight<T>(a: seq<T>, b: seq<T>, end: int, d: nat, k: int, c: int, above: int, below: int)
    requires NoMatches(a, b, end) && 0 <= c <= d && d + k == 2 * c && c < end && d > 0
    requires above == ForwardX(a, b, d - 1, k + 1) && below == ForwardX(a, b, d - 1, k - 1)
    requires c < d ==> above == c
    requires 0 < c ==> below == c - 1
    ensures ForwardX(a, b, d, k) == c
  {
    assert !Match(a, b, k, c);
  }

  /** Every column of reverse round d is `x`. */
  ghost predicate Level<T>(a: seq<T>, b: seq<T>, d: nat, x: int) {
    forall k {:trigger InReverse(|a|, |b|, d, k)} | InReverse(|a|, |b|, d, k) :: ReverseX(a, b, d, k) == x
  }

  lemma ReverseStepTo<T>(a: seq<T>, b: seq<T>, d: nat, k: int, right: int, left: int, x: int)
    requires d > 0 && right == ReverseX(a, b, d - 1, k + 1) && left == ReverseX(a, b, d - 1, k - 1)
    requires x == (if FromRight(d, k, |a| - |b|, right, left) then right - 1 else left) && !Match(a, b, k, x - 1)
    ensures ReverseX(a, b, d, k) == x
  {
  }

  /** The j-th diagonal of reverse round d. */
  function Diag(delta: int, d: int, j: int): int {
    delta - d + 2 * j
  }

  /** The j-th column of round d is the j-th below the level or the level itself. */
  ghost predicate PlainRound<T>(a: seq<T>, b: seq<T>, level: int, start: nat, d: nat) {
    forall j {:trigger Diag(|a| - |b|, d, j)} | 0 <= j <= d ::
      ReverseX(a, b, d, Diag(|a| - |b|, d, j)) == Min(level + start - d + j, level)
  }

  /** From a level round on, without matches below the level, all rounds are so. */
  lemma {:induction false} PlainRounds<T>(a: seq<T>, b: seq<T>, level: int, start: nat, d: nat)
    requires NoMatches(a, b, level) && Level(a, b, start, level) && start <= d
    ensures PlainRound(a, b, level, start, d)
  {
    if d > start {
      PlainRounds(a, b, level, start, d - 1);
    }
    forall j {:trigger Diag(|a| - |b|, d, j)} | 0 <= j <= d
      ensures ReverseX(a, b, d, Diag(|a| - |b|, d, j)) == Min(level + start - d + j, level)
    {
      if d == start {
        LevelAt(a, b, d, level, Diag(|a| - |b|, d, j), j);
      } else {
        PlainNext(a, b, level, start, d, Diag(|a| - |b|, d, j), j);
      }
    }
  }

  lemma PlainNext<T>(a: seq<T>, b: seq<T>, level: int, start: nat, d: nat, k: int, j: int)
    requires NoMatches(a, b, level) && start < d && PlainRound(a, b, level, start, d - 1)
    requires 0 <= j <= d && k == Diag(|a| - |b|, d, j)
    ensures ReverseX(a, b, d, k) == Min(level + start - d + j, level)
  {
    assert k + 1 == Diag(|a| - |b|, d - 1, j) && k - 1 == Diag(|a| - |b|, d - 1, j - 1);
    PlainStep(a, b, level, start, d, k, j, ReverseX(a, b, d - 1, k + 1), ReverseX(a, b, d - 1, k - 1));
  }

  lemma ReversePlain<T>(a: seq<T>, b: seq<T>, level: int, start: nat, d: nat, k: int, j: int)
    requires NoMatches(a, b, level) && Level(a, b, start, level) && start <= d
    requires 0 <= j <= d && k == |a| - |b| - d + 2 * j
    ensures ReverseX(a, b, d, k) == Min(level + start - d + j, level)
  {
    PlainRounds(a, b, level, start, d);
    assert k == Diag(|a| - |b|, d, j);
  }

  lemma PlainStep<T>(a: seq<T>, b: seq<T>, level: int, start: nat, d: nat, k: int, j: int, right: int, left: int)
    requires NoMatches(a, b, level) && start < d && 0 <= j <= d && k == |a| - |b| - d + 2 * j
    requires right == ReverseX(a, b, d - 1, k + 1) && left == ReverseX(a, b, d - 1, k - 1)
    requires j < d ==> right == Min(level + start - (d - 1) + j, level)
    requires 0 < j ==> left == Min(level + start - (d - 1) + (j - 1), level)
    ensures ReverseX(a, b, d, k) == Min(level + start - d + j, level)
  {
    PlainMove(|a| - |b|, level, start, d, k, j, right, left);
    ReverseStepTo(a, b, d, k, right, left, Min(level + start - d + j, level));
  }

  lemma LevelAt<T>(a: seq<T>, b: seq<T>, d: nat, x: int, k: int, j: int)
    requires Level(a, b, d, x) && 0 <= j <= d && k == |a| - |b| - d + 2 * j
    ensures ReverseX(a, b, d, k) == x
  {
    InReverseRound(|a|, |b|, d, k, j);
  }

  lemma InReverseRound(n: int, m: int, d: nat, k: int, j: int)
    requires 0 <= j <= d && k == n - m - d + 2 * j
    ensures InReverse(n, m, d, k)
  {
  }

  /** Which column a round takes over when those of the round before are as said. */
  lemma PlainMove(delta: int, level: int, start: nat, d: nat, k: int, j: int, right: int, left: int)
    requires start < d && 0 <= j <= d && k == delta - d + 2 * j
    requires j < d ==> right == Min(level + start - (d - 1) + j, level)
    requires 0 < j ==> left == Min(level + start - (d - 1) + (j - 1), level)
    ensures (if FromRight(d, k, delta, right, left) then right - 1 else left) == Min(level + start - d + j, level)
  {
  }

  /** Forward round d takes the column `above` over and goes on to x. */
  lemma ForwardStepTo<T>(a: seq<T>, b: seq<T>, d: nat, k: int, above: int, below: int, x: int)
    requires d > 0 && k < d && above == ForwardX(a, b, d - 1, k + 1) && below == ForwardX(a, b, d - 1, k - 1)
    requires below < above && (x == above || (x == above + 1 && Match(a, b, k, above))) && !Match(a, b, k, x)
    ensures ForwardX(a, b, d, k) == x && ForwardSource(a, b, d, k) == k + 1
  {
  }

  // ----- the whole texts -----

  /** The elements from column 6 on match the elements of b at these places, and nothing else matches. */
  ghost predicate Whole<T>(a: seq<T>, b: seq<T>) {
    && |a| == 8 && |b| == 13
    && forall k, x :: Match(a, b, k, x) <==> 6 <= x < 8 && x - k in {0, 2, 4, 5, 7, 10, 12}
  }

  lemma TextsWhole()
    ensures Whole(Old(), New())
  {
  }

  lemma WholeNoMatches<T>(a: seq<T>, b: seq<T>)
    requires Whole(a, b)
    ensures NoMatches(a, b, 6)
  {
  }

  lemma WholeLevel<T>(a: seq<T>, b: seq<T>)
    requires Whole(a, b)
    ensures Level(a, b, 1, 6)
  {
    assert Match(a, b, -5, 7) && !Match(a, b, -5, 6);
    assert ReverseX(a, b, 0, -5) == 7;
    assert Match(a, b, -4, 6) && !Match(a, b, -4, 5);
    assert ReverseX(a, b, 1, -4) == 6;
    assert !Match(a, b, -6, 5);
    assert ReverseX(a, b, 1, -6) == 6;
  }

  /** The columns from which the forward half reaches the overlap. */
  lemma WholeCorner<T>(a: seq<T>, b: seq<T>)
    requires Whole(a, b)
    ensures ForwardX(a, b, 7, 5) == 8
  {
    WholeNoMatches(a, b);
    ForwardPlain(a, b, 6, 5, 5, 5);
    assert Match(a, b, 6, 6) && !Match(a, b, 6, 7);
    assert ForwardX(a, b, 6, 6) == 7;
    ForwardPlain(a, b, 6, 6, 4, 5);
    ForwardStepTo(a, b, 7, 5, 7, 5, 8);
  }

  lemma WholeForward<T>(a: seq<T>, b: seq<T>)
    requires Whole(a, b)
    ensures ForwardX(a, b, 8, 4) == 8 && ForwardX(a, b, 9, 3) == 8 && ForwardSource(a, b, 9, 3) == 4
  {
    WholeNoMatches(a, b);
    WholeCorner(a, b);
    ForwardPlain(a, b, 6, 7, 3, 5);
    ForwardStepTo(a, b, 8, 4, 8, 5, 8);
    ForwardPlain(a, b, 6, 8, 2, 5);
    ForwardStepTo(a, b, 9, 3, 8, 5, 8);
  }

  /** The columns that a test before round 9, or in it before diagonal 3, compares. */
  lemma WholeColumns<T>(a: seq<T>, b: seq<T>, e: nat, i: int, c: int)
    requires Whole(a, b) && 0 <= c <= e && e + i == 2 * c && 2 <= e <= 9 && 0 <= c <= 5 && c + 2 <= e - 1
    ensures ForwardX(a, b, e, i) == c && ReverseX(a, b, e - 1, i) == Min(10 - e + c, 6)
  {
    WholeNoMatches(a, b);
    WholeLevel(a, b);
    ForwardPlain(a, b, 6, e, i, c);
    ReversePlain(a, b, 6, 1, e - 1, i, c + 2);
  }

  /** No overlap before round 9 nor, in it, before diagonal 3. */
  lemma WholeApart<T>(a: seq<T>, b: seq<T>, e: nat, i: int)
    requires Whole(a, b) && (e < 9 || (e == 9 && i < 3))
    ensures !Meets(a, b, e, i)
  {
    if Tested(8, 13, e, i) {
      var c := WholeColumn(e, i);
      WholeColumns(a, b, e, i, c);
      MeetsAt(a, b, e, i, e - 1, c, Min(10 - e + c, 6));
    }
  }

  lemma WholeColumn(e: nat, i: int) returns (c: int)
    requires Tested(8, 13, e, i) && (e < 9 || (e == 9 && i < 3))
    ensures 0 <= c <= e && e + i == 2 * c && e >= 2 && 0 <= c <= 5 && c + 2 <= e - 1
    ensures i == 8 - 13 - (e - 1) + 2 * (c + 2) && ReverseRoundOf(8, 13, e) == e - 1
  {
    c := (e + i) / 2;
  }

  lemma WholeMeets<T>(a: seq<T>, b: seq<T>)
    requires Whole(a, b)
    ensures MeetsFirst(a, b, 9, 3)
  {
    forall e: nat, i | e < 9 ensures !Meets(a, b, e, i) { WholeApart(a, b, e, i); }
    forall i | i < 3 ensures !Meets(a, b, 9, i) { WholeApart(a, b, 9, i); }
    WholeNoMatches(a, b);
    WholeLevel(a, b);
    WholeForward(a, b);
    ReversePlain(a, b, 6, 1, 8, 3, 8);
    MeetsAt(a, b, 9, 3, 8, 8, 6);
  }

  lemma WholeSegment<T>(a: seq<T>, b: seq<T>, xs: int, ys: int, xe: int, ye: int, totalDiff: int)
    requires Whole(a, b) && SegmentAt(a, b, 9, 3, xs, ys, xe, ye, totalDiff)
    ensures xs == 8 && ys == 4 && xe == 8 && ye == 5 && totalDiff == 17
  {
    WholeForward(a, b);
  }

  // ----- what comes before the first segment -----

  /** The same with four elements of b. */
  ghost predicate Front<T>(a: seq<T>, b: seq<T>) {
    && |a| == 8 && |b| == 4
    && forall k, x :: Match(a, b, k, x) <==> 6 <= x < 8 && x - k in {0, 2}
  }

  lemma WholeFront<T>(a: seq<T>, b: seq<T>)
    requires Whole(a, b)
    ensures Front(a[..8], b[..4])
  {
    forall k, x ensures Match(a[..8], b[..4], k, x) <==> Match(a, b, k, x) && x - k < 4 {
    }
  }

  lemma FrontNoMatches<T>(a: seq<T>, b: seq<T>)
    requires Front(a, b)
    ensures NoMatches(a, b, 6)
  {
  }

  lemma FrontLevel<T>(a: seq<T>, b: seq<T>)
    requires Front(a, b)
    ensures Level(a, b, 2, 6)
  {
    assert !Match(a, b, 4, 7);
    assert ReverseX(a, b, 0, 4) == 8;
    assert !Match(a, b, 3, 6);
    ReverseStepTo(a, b, 1, 3, 8, ReverseX(a, b, 0, 2), 7);
    assert Match(a, b, 5, 7) && !Match(a, b, 5, 6);
    assert ReverseX(a, b, 1, 5) == 7;
    assert !Match(a, b, 2, 5);
    ReverseStepTo(a, b, 2, 2, 7, ReverseX(a, b, 1, 1), 6);
    assert Match(a, b, 4, 6) && !Match(a, b, 4, 5);
    assert ReverseX(a, b, 2, 4) == 6;
    assert Match(a, b, 6, 6) && !Match(a, b, 6, 5);
    assert ReverseX(a, b, 2, 6) == 6;
  }

  lemma FrontColumn(e: nat, i: int) returns (c: int)
    requires Tested(8, 4, e, i) && (e < 6 || (e == 6 && i <= -2))
    ensures 0 <= c <= e && e + i == 2 * c && e >= 2 && 2 <= c <= 5 && c - 2 <= e
    ensures i == 8 - 4 - e + 2 * (c - 2) && ReverseRoundOf(8, 4, e) == e
  {
    SameParity(8, 4, e, i);
    c := (e + i) / 2;
  }

  lemma FrontColumns<T>(a: seq<T>, b: seq<T>, e: nat, i: int, c: int)
    requires Front(a, b) && 0 <= c <= e && e + i == 2 * c && 2 <= e && 2 <= c <= 5 && c - 2 <= e
    ensures ForwardX(a, b, e, i) == c && ReverseX(a, b, e, i) == Min(6 - e + c, 6)
  {
    FrontNoMatches(a, b);
    FrontLevel(a, b);
    ForwardPlain(a, b, 6, e, i, c);
    ReversePlain(a, b, 6, 2, e, i, c - 2);
  }

  lemma FrontApart<T>(a: seq<T>, b: seq<T>, e: nat, i: int)
    requires Front(a, b) && (e < 6 || (e == 6 && i < -2))
    ensures !Meets(a, b, e, i)
  {
    if Tested(8, 4, e, i) {
      var c := FrontColumn(e, i);
      FrontColumns(a, b, e, i, c);
      MeetsAt(a, b, e, i, e, c, Min(6 - e + c, 6));
    }
  }

  lemma FrontMeets<T>(a: seq<T>, b: seq<T>)
    requires Front(a, b)
    ensures MeetsFirst(a, b, 6, -2)
  {
    forall e: nat, i | e < 6 ensures !Meets(a, b, e, i) { FrontApart(a, b, e, i); }
    forall i | i < -2 ensures !Meets(a, b, 6, i) { FrontApart(a, b, 6, i); }
    FrontColumns(a, b, 6, -2, 2);
    MeetsAt(a, b, 6, -2, 6, 2, 2);
  }

  lemma FrontSegment<T>(a: seq<T>, b: seq<T>, xs: int, ys: int, xe: int, ye: int, totalDiff: int)
    requires Front(a, b) && SegmentAt(a, b, 6, -2, xs, ys, xe, ye, totalDiff)
    ensures xs == 2 && ys == 4 && xe == 3 && ye == 4 && totalDiff == 12
  {
    FrontColumns(a, b, 6, -2, 2);
    FrontNoMatches(a, b);
    FrontLevel(a, b);
    ReversePlain(a, b, 6, 2, 5, -1, 0);
  }

  // ----- two elements that b does not have -----

  ghost predicate Apart<T>(a: seq<T>, b: seq<T>) {
    && |a| == 2 && |b| == 4
    && forall k, x :: !Match(a, b, k, x)
  }

  lemma FrontStart<T>(a: seq<T>, b: seq<T>)
    requires Front(a, b)
    ensures Apart(a[..2], b[..4])
  {
    forall k, x ensures Match(a[..2], b[..4], k, x) <==> Match(a, b, k, x) && x < 2 {
    }
  }

  lemma ApartLevel<T>(a: seq<T>, b: seq<T>)
    requires Apart(a, b)
    ensures Level(a, b, 0, 2)
  {
  }

  lemma ApartColumns<T>(a: seq<T>, b: seq<T>, e: nat, i: int, c: int)
    requires Apart(a, b) && 0 <= c <= e && e + i == 2 * c && 0 <= c < 3 && c + 1 <= e
    ensures ForwardX(a, b, e, i) == c && ReverseX(a, b, e, i) == Min(3 - e + c, 2)
  {
    assert NoMatches(a, b, 3) && NoMatches(a, b, 2);
    ApartLevel(a, b);
    ForwardPlain(a, b, 3, e, i, c);
    ReversePlain(a, b, 2, 0, e, i, c + 1);
  }

  lemma ApartColumn(e: nat, i: int) returns (c: int)
    requires Tested(2, 4, e, i) && (e < 3 || (e == 3 && i <= -3))
    ensures 0 <= c <= e && e + i == 2 * c && 0 <= c < 3 && c + 1 <= e && ReverseRoundOf(2, 4, e) == e
  {
    SameParity(2, 4, e, i);
    c := (e + i) / 2;
  }

  lemma ApartNotBefore<T>(a: seq<T>, b: seq<T>, e: nat, i: int)
    requires Apart(a, b) && (e < 3 || (e == 3 && i < -3))
    ensures !Meets(a, b, e, i)
  {
    if Tested(2, 4, e, i) {
      var c := ApartColumn(e, i);
      ApartColumns(a, b, e, i, c);
      MeetsAt(a, b, e, i, e, c, Min(3 - e + c, 2));
    }
  }

  lemma ApartMeets<T>(a: seq<T>, b: seq<T>)
    requires Apart(a, b)
    ensures MeetsFirst(a, b, 3, -3)
  {
    forall e: nat, i | e < 3 ensures !Meets(a, b, e, i) { ApartNotBefore(a, b, e, i); }
    forall i | i < -3 ensures !Meets(a, b, 3, i) { ApartNotBefore(a, b, 3, i); }
    ApartColumns(a, b, 3, -3, 0);
    MeetsAt(a, b, 3, -3, 3, 0, 0);
  }

  lemma ApartSegment<T>(a: seq<T>, b: seq<T>, xs: int, ys: int, xe: int, ye: int, totalDiff: int)
    requires Apart(a, b) && SegmentAt(a, b, 3, -3, xs, ys, xe, ye, totalDiff)
    ensures xs == 0 && ys == 3 && xe == 0 && ye == 4 && totalDiff == 6
  {
    ApartColumns(a, b, 3, -3, 0);
    assert NoMatches(a, b, 2);
    ApartLevel(a, b);
    ReversePlain(a, b, 2, 0, 2, -2, 1);
    ReversePlain(a, b, 2, 0, 2, -4, 0);
  }

  // ----- nothing is joined -----

  lemma ApartJoinsNothing<T>(a: seq<T>, b: seq<T>, path: seq<Entry>)
    requires Apart(a, b) && Divided(a, b, path)
    ensures Joined(path) == 0
  {
    ApartMeets(a, b);
    var c := CutOf(a, b, path, 3, -3);
    ApartSegment(a, b, c.xs, c.ys, c.xe, c.ye, c.totalDiff);
    CutJoined(a, b, path, 3, -3, c);
  }

  lemma FrontJoinsNothing<T>(a: seq<T>, b: seq<T>, path: seq<Entry>)
    requires Front(a, b) && Divided(a, b, path)
    ensures Joined(path) == 0
  {
    FrontMeets(a, b);
    var c := CutOf(a, b, path, 6, -2);
    FrontSegment(a, b, c.xs, c.ys, c.xe, c.ye, c.totalDiff);
    CutJoined(a, b, path, 6, -2, c);
    FrontStart(a, b);
    ApartJoinsNothing(a[..2], b[..4], c.before);
    assert Joined(c.behind) == 0;
  }

  lemma WholeJoinsNothing<T>(a: seq<T>, b: seq<T>, path: seq<Entry>)
    requires Whole(a, b) && Divided(a, b, path)
    ensures Joined(path) == 0
  {
    WholeMeets(a, b);
    var c := CutOf(a, b, path, 9, 3);
    WholeSegment(a, b, c.xs, c.ys, c.xe, c.ye, c.totalDiff);
    CutJoined(a, b, path, 9, 3, c);
    WholeFront(a, b);
    FrontJoinsNothing(a[..8], b[..4], c.before);
    assert Joined(c.behind) == 0;
  }

  /** These two texts end in the same character, and whatever the divided search makes of them joins no pair at all. */
  lemma TailLost(path: seq<Entry>)
    requires Divided(Old(), New(), path)
    ensures Old()[|Old()| - 1] == New()[|New()| - 1] && Joined(path) == 0
  {
    TextsWhole();
    WholeJoinsNothing(Old(), New(), path);
  }
}
