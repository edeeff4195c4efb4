/** The two halves of the search meet on every two ranges that are not empty, so the first segment is one. */
module FirstMeeting {
  import opened EditScript
  import opened Frontier
  import opened Meeting
  import opened Division
  import opened Myers

  /** Frontiers with origin o that hold what the halves reach in round d, as long as no test has succeeded. */
  ghost predicate Rounds<T>(a: seq<T>, b: seq<T>, o: nat, d: nat, v: seq<int>, rv: seq<int>) {
    && |v| == |rv| == 2 * o + 1
    && ForwardRow(a, b, v, o, d) && ForwardRounds(a, b, v, o, d)
    && ReverseRow(a, b, rv, o, d) && ReverseRounds(a, b, rv, o, d)
  }

  /** Round d written over a frontier of the round before. */
  ghost function ForwardOver<T>(a: seq<T>, b: seq<T>, p: seq<int>, o: nat, d: nat): (q: seq<int>)
    ensures |q| == |p|
    ensures forall i {:trigger At(q, o, i)} | 0 <= o + i < |p| :: At(q, o, i) == if InRound(d, i) then ForwardX(a, b, d, i) else At(p, o, i)
  {
    seq(|p|, j requires 0 <= j < |p| => if InRound(d, j - o) then ForwardX(a, b, d, j - o) else p[j])
  }

  ghost function ReverseOver<T>(a: seq<T>, b: seq<T>, r: seq<int>, o: nat, d: nat): (s: seq<int>)
    ensures |s| == |r|
    ensures forall i {:trigger At(s, o, i)} | 0 <= o + i < |r| ::
              At(s, o, i) == if InReverse(|a|, |b|, d, i) then ReverseX(a, b, d, i) else At(r, o, i)
  {
    seq(|r|, j requires 0 <= j < |r| => if InReverse(|a|, |b|, d, j - o) then ReverseX(a, b, d, j - o) else r[j])
  }

  lemma ForwardOverFills<T>(a: seq<T>, b: seq<T>, p: seq<int>, o: nat, d: nat)
    requires |p| == 2 * o + 1 && d <= o
    requires d == 0 ==> At(p, o, 1) == 0
    requires d > 0 ==> ForwardRow(a, b, p, o, d - 1)
    ensures ForwardFilled(a, b, p, ForwardOver(a, b, p, o, d), o, d, d + 2)
    ensures ForwardRow(a, b, ForwardOver(a, b, p, o, d), o, d)
  {
    forall i | InRound(d, i) ensures At(ForwardOver(a, b, p, o, d), o, i) == ForwardX(a, b, d, i) == ForwardNext(a, b, p, o, d, i) {
      ForwardRowNext(a, b, p, o, d, i);
    }
  }

  lemma ReverseOverFills<T>(a: seq<T>, b: seq<T>, r: seq<int>, o: nat, d: nat)
    requires |r| == 2 * o + 1 && d + |a| + |b| <= o
    requires d > 0 ==> ReverseRow(a, b, r, o, d - 1)
    ensures ReverseFilled(a, b, r, ReverseOver(a, b, r, o, d), o, d, |a| - |b| + d + 2)
    ensures ReverseRow(a, b, ReverseOver(a, b, r, o, d), o, d)
  {
    forall i | InReverse(|a|, |b|, d, i)
      ensures At(ReverseOver(a, b, r, o, d), o, i) == ReverseX(a, b, d, i) == ReverseNext(a, b, r, o, d, i) {
      ReverseRowNext(a, b, r, o, d, i);
    }
  }

  lemma ApartUnmet<T>(a: seq<T>, b: seq<T>, o: nat, d: nat, v: seq<int>, r: seq<int>)
    requires Unmet(a, b, d + 1) && ForwardRow(a, b, v, o, d) && (d > 0 ==> ReverseRow(a, b, r, o, d - 1))
    ensures (|a| - |b|) % 2 != 0 ==> ForwardApart(v, r, o, |a| - |b|, d, d + 2)
  {
    if (|a| - |b|) % 2 != 0 {
      forall i | InRound(d, i) && -(d - 1) <= i - (|a| - |b|) <= d - 1 ensures At(v, o, i) < At(r, o, i) {
        OddTested(|a|, |b|, d, i);
        ReverseRowAt(a, b, r, o, d - 1, i);
        assert !Meets(a, b, d, i);
        MeetsAt(a, b, d, i, d - 1, At(v, o, i), At(r, o, i));
      }
    }
  }

  lemma ReverseApartUnmet<T>(a: seq<T>, b: seq<T>, o: nat, d: nat, v: seq<int>, s: seq<int>)
    requires Unmet(a, b, d + 1) && ForwardRow(a, b, v, o, d) && ReverseRow(a, b, s, o, d)
    ensures (|a| - |b|) % 2 == 0 ==> ReverseApart(v, s, o, |a|, |b|, d, |a| - |b| + d + 2)
  {
    if (|a| - |b|) % 2 == 0 {
      forall i | InReverse(|a|, |b|, d, i) && 0 <= i + d && i <= d ensures At(s, o, i) > At(v, o, i) {
        SameParity(|a|, |b|, d, i);
        ForwardRowAt(a, b, v, o, d, i);
        assert !Meets(a, b, d, i);
        MeetsAt(a, b, d, i, d, At(v, o, i), At(s, o, i));
      }
    }
  }

  /** As long as no test has succeeded the rounds go on as the search's invariants say, and are not used up. */
  lemma {:induction false} RoundsHold<T>(a: seq<T>, b: seq<T>, o: nat, d: nat) returns (v: seq<int>, rv: seq<int>)
    requires |a| > 0 && |b| > 0 && d + |a| + |b| <= o && Unmet(a, b, d + 1)
    ensures Rounds(a, b, o, d, v, rv) && 2 * d < |a| + |b|
  {
    var p, r := seq(2 * o + 1, _ => 0), seq(2 * o + 1, _ => 0);
    if d > 0 {
      p, r := RoundsHold(a, b, o, d - 1);
    }
    v := ForwardOver(a, b, p, o, d);
    ForwardOverFills(a, b, p, o, d);
    ApartUnmet(a, b, o, d, v, r);
    ForwardHalfDone(a, b, p, v, r, o, d);
    rv := ReverseOver(a, b, r, o, d);
    ReverseOverFills(a, b, r, o, d);
    ReverseApartUnmet(a, b, o, d, v, rv);
    ReverseHalfDone(a, b, v, r, rv, o, d);
  }

  /** Some test succeeds. */
  lemma SomeTestSucceeds<T>(a: seq<T>, b: seq<T>)
    requires |a| > 0 && |b| > 0
    ensures !Unmet(a, b, |a| + |b| + 1)
  {
    if Unmet(a, b, |a| + |b| + 1) {
      var v, rv := RoundsHold(a, b, 2 * (|a| + |b|), |a| + |b|);
    }
  }

  lemma {:induction false} FirstRound<T>(a: seq<T>, b: seq<T>, d: nat) returns (e: nat)
    requires !Unmet(a, b, d)
    ensures Unmet(a, b, e) && !Unmet(a, b, e + 1)
  {
    if Unmet(a, b, d - 1) {
      e := d - 1;
    } else {
      e := FirstRound(a, b, d - 1);
    }
  }

  /** Before diagonal `lo` nothing is tested in round d. */
  lemma {:induction false} FirstDiagonal<T>(a: seq<T>, b: seq<T>, d: nat, lo: int, k: int) returns (i: int)
    requires Meets(a, b, d, k) && lo <= k && forall j | j < lo :: !Meets(a, b, d, j)
    ensures Meets(a, b, d, i) && forall j | j < i :: !Meets(a, b, d, j)
    decreases k - lo
  {
    if Meets(a, b, d, lo) {
      i := lo;
    } else {
      i := FirstDiagonal(a, b, d, lo + 1, k);
    }
  }

  /** On every two ranges that are not empty one test is the first that succeeds. */
  lemma AlwaysMeets<T>(a: seq<T>, b: seq<T>) returns (d: nat, k: int)
    requires |a| > 0 && |b| > 0
    ensures MeetsFirst(a, b, d, k)
  {
    SomeTestSucceeds(a, b);
    d := FirstRound(a, b, |a| + |b| + 1);
    var e: nat, i :| e < d + 1 && Meets(a, b, e, i);
    assert e == d && i >= 0 - d;
    k := FirstDiagonal(a, b, d, 0 - d, i);
  }

  /** So the two ranges settle how many pairs the divided search joins. */
  lemma {:induction false} JoinedIsSettled<T>(a: seq<T>, b: seq<T>, p: seq<Entry>, q: seq<Entry>)
    requires Divided(a, b, p) && Divided(a, b, q)
    ensures Joined(p) == Joined(q)
    decreases |a| + |b|
  {
    if a != [] && b != [] {
      var d, k := AlwaysMeets(a, b);
      var c := CutOf(a, b, p, d, k);
      CutJoined(a, b, p, d, k, c);
      var e := CutLike(a, b, q, d, k, c);
      if c.totalDiff > 1 {
        JoinedIsSettled(a[..c.xs], b[..c.ys], c.before, e.before);
        JoinedIsSettled(a[c.xe..], b[c.ye..], c.behind, e.behind);
      }
    }
  }

  /** The cut of another script is at the same segment. */
  lemma CutLike<T>(a: seq<T>, b: seq<T>, q: seq<Entry>, d: nat, k: int, c: Cut) returns (e: Cut)
    requires a != [] && b != [] && Divided(a, b, q) && MeetsFirst(a, b, d, k) && CutsAt(a, b, d, k, c)
    ensures Joined(q) == Joined(e.before) + Min(c.xe - c.xs, c.ye - c.ys) + Joined(e.behind)
    ensures c.totalDiff > 1 ==>
              Divided(a[..c.xs], b[..c.ys], e.before) && Divided(a[c.xe..], b[c.ye..], e.behind)
    ensures c.totalDiff <= 1 ==> Joined(c.before) == Joined(e.before) && Joined(c.behind) == Joined(e.behind)
  {
    e := CutOf(a, b, q, d, k);
    CutJoined(a, b, q, d, k, e);
    SameCut(a, b, d, k, c, e);
  }

  lemma SameCut<T>(a: seq<T>, b: seq<T>, d: nat, k: int, c: Cut, e: Cut)
    requires CutsAt(a, b, d, k, c) && CutsAt(a, b, d, k, e)
    ensures c.xs == e.xs && c.ys == e.ys && c.xe == e.xe && c.ye == e.ye && c.totalDiff == e.totalDiff
  {
  }
}
