/** What the divided search emits: at every level the first segment, between the scripts of the parts before and behind
    it; and how many pairs that joins. */
module Division {
  import opened EditScript
  import opened Frontier
  import opened Meeting

  function Min(x: int, y: int): int {
    if x < y then x else y
  }

  function Abs(x: int): nat {
    if x < 0 then -x else x
  }

  /** `diag` pairs and `edits` deletions or insertions; the pairs come first when `isReverse`, and last otherwise. */
  ghost predicate InOrder(path: seq<Entry>, diag: int, edits: int, isReverse: bool) {
    && 0 <= diag && 0 <= edits && |path| == diag + edits
    && forall i | 0 <= i < |path| :: path[i].Equal? <==> if isReverse then i < diag else edits <= i
  }

  lemma {:induction false} InOrderJoined(path: seq<Entry>, diag: int, edits: int, isReverse: bool)
    requires InOrder(path, diag, edits, isReverse)
    ensures Joined(path) == diag
  {
    if path != [] {
      if path[0].Equal? {
        InOrderJoined(path[1..], diag - 1, edits, isReverse);
      } else {
        InOrderJoined(path[1..], diag, edits - 1, isReverse);
      }
    }
  }

  /** A segment of two ranges, with the script of what comes before it, its own and that of what is behind it. */
  datatype Cut = Cut(xs: int, ys: int, xe: int, ye: int, totalDiff: int,
                     before: seq<Entry>, segment: seq<Entry>, behind: seq<Entry>)

  /** A segment AddDiffSpan can emit: its diagonal part, at the end or (reversed) at the start, is free. */
  ghost predicate Span<T>(a: seq<T>, b: seq<T>, xs: int, ys: int, xe: int, ye: int, isReverse: bool) {
    var diag := Min(xe - xs, ye - ys);
    && xs <= xe && ys <= ye
    && if isReverse then Diagonal(a, b, xs - ys, xs, xs + diag) else Diagonal(a, b, xe - ye, xe - diag, xe)
  }

  /** The corners of a reported segment: one unit edit apart from a diagonal, unless there is no difference at all; with
      totalDiff 1 it starts on the main diagonal and ends in the far corner. */
  ghost predicate InRectangle(n: int, m: int, xs: int, ys: int, xe: int, ye: int, totalDiff: int) {
    && 0 <= xs <= xe <= n && 0 <= ys <= ye <= m && 0 <= totalDiff
    && (totalDiff == 0 ==> xs == ys == 0 && xe == n == ye == m)
    && (totalDiff > 0 ==> xe - xs == ye - ys + 1 || xe - xs == ye - ys - 1)
    && (totalDiff == 1 ==> xs == ys && xe == n && ye == m)
  }

  /** What CalcMiddleSnake reports: a segment inside the rectangle, free but for one edit. Without edits (totalDiff 0)
      it is the whole diagonal; with totalDiff 1 a free run leads to it and it ends in the far corner. */
  ghost predicate MiddleSnake<T>(a: seq<T>, b: seq<T>, xs: int, ys: int, xe: int, ye: int, totalDiff: int) {
    && InRectangle(|a|, |b|, xs, ys, xe, ye, totalDiff)
    && Span(a, b, xs, ys, xe, ye, totalDiff % 2 == 0)
    && (totalDiff == 1 ==> Diagonal(a, b, 0, 0, xs))
  }

  /** The segment is that of round d and diagonal k, and its script joins and edits it in order. With at most one
      difference only matches come before it and nothing behind it. */
  ghost predicate CutsAt<T>(a: seq<T>, b: seq<T>, d: nat, k: int, c: Cut) {
    && SegmentAt(a, b, d, k, c.xs, c.ys, c.xe, c.ye, c.totalDiff)
    && InRectangle(|a|, |b|, c.xs, c.ys, c.xe, c.ye, c.totalDiff)
    && InOrder(c.segment, Min(c.xe - c.xs, c.ye - c.ys), Abs((c.xe - c.xs) - (c.ye - c.ys)), c.totalDiff % 2 == 0)
    && (c.totalDiff <= 1 ==> Joined(c.before) == |c.before| == c.xs && c.behind == [])
  }

  /** `path` joins and edits what the divided search does on the two ranges, in its order: it is cut where the two halves
      of the search meet first. */
  ghost predicate Divided<T>(a: seq<T>, b: seq<T>, path: seq<Entry>)
    decreases |a| + |b|
  {
    if a == [] || b == [] then
      Joined(path) == 0
    else
      forall d: nat, k | MeetsFirst(a, b, d, k) ::
        exists c ::
          && CutsAt(a, b, d, k, c) && path == c.before + c.segment + c.behind
          && (c.totalDiff > 1 ==>
                Divided(a[..c.xs], b[..c.ys], c.before) && Divided(a[c.xe..], b[c.ye..], c.behind))
  }

  /** The cut of two ranges that are not empty. */
  lemma CutOf<T>(a: seq<T>, b: seq<T>, path: seq<Entry>, d: nat, k: int) returns (c: Cut)
    requires a != [] && b != [] && Divided(a, b, path) && MeetsFirst(a, b, d, k)
    ensures CutsAt(a, b, d, k, c) && path == c.before + c.segment + c.behind
    ensures c.totalDiff > 1 ==>
              Divided(a[..c.xs], b[..c.ys], c.before) && Divided(a[c.xe..], b[c.ye..], c.behind)
  {
    c :| CutsAt(a, b, d, k, c) && path == c.before + c.segment + c.behind
      && (c.totalDiff > 1 ==>
            Divided(a[..c.xs], b[..c.ys], c.before) && Divided(a[c.xe..], b[c.ye..], c.behind));
  }

  lemma DividedBy<T>(a: seq<T>, b: seq<T>, path: seq<Entry>, c: Cut, a0: seq<T>, b0: seq<T>, a1: seq<T>, b1: seq<T>)
    requires a != [] && b != [] && path == c.before + c.segment + c.behind
    requires FirstSegment(a, b, c.xs, c.ys, c.xe, c.ye, c.totalDiff)
    requires InRectangle(|a|, |b|, c.xs, c.ys, c.xe, c.ye, c.totalDiff)
    requires InOrder(c.segment, Min(c.xe - c.xs, c.ye - c.ys), Abs((c.xe - c.xs) - (c.ye - c.ys)), c.totalDiff % 2 == 0)
    requires c.totalDiff <= 1 ==> Joined(c.before) == |c.before| == c.xs && c.behind == []
    requires a0 == a[..c.xs] && b0 == b[..c.ys] && a1 == a[c.xe..] && b1 == b[c.ye..]
    requires c.totalDiff > 1 ==> Divided(a0, b0, c.before) && Divided(a1, b1, c.behind)
    ensures Divided(a, b, path)
  {
    forall d: nat, k | MeetsFirst(a, b, d, k) ensures CutsAt(a, b, d, k, c) {
    }
  }

  // ----- how much it joins -----

  /** What a cut joins. */
  lemma CutJoined<T>(a: seq<T>, b: seq<T>, path: seq<Entry>, d: nat, k: int, c: Cut)
    requires CutsAt(a, b, d, k, c) && path == c.before + c.segment + c.behind
    ensures Joined(path) == Joined(c.before) + Min(c.xe - c.xs, c.ye - c.ys) + Joined(c.behind)
  {
    JoinedConcat(c.before + c.segment, c.behind);
    JoinedConcat(c.before, c.segment);
    InOrderJoined(c.segment, Min(c.xe - c.xs, c.ye - c.ys), Abs((c.xe - c.xs) - (c.ye - c.ys)), c.totalDiff % 2 == 0);
  }

  lemma DeletionParts<T>(a: seq<T>, b: seq<T>, d: nat, c: Cut)
    requires Contains(a, b) && |a| >= |b| && d == Half(|a| - |b|) && CutsAt(a, b, d, d, c)
    ensures c.totalDiff == |a| - |b|
    ensures c.totalDiff > 1 ==>
              && c.xe - c.xs == c.ye - c.ys + 1
              && Contains(a[..c.xs], b[..c.ys]) && Contains(a[c.xe..], b[c.ye..])
  {
    DeletionSegment(a, b, d, c.xs, c.ys, c.xe, c.ye, c.totalDiff);
    if c.totalDiff > 1 {
      PartsContained(a, b, c.xs, c.ys, c.xe, c.ye);
    }
  }

  lemma InsertionParts<T>(a: seq<T>, b: seq<T>, d: nat, k: int, c: Cut)
    requires Contains(b, a) && |b| >= |a| && d == Half(|b| - |a|) && k + d == 0 && CutsAt(a, b, d, k, c)
    ensures c.totalDiff == |b| - |a|
    ensures c.totalDiff > 1 ==>
              && c.ye - c.ys == c.xe - c.xs + 1
              && Contains(b[..c.ys], a[..c.xs]) && Contains(b[c.ye..], a[c.xe..])
  {
    InsertionSegment(a, b, d, k, c.xs, c.ys, c.xe, c.ye, c.totalDiff);
    if c.totalDiff > 1 {
      PartsContained(b, a, c.ys, c.xs, c.ye, c.xe);
    }
  }

  /** The cut of two ranges the second of which is contained in the first: so are its parts, and what is left of it between
      them is joined. */
  lemma DeletionCut<T>(a: seq<T>, b: seq<T>, path: seq<Entry>) returns (c: Cut)
    requires a != [] && b != [] && Divided(a, b, path) && Contains(a, b)
    ensures 0 <= c.xs <= c.xe <= |a| && 0 <= c.ys <= c.ye <= |b| && c.totalDiff == |a| - |b|
    ensures c.totalDiff <= 1 ==> Joined(path) == |b|
    ensures c.totalDiff > 1 ==>
              && 0 < c.xe - c.xs
              && Divided(a[..c.xs], b[..c.ys], c.before) && Divided(a[c.xe..], b[c.ye..], c.behind)
              && Contains(a[..c.xs], b[..c.ys]) && Contains(a[c.xe..], b[c.ye..])
              && Joined(path) == Joined(c.before) + (c.ye - c.ys) + Joined(c.behind)
  {
    ContainsWalks(a, b);
    var d := Half(|a| - |b|);
    FirstOfDeletions(a, b, d);
    c := CutOf(a, b, path, d, d);
    CutJoined(a, b, path, d, d, c);
    DeletionParts(a, b, d, c);
  }

  /** If the second range can be made of the first by deletions alone, all of it is joined. */
  lemma {:induction false} DeletionsSuffice<T>(a: seq<T>, b: seq<T>, path: seq<Entry>)
    requires Divided(a, b, path) && Contains(a, b)
    ensures Joined(path) == |b|
    decreases |a| + |b|
  {
    if a == [] {
      ContainsWalks(a, b);
    } else if b != [] {
      var c := DeletionCut(a, b, path);
      if c.totalDiff > 1 {
        DeletionsSuffice(a[..c.xs], b[..c.ys], c.before);
        DeletionsSuffice(a[c.xe..], b[c.ye..], c.behind);
      }
    }
  }

  lemma InsertionCut<T>(a: seq<T>, b: seq<T>, path: seq<Entry>) returns (c: Cut)
    requires a != [] && b != [] && Divided(a, b, path) && Contains(b, a)
    ensures 0 <= c.xs <= c.xe <= |a| && 0 <= c.ys <= c.ye <= |b| && c.totalDiff == |b| - |a|
    ensures c.totalDiff <= 1 ==> Joined(path) == |a|
    ensures c.totalDiff > 1 ==>
              && 0 < c.ye - c.ys
              && Divided(a[..c.xs], b[..c.ys], c.before) && Divided(a[c.xe..], b[c.ye..], c.behind)
              && Contains(b[..c.ys], a[..c.xs]) && Contains(b[c.ye..], a[c.xe..])
              && Joined(path) == Joined(c.before) + (c.xe - c.xs) + Joined(c.behind)
  {
    ContainsWalks(b, a);
    var d: int := Half(|b| - |a|);
    var k := -d;
    FirstOfInsertions(a, b, d, k);
    c := CutOf(a, b, path, d, k);
    CutJoined(a, b, path, d, k, c);
    InsertionParts(a, b, d, k, c);
  }

  /** If the first can be made of the second by deletions alone, that is the second of the first by insertions, all of
      the first is joined. */
  lemma {:induction false} InsertionsSuffice<T>(a: seq<T>, b: seq<T>, path: seq<Entry>)
    requires Divided(a, b, path) && Contains(b, a)
    ensures Joined(path) == |a|
    decreases |a| + |b|
  {
    if b == [] {
      ContainsWalks(b, a);
    } else if a != [] {
      var c := InsertionCut(a, b, path);
      if c.totalDiff > 1 {
        InsertionsSuffice(a[..c.xs], b[..c.ys], c.before);
        InsertionsSuffice(a[c.xe..], b[c.ye..], c.behind);
      }
    }
  }

  /** No script joins more pairs than either range has elements. */
  lemma {:induction false} JoinedAtMost<T>(A: seq<T>, B: seq<T>, p: seq<Entry>, a0: int, b0: int, a1: int, b1: int)
    requires IsScript(A, B, p, a0, b0, a1, b1)
    ensures Joined(p) <= a1 - a0 && Joined(p) <= b1 - b0
    ensures |p| + Joined(p) == (a1 - a0) + (b1 - b0)
  {
    if p != [] {
      match p[0]
      case Equal(_, _) => JoinedAtMost(A, B, p[1..], a0 + 1, b0 + 1, a1, b1);
      case Delete(_) => JoinedAtMost(A, B, p[1..], a0 + 1, b0, a1, b1);
      case Insert(_, _) => JoinedAtMost(A, B, p[1..], a0, b0 + 1, a1, b1);
    }
  }

  /** A script that joins all of the second range finds it in the first. */
  lemma {:induction false} AllJoinedContains<T>(A: seq<T>, B: seq<T>, p: seq<Entry>, a0: int, b0: int, a1: int, b1: int)
    requires IsScript(A, B, p, a0, b0, a1, b1)
    requires 0 <= a0 <= a1 <= |A| && 0 <= b0 <= b1 <= |B| && Joined(p) == b1 - b0
    ensures Contains(A[a0..a1], B[b0..b1])
  {
    if p != [] {
      var a, b := A[a0..a1], B[b0..b1];
      ScriptStep(A, B, p, a0, b0, a1, b1);
      match p[0]
      case Equal(_, _) =>
        AllJoinedContains(A, B, p[1..], a0 + 1, b0 + 1, a1, b1);
        assert a[1..] == A[a0 + 1..a1] && b[1..] == B[b0 + 1..b1];
      case Delete(_) =>
        AllJoinedContains(A, B, p[1..], a0 + 1, b0, a1, b1);
        assert a[1..] == A[a0 + 1..a1];
      case Insert(_, _) =>
        JoinedAtMost(A, B, p[1..], a0, b0 + 1, a1, b1);
    }
  }

  /** A script that joins all of the first range finds it in the second. */
  lemma {:induction false} AllJoinedContained<T>(A: seq<T>, B: seq<T>, p: seq<Entry>, a0: int, b0: int, a1: int, b1: int)
    requires IsScript(A, B, p, a0, b0, a1, b1)
    requires 0 <= a0 <= a1 <= |A| && 0 <= b0 <= b1 <= |B| && Joined(p) == a1 - a0
    ensures Contains(B[b0..b1], A[a0..a1])
  {
    if p != [] {
      var a, b := A[a0..a1], B[b0..b1];
      ScriptStep(A, B, p, a0, b0, a1, b1);
      match p[0]
      case Equal(_, _) =>
        AllJoinedContained(A, B, p[1..], a0 + 1, b0 + 1, a1, b1);
        assert a[1..] == A[a0 + 1..a1] && b[1..] == B[b0 + 1..b1];
      case Insert(_, _) =>
        AllJoinedContained(A, B, p[1..], a0, b0 + 1, a1, b1);
        assert b[1..] == B[b0 + 1..b1];
      case Delete(_) =>
        JoinedAtMost(A, B, p[1..], a0 + 1, b0, a1, b1);
    }
  }

  /** Parts of a range of a sequence are ranges of the sequence. */
  lemma Parts<T>(A: seq<T>, ofs: int, len: int, s: int, e: int)
    requires 0 <= ofs && 0 <= s <= len && 0 <= e <= len && ofs + len <= |A|
    ensures A[ofs..ofs + len][..s] == A[ofs..ofs + s]
    ensures A[ofs..ofs + len][e..] == A[ofs + e..ofs + e + (len - e)]
  {
  }

  lemma ContainedSuffices<T>(a: seq<T>, b: seq<T>, path: seq<Entry>)
    requires Divided(a, b, path)
    ensures Contains(a, b) ==> Joined(path) == |b|
    ensures Contains(b, a) ==> Joined(path) == |a|
  {
    if Contains(a, b) {
      DeletionsSuffice(a, b, path);
    }
    if Contains(b, a) {
      InsertionsSuffice(a, b, path);
    }
  }

  lemma ScriptContains<T>(A: seq<T>, B: seq<T>, p: seq<Entry>, a0: int, b0: int, a1: int, b1: int)
    requires IsScript(A, B, p, a0, b0, a1, b1)
    requires 0 <= a0 <= a1 <= |A| && 0 <= b0 <= b1 <= |B|
    ensures Joined(p) == b1 - b0 ==> Contains(A[a0..a1], B[b0..b1])
    ensures Joined(p) == a1 - a0 ==> Contains(B[b0..b1], A[a0..a1])
  {
    if Joined(p) == b1 - b0 {
      AllJoinedContains(A, B, p, a0, b0, a1, b1);
    }
    if Joined(p) == a1 - a0 {
      AllJoinedContained(A, B, p, a0, b0, a1, b1);
    }
  }

  /** The divided search joins all of one range if and only if that range is contained in the other. */
  lemma AllJoined<T>(A: seq<T>, B: seq<T>, p: seq<Entry>, a0: int, b0: int, a1: int, b1: int, a: seq<T>, b: seq<T>)
    requires 0 <= a0 <= a1 <= |A| && 0 <= b0 <= b1 <= |B| && a == A[a0..a1] && b == B[b0..b1]
    requires IsScript(A, B, p, a0, b0, a1, b1) && Divided(a, b, p)
    ensures Joined(p) == |b| <==> Contains(a, b)
    ensures Joined(p) == |a| <==> Contains(b, a)
  {
    ContainedSuffices(a, b, p);
    ScriptContains(A, B, p, a0, b0, a1, b1);
  }

  // ----- equal heads and tails -----

  lemma {:induction false} RestDiagonal<T>(a: seq<T>, b: seq<T>, k: int, x: int, e: int)
    requires x <= e && Diagonal(a, b, k, x, e) && Rest(a, b, e, e - k)
    ensures Rest(a, b, x, x - k)
    decreases e - x
  {
    if x < e {
      assert Match(a, b, k, x);
      RestDiagonal(a, b, k, x + 1, e);
    }
  }

  lemma {:induction false} RestDeletes<T>(a: seq<T>, b: seq<T>, x: int, e: int, y: int)
    requires x <= e && Rest(a, b, e, y)
    ensures Rest(a, b, x, y)
    decreases e - x
  {
    if x < e {
      RestDeletes(a, b, x + 1, e, y);
    }
  }

  lemma EqualHeads<T>(a: seq<T>, b: seq<T>, p: nat)
    requires p <= |a| && p <= |b| && a[..p] == b[..p]
    ensures Diagonal(a, b, 0, 0, p)
  {
    forall i | 0 <= i < p ensures Match(a, b, 0, i) {
      assert a[i] == a[..p][i] && b[i] == b[..p][i];
    }
  }

  lemma EqualTails<T>(a: seq<T>, b: seq<T>, s: nat, delta: int)
    requires s <= |a| && s <= |b| && delta == |a| - |b| && a[|a| - s..] == b[|b| - s..]
    ensures Diagonal(a, b, delta, |a| - s, |a|)
  {
    forall i | |a| - s <= i < |a| ensures Match(a, b, delta, i) {
      assert a[i] == a[|a| - s..][i - (|a| - s)];
      assert b[i - delta] == b[|b| - s..][i - (|a| - s)];
    }
  }

  /** A head and a tail that together cover the shorter of two ranges, and that the other has too. */
  lemma HeadAndTailContained<T>(a: seq<T>, b: seq<T>, p: nat, s: nat)
    requires p <= |b| <= |a| && s <= |b| && a[..p] == b[..p] && a[|a| - s..] == b[|b| - s..]
    requires p + s >= |b|
    ensures Contains(a, b)
  {
    var t := |b| - p;
    var delta := |a| - |b|;
    EqualTails(a, b, s, delta);
    EqualHeads(a, b, p);
    RestDiagonal(a, b, delta, |a| - t, |a|);
    RestDeletes(a, b, p, |a| - t, p);
    RestDiagonal(a, b, 0, 0, p);
    RestIsContained(a, b, 0, 0);
    assert a[0..] == a && b[0..] == b;
  }

  /** An equal head and an equal tail that together cover the shorter range are kept: all of it is joined. */
  lemma HeadAndTailKept<T>(a: seq<T>, b: seq<T>, path: seq<Entry>, p: nat, s: nat)
    requires Divided(a, b, path)
    requires p <= Min(|a|, |b|) && s <= Min(|a|, |b|) && p + s >= Min(|a|, |b|)
    requires a[..p] == b[..p] && a[|a| - s..] == b[|b| - s..]
    ensures Joined(path) == Min(|a|, |b|)
  {
    if |b| <= |a| {
      HeadAndTailContained(a, b, p, s);
      DeletionsSuffice(a, b, path);
    } else {
      HeadAndTailContained(b, a, p, s);
      InsertionsSuffice(a, b, path);
    }
  }

  /** Equal ranges give only pairs. */
  lemma EqualRangesKept<T>(A: seq<T>, B: seq<T>, p: seq<Entry>, a0: int, b0: int, a1: int, b1: int)
    requires 0 <= a0 <= a1 <= |A| && 0 <= b0 <= b1 <= |B| && A[a0..a1] == B[b0..b1]
    requires IsScript(A, B, p, a0, b0, a1, b1) && Divided(A[a0..a1], B[b0..b1], p)
    ensures Joined(p) == |p| == a1 - a0
  {
    var a, b := A[a0..a1], B[b0..b1];
    HeadAndTailKept(a, b, p, |a|, 0);
    JoinedAtMost(A, B, p, a0, b0, a1, b1);
  }
}
