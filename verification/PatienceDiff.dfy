/** The patience diff over lines: trim equal ends, anchor on lines unique in both ranges, recurse between anchors. */
module PatienceDiff {
  import opened EditScript
  import opened Frontier
  import opened Myers
  import opened PatienceSort
  import opened Lines

  /** Position l holds a key that no other position of the range holds. */
  ghost predicate UniqueIn(keys: seq<nat>, ofs: int, len: int, l: int) {
    && 0 <= ofs <= l < ofs + len <= |keys|
    && forall j | ofs <= j < ofs + len && keys[j] == keys[l] :: j == l
  }

  ghost predicate SharedUnique(A: seq<nat>, B: seq<nat>, aOfs: int, aLen: int, bOfs: int, bLen: int, x: int, y: int) {
    UniqueIn(A, aOfs, aLen, x) && UniqueIn(B, bOfs, bLen, y) && A[x] == B[y]
  }

  /** The mappings are exactly the shared unique lines with an A index below `limit`, by rising A index. */
  ghost predicate Mappings(A: seq<nat>, B: seq<nat>, aOfs: int, aLen: int, bOfs: int, bLen: int, limit: int,
                           ms: seq<LineMapping>) {
    && (forall i | 0 <= i < |ms| ::
          && ms[i].mAIdx < limit
          && SharedUnique(A, B, aOfs, aLen, bOfs, bLen, ms[i].mAIdx, ms[i].mBIdx))
    && (forall i, j | 0 <= i < j < |ms| :: ms[i].mAIdx < ms[j].mAIdx)
    && (forall x, y {:trigger Holds(ms, x, y)} |
          SharedUnique(A, B, aOfs, aLen, bOfs, bLen, x, y) && x < limit :: Holds(ms, x, y))
  }

  ghost predicate Holds(ms: seq<LineMapping>, x: int, y: int) {
    exists i :: 0 <= i < |ms| && ms[i].mAIdx == x && ms[i].mBIdx == y
  }

  lemma MappingsDistinct(A: seq<nat>, B: seq<nat>, aOfs: int, aLen: int, bOfs: int, bLen: int, limit: int,
                         ms: seq<LineMapping>)
    requires Mappings(A, B, aOfs, aLen, bOfs, bLen, limit, ms)
    ensures Distinct(BIndices(ms))
  {
    forall i, j | 0 <= i < j < |ms| ensures ms[i].mBIdx != ms[j].mBIdx {
      assert SharedUnique(A, B, aOfs, aLen, bOfs, bLen, ms[i].mAIdx, ms[i].mBIdx);
      assert SharedUnique(A, B, aOfs, aLen, bOfs, bLen, ms[j].mAIdx, ms[j].mBIdx);
    }
  }

  /** How many of the references fall into a range, counting no further than 2, and the first that does. */
  method CountInRange(refs: seq<int>, ofs: int, len: int) returns (count: int, matchIdx: int)
    requires forall i, j | 0 <= i < j < |refs| :: refs[i] < refs[j]
    ensures count == 1 ==>
              && ofs <= matchIdx < ofs + len && matchIdx in refs
              && forall l | l in refs && ofs <= l < ofs + len :: l == matchIdx
    ensures count != 1 ==> forall l | l in refs && ofs <= l < ofs + len ::
                             exists l' :: l' in refs && ofs <= l' < ofs + len && l' != l
  {
    count, matchIdx := 0, -1;
    for i := 0 to |refs|
      invariant count == 0 || count == 1
      invariant count == 0 ==> forall j | 0 <= j < i :: !(ofs <= refs[j] < ofs + len)
      invariant count == 1 ==> ofs <= matchIdx < ofs + len && matchIdx in refs[..i]
      invariant count == 1 ==> forall j | 0 <= j < i && ofs <= refs[j] < ofs + len :: refs[j] == matchIdx
    {
      var lineNum := refs[i];
      if lineNum >= ofs && lineNum < ofs + len {
        count := count + 1;
        if count > 1 {
          assert matchIdx in refs && lineNum in refs && matchIdx != lineNum;
          break;
        }
        matchIdx := lineNum;
      }
    }
  }

  lemma HoldsExtend(ms: seq<LineMapping>, m: LineMapping, x: int, y: int)
    requires Holds(ms, x, y) || (m.mAIdx == x && m.mBIdx == y)
    ensures Holds(ms + [m], x, y)
  {
    if Holds(ms, x, y) {
      var i :| 0 <= i < |ms| && ms[i].mAIdx == x && ms[i].mBIdx == y;
      assert (ms + [m])[i] == ms[i];
    } else {
      assert (ms + [m])[|ms|] == m;
    }
  }

  lemma MappingsAdd(A: seq<nat>, B: seq<nat>, aOfs: int, aLen: int, bOfs: int, bLen: int, aIdx: int,
                    ms: seq<LineMapping>, m: LineMapping)
    requires Mappings(A, B, aOfs, aLen, bOfs, bLen, aIdx, ms)
    requires m.mAIdx == aIdx && SharedUnique(A, B, aOfs, aLen, bOfs, bLen, aIdx, m.mBIdx)
    ensures Mappings(A, B, aOfs, aLen, bOfs, bLen, aIdx + 1, ms + [m])
  {
    forall x, y | SharedUnique(A, B, aOfs, aLen, bOfs, bLen, x, y) && x < aIdx + 1 ensures Holds(ms + [m], x, y) {
      assert x < aIdx ==> Holds(ms, x, y);
      HoldsExtend(ms, m, x, y);
    }
  }

  lemma MappingsSkip(A: seq<nat>, B: seq<nat>, aOfs: int, aLen: int, bOfs: int, bLen: int, aIdx: int,
                     ms: seq<LineMapping>)
    requires Mappings(A, B, aOfs, aLen, bOfs, bLen, aIdx, ms)
    requires forall y :: !SharedUnique(A, B, aOfs, aLen, bOfs, bLen, aIdx, y)
    ensures Mappings(A, B, aOfs, aLen, bOfs, bLen, aIdx + 1, ms)
  {
    forall x, y | SharedUnique(A, B, aOfs, aLen, bOfs, bLen, x, y) && x < aIdx + 1 ensures Holds(ms, x, y) {
      assert x != aIdx;
      assert Holds(ms, x, y);
    }
  }

  lemma OneLineRangesShareIt(A: seq<nat>, B: seq<nat>, aOfs: int, bOfs: int, shared: seq<LineMapping>)
    requires 0 <= aOfs < |A| && 0 <= bOfs < |B|
    requires Mappings(A, B, aOfs, 1, bOfs, 1, aOfs + 1, shared) && shared != []
    ensures A[aOfs] == B[bOfs]
  {
    assert SharedUnique(A, B, aOfs, 1, bOfs, 1, shared[0].mAIdx, shared[0].mBIdx);
  }

  /** One-line ranges whose lines differ share no line, so the early return of the source is never taken. */
  lemma EarlyReturnUnreachable(A: seq<nat>, B: seq<nat>, aOfs: int, bOfs: int, shared: seq<LineMapping>)
    requires 0 <= aOfs < |A| && 0 <= bOfs < |B| && A[aOfs] != B[bOfs]
    requires Mappings(A, B, aOfs, 1, bOfs, 1, aOfs + 1, shared)
    ensures shared == []
  {
    if shared != [] {
      OneLineRangesShareIt(A, B, aOfs, bOfs, shared);
    }
  }

  /** Anchors: shared unique lines, rising in both texts. */
  ghost predicate Anchors(A: seq<nat>, B: seq<nat>, aOfs: int, aLen: int, bOfs: int, bLen: int, anchors: seq<(int, int)>) {
    && (forall i | 0 <= i < |anchors| :: SharedUnique(A, B, aOfs, aLen, bOfs, bLen, anchors[i].0, anchors[i].1))
    && (forall i, j | 0 <= i < j < |anchors| :: anchors[i].0 < anchors[j].0 && anchors[i].1 < anchors[j].1)
  }

  /** Equal ranges have no first pair that differs. */
  lemma EqualRanges(A: seq<nat>, B: seq<nat>, aOfs: int, aLen: int, bOfs: int, bLen: int, n: int)
    requires 0 <= aOfs && aOfs + aLen <= |A| && 0 <= bOfs && bOfs + bLen <= |B| && 0 <= n <= aLen && n <= bLen
    requires n < aLen && n < bLen ==> A[aOfs + n] != B[bOfs + n]
    ensures A[aOfs..aOfs + aLen] == B[bOfs..bOfs + bLen] ==> aLen == n == bLen
  {
    var s, t := A[aOfs..aOfs + aLen], B[bOfs..bOfs + bLen];
    assert |s| == aLen && |t| == bLen;
    assert n < aLen && n < bLen ==> s[n] == A[aOfs + n] && t[n] == B[bOfs + n];
  }

  /** How many elements two ranges have in common at the start. */
  function HeadRun(A: seq<nat>, B: seq<nat>, aOfs: int, aLen: int, bOfs: int, bLen: int): (n: nat)
    requires 0 <= aOfs && 0 <= aLen && aOfs + aLen <= |A| && 0 <= bOfs && 0 <= bLen && bOfs + bLen <= |B|
    ensures n <= aLen && n <= bLen
    decreases aLen
  {
    if aLen > 0 && bLen > 0 && A[aOfs] == B[bOfs] then 1 + HeadRun(A, B, aOfs + 1, aLen - 1, bOfs + 1, bLen - 1) else 0
  }

  /** How many they have in common at the end. */
  function TailRun(A: seq<nat>, B: seq<nat>, aOfs: int, aLen: int, bOfs: int, bLen: int): (n: nat)
    requires 0 <= aOfs && 0 <= aLen && aOfs + aLen <= |A| && 0 <= bOfs && 0 <= bLen && bOfs + bLen <= |B|
    ensures n <= aLen && n <= bLen
    decreases aLen
  {
    if aLen > 0 && bLen > 0 && A[aOfs + aLen - 1] == B[bOfs + bLen - 1] then 1 + TailRun(A, B, aOfs, aLen - 1, bOfs, bLen - 1)
    else 0
  }

  /** The equal elements at both ends, none of them counted twice. */
  function Ends(A: seq<nat>, B: seq<nat>, aOfs: int, aLen: int, bOfs: int, bLen: int): nat
    requires 0 <= aOfs && 0 <= aLen && aOfs + aLen <= |A| && 0 <= bOfs && 0 <= bLen && bOfs + bLen <= |B|
  {
    var n := HeadRun(A, B, aOfs, aLen, bOfs, bLen);
    n + TailRun(A, B, aOfs + n, aLen - n, bOfs + n, bLen - n)
  }

  lemma {:induction false} HeadRunIs(A: seq<nat>, B: seq<nat>, aOfs: int, aLen: int, bOfs: int, bLen: int, n: int)
    requires 0 <= aOfs && 0 <= aLen && aOfs + aLen <= |A| && 0 <= bOfs && 0 <= bLen && bOfs + bLen <= |B|
    requires 0 <= n <= aLen && n <= bLen && Diagonal(A, B, aOfs - bOfs, aOfs, aOfs + n)
    ensures HeadRun(A, B, aOfs, aLen, bOfs, bLen) >= n
    ensures (n < aLen && n < bLen ==> A[aOfs + n] != B[bOfs + n]) ==> HeadRun(A, B, aOfs, aLen, bOfs, bLen) == n
    decreases aLen
  {
    if n > 0 {
      assert Match(A, B, aOfs - bOfs, aOfs);
      HeadRunIs(A, B, aOfs + 1, aLen - 1, bOfs + 1, bLen - 1, n - 1);
    }
  }

  lemma {:induction false} TailRunIs(A: seq<nat>, B: seq<nat>, aOfs: int, aLen: int, bOfs: int, bLen: int, n: int)
    requires 0 <= aOfs && 0 <= aLen && aOfs + aLen <= |A| && 0 <= bOfs && 0 <= bLen && bOfs + bLen <= |B|
    requires 0 <= n <= aLen && n <= bLen
    requires Diagonal(A, B, aOfs + aLen - (bOfs + bLen), aOfs + aLen - n, aOfs + aLen)
    ensures TailRun(A, B, aOfs, aLen, bOfs, bLen) >= n
    ensures (n < aLen && n < bLen ==> A[aOfs + aLen - n - 1] != B[bOfs + bLen - n - 1]) ==>
              TailRun(A, B, aOfs, aLen, bOfs, bLen) == n
    decreases aLen
  {
    if n > 0 {
      assert Match(A, B, aOfs + aLen - (bOfs + bLen), aOfs + aLen - 1);
      TailRunIs(A, B, aOfs, aLen - 1, bOfs, bLen - 1, n - 1);
    }
  }

  lemma EndsFrom(A: seq<nat>, B: seq<nat>, aOfs: int, aLen: int, bOfs: int, bLen: int, n: int, rest: nat)
    requires 0 <= aOfs && 0 <= aLen && aOfs + aLen <= |A| && 0 <= bOfs && 0 <= bLen && bOfs + bLen <= |B|
    requires 0 <= n <= aLen && n <= bLen && Diagonal(A, B, aOfs - bOfs, aOfs, aOfs + n)
    requires n < aLen && n < bLen ==> A[aOfs + n] != B[bOfs + n]
    requires n < aLen && n < bLen ==> TailRun(A, B, aOfs + n, aLen - n, bOfs + n, bLen - n) <= rest
    ensures Ends(A, B, aOfs, aLen, bOfs, bLen) <= n + rest
  {
    HeadRunIs(A, B, aOfs, aLen, bOfs, bLen, n);
  }

  /** So any equal head of p and equal tail of s elements count, up to the shorter of the ranges. */
  lemma EndsAreMost(A: seq<nat>, B: seq<nat>, aOfs: int, aLen: int, bOfs: int, bLen: int, p: nat, s: nat)
    requires 0 <= aOfs && 0 <= aLen && aOfs + aLen <= |A| && 0 <= bOfs && 0 <= bLen && bOfs + bLen <= |B|
    requires p <= aLen && p <= bLen && Diagonal(A, B, aOfs - bOfs, aOfs, aOfs + p)
    requires s <= aLen && s <= bLen && Diagonal(A, B, aOfs + aLen - (bOfs + bLen), aOfs + aLen - s, aOfs + aLen)
    ensures Ends(A, B, aOfs, aLen, bOfs, bLen) >= p + s || Ends(A, B, aOfs, aLen, bOfs, bLen) in {aLen, bLen}
  {
    var n := HeadRun(A, B, aOfs, aLen, bOfs, bLen);
    HeadRunIs(A, B, aOfs, aLen, bOfs, bLen, p);
    var left := if aLen < bLen then aLen - n else bLen - n;
    TailRunIs(A, B, aOfs + n, aLen - n, bOfs + n, bLen - n, if s < left then s else left);
  }

  /** No rising choice of shared unique lines has more than n. */
  ghost predicate AtMost(A: seq<nat>, B: seq<nat>, aOfs: int, aLen: int, bOfs: int, bLen: int, n: int) {
    forall other | Anchors(A, B, aOfs, aLen, bOfs, bLen, other) :: |other| <= n
  }

  /** The largest number of anchors from column x0 and row y0 on. */
  ghost function MostFrom(A: seq<nat>, B: seq<nat>, aOfs: int, aLen: int, bOfs: int, bLen: int, x0: int, y0: int): nat
    decreases aOfs + aLen - x0
  {
    if x0 >= aOfs + aLen then 0
    else
      var without := MostFrom(A, B, aOfs, aLen, bOfs, bLen, x0 + 1, y0);
      if exists y :: y >= y0 && SharedUnique(A, B, aOfs, aLen, bOfs, bLen, x0, y) then
        var y :| y >= y0 && SharedUnique(A, B, aOfs, aLen, bOfs, bLen, x0, y);
        var with := 1 + MostFrom(A, B, aOfs, aLen, bOfs, bLen, x0 + 1, y + 1);
        if with > without then with else without
      else without
  }

  /** The largest number of lines that occur once in both ranges and rise in both. */
  ghost function Most(A: seq<nat>, B: seq<nat>, aOfs: int, aLen: int, bOfs: int, bLen: int): nat {
    MostFrom(A, B, aOfs, aLen, bOfs, bLen, aOfs, bOfs)
  }

  lemma {:induction false} NoMoreThanMost(A: seq<nat>, B: seq<nat>, aOfs: int, aLen: int, bOfs: int, bLen: int,
                                          x0: int, y0: int, other: seq<(int, int)>)
    requires Anchors(A, B, aOfs, aLen, bOfs, bLen, other)
    requires other != [] ==> other[0].0 >= x0 && other[0].1 >= y0
    ensures |other| <= MostFrom(A, B, aOfs, aLen, bOfs, bLen, x0, y0)
    decreases aOfs + aLen - x0
  {
    if other != [] {
      var (x, y) := other[0];
      assert SharedUnique(A, B, aOfs, aLen, bOfs, bLen, x, y);
      if x == x0 {
        var rest := other[1..];
        assert rest != [] ==> other[0].0 < other[1].0 && other[0].1 < other[1].1;
        NoMoreThanMost(A, B, aOfs, aLen, bOfs, bLen, x0 + 1, y + 1, rest);
      } else {
        NoMoreThanMost(A, B, aOfs, aLen, bOfs, bLen, x0 + 1, y0, other);
      }
    }
  }

  lemma {:induction false} MostReached(A: seq<nat>, B: seq<nat>, aOfs: int, aLen: int, bOfs: int, bLen: int,
                                       x0: int, y0: int) returns (other: seq<(int, int)>)
    ensures Anchors(A, B, aOfs, aLen, bOfs, bLen, other)
    ensures other != [] ==> other[0].0 >= x0 && other[0].1 >= y0
    ensures |other| == MostFrom(A, B, aOfs, aLen, bOfs, bLen, x0, y0)
    decreases aOfs + aLen - x0
  {
    if x0 >= aOfs + aLen {
      return [];
    }
    other := MostReached(A, B, aOfs, aLen, bOfs, bLen, x0 + 1, y0);
    if exists y :: y >= y0 && SharedUnique(A, B, aOfs, aLen, bOfs, bLen, x0, y) {
      var y :| y >= y0 && SharedUnique(A, B, aOfs, aLen, bOfs, bLen, x0, y);
      var rest := MostReached(A, B, aOfs, aLen, bOfs, bLen, x0 + 1, y + 1);
      if 1 + |rest| > |other| {
        other := [(x0, y)] + rest;
      }
    }
  }

  /** Most is a maximum. */
  lemma MostIsMost(A: seq<nat>, B: seq<nat>, aOfs: int, aLen: int, bOfs: int, bLen: int, n: int)
    ensures Most(A, B, aOfs, aLen, bOfs, bLen) <= n <==> AtMost(A, B, aOfs, aLen, bOfs, bLen, n)
  {
    var other := MostReached(A, B, aOfs, aLen, bOfs, bLen, aOfs, bOfs);
    if Most(A, B, aOfs, aLen, bOfs, bLen) <= n {
      forall other: seq<(int, int)> | Anchors(A, B, aOfs, aLen, bOfs, bLen, other) ensures |other| <= n {
        if other != [] {
          assert SharedUnique(A, B, aOfs, aLen, bOfs, bLen, other[0].0, other[0].1);
        }
        NoMoreThanMost(A, B, aOfs, aLen, bOfs, bLen, aOfs, bOfs, other);
      }
    }
  }

  predicate Joins(path: seq<Entry>, anchor: (int, int)) {
    Equal(anchor.0, anchor.1) in path
  }

  lemma NoneInEmpty(A: seq<nat>, B: seq<nat>, aOfs: int, aLen: int, bOfs: int, bLen: int)
    requires aLen == 0 || bLen == 0
    ensures Most(A, B, aOfs, aLen, bOfs, bLen) == 0
  {
    MostIsMost(A, B, aOfs, aLen, bOfs, bLen, 0);
    forall other: seq<(int, int)> | Anchors(A, B, aOfs, aLen, bOfs, bLen, other) ensures |other| <= 0 {
      assert other != [] ==> SharedUnique(A, B, aOfs, aLen, bOfs, bLen, other[0].0, other[0].1);
    }
  }

  lemma NoneShared(A: seq<nat>, B: seq<nat>, aOfs: int, aLen: int, bOfs: int, bLen: int, shared: seq<LineMapping>)
    requires Mappings(A, B, aOfs, aLen, bOfs, bLen, aOfs + aLen, shared) && shared == []
    ensures Most(A, B, aOfs, aLen, bOfs, bLen) == 0
  {
    MostIsMost(A, B, aOfs, aLen, bOfs, bLen, 0);
    forall other: seq<(int, int)> | Anchors(A, B, aOfs, aLen, bOfs, bLen, other) ensures |other| <= 0 {
      if other != [] {
        var (x, y) := other[0];
        assert SharedUnique(A, B, aOfs, aLen, bOfs, bLen, x, y);
        NothingHeld(A, B, aOfs, aLen, bOfs, bLen, shared, x, y);
      }
    }
  }

  lemma NothingHeld(A: seq<nat>, B: seq<nat>, aOfs: int, aLen: int, bOfs: int, bLen: int, shared: seq<LineMapping>,
                    x: int, y: int)
    requires Mappings(A, B, aOfs, aLen, bOfs, bLen, aOfs + aLen, shared) && shared == []
    ensures !SharedUnique(A, B, aOfs, aLen, bOfs, bLen, x, y)
  {
    assert !Holds(shared, x, y);
  }

  /** Trimming a head of n pairs and a tail of m loses at most as many of the choice. */
  lemma TrimmedMost(A: seq<nat>, B: seq<nat>, aOfs: int, aLen: int, bOfs: int, bLen: int, n: int, m: int)
    requires 0 <= aOfs && aOfs + aLen <= |A| && 0 <= bOfs && bOfs + bLen <= |B|
    requires 0 <= n && 0 <= m && n + m <= aLen && n + m <= bLen
    requires Diagonal(A, B, aOfs - bOfs, aOfs, aOfs + n)
    requires Diagonal(A, B, aOfs + aLen - (bOfs + bLen), aOfs + aLen - m, aOfs + aLen)
    ensures Most(A, B, aOfs, aLen, bOfs, bLen) <= n + Most(A, B, aOfs + n, aLen - n - m, bOfs + n, bLen - n - m) + m
  {
    var mid := Most(A, B, aOfs + n, aLen - n - m, bOfs + n, bLen - n - m);
    MostIsMost(A, B, aOfs + n, aLen - n - m, bOfs + n, bLen - n - m, mid);
    MostIsMost(A, B, aOfs, aLen, bOfs, bLen, n + mid + m);
    forall other: seq<(int, int)> | Anchors(A, B, aOfs, aLen, bOfs, bLen, other) ensures |other| <= n + mid + m {
      var i := CountBelow(other, aOfs + n);
      var j := CountBelow(other, aOfs + aLen - m);
      forall k | 0 <= k < |other| ensures aOfs <= other[k].0 < aOfs + aLen {
        assert SharedUnique(A, B, aOfs, aLen, bOfs, bLen, other[k].0, other[k].1);
      }
      RisingBound(other, 0, i, aOfs, aOfs + n);
      RisingBound(other, j, |other|, aOfs + aLen - m, aOfs + aLen);
      MiddleAnchors(A, B, aOfs, aLen, bOfs, bLen, n, m, other, i, j);
      assert |other[i..j]| <= mid;
    }
  }

  /** Joining n pairs of a matching head to a script of the rest. */
  lemma JoinHead(A: seq<nat>, B: seq<nat>, aOfs: int, aLen: int, bOfs: int, bLen: int,
                 a: int, aLeft: int, b: int, bLeft: int, n: int, head: seq<Entry>, rest: seq<Entry>)
    requires 0 <= aOfs && aOfs + aLen <= |A| && 0 <= bOfs && bOfs + bLen <= |B| && 0 <= n <= aLen && n <= bLen
    requires a == aOfs + n && aLeft == aLen - n && b == bOfs + n && bLeft == bLen - n
    requires Diagonal(A, B, aOfs - bOfs, aOfs, a) && Joined(head) == n
    requires IsScript(A, B, head, aOfs, bOfs, a, b) && IsScript(A, B, rest, a, b, a + aLeft, b + bLeft)
    requires Most(A, B, a, aLeft, b, bLeft) <= Joined(rest)
    ensures IsScript(A, B, head + rest, aOfs, bOfs, aOfs + aLen, bOfs + bLen)
    ensures Most(A, B, aOfs, aLen, bOfs, bLen) <= Joined(head + rest) && Joined(head + rest) == n + Joined(rest)
  {
    ScriptConcat(A, B, head, rest, aOfs, bOfs, a, b, aOfs + aLen, bOfs + bLen);
    JoinedConcat(head, rest);
    TrimmedMost(A, B, aOfs, aLen, bOfs, bLen, n, 0);
  }

  /** Joining m pairs of a matching tail behind a script of the middle. */
  lemma JoinTail(A: seq<nat>, B: seq<nat>, aOfs: int, aLen: int, bOfs: int, bLen: int, aLeft: int, bLeft: int, m: int,
                 middle: seq<Entry>, tail: seq<Entry>)
    requires 0 <= aOfs && aOfs + aLen <= |A| && 0 <= bOfs && bOfs + bLen <= |B| && 0 <= m <= aLen && m <= bLen
    requires aLeft == aLen - m && bLeft == bLen - m
    requires Diagonal(A, B, aOfs + aLen - (bOfs + bLen), aOfs + aLen - m, aOfs + aLen) && Joined(tail) == m
    requires IsScript(A, B, middle, aOfs, bOfs, aOfs + aLeft, bOfs + bLeft)
    requires IsScript(A, B, tail, aOfs + aLeft, bOfs + bLeft, aOfs + aLeft + m, bOfs + bLeft + m)
    requires Most(A, B, aOfs, aLeft, bOfs, bLeft) <= Joined(middle)
    ensures IsScript(A, B, middle + tail, aOfs, bOfs, aOfs + aLen, bOfs + bLen)
    ensures Most(A, B, aOfs, aLen, bOfs, bLen) <= Joined(middle + tail) && m <= Joined(middle + tail)
  {
    ScriptConcat(A, B, middle, tail, aOfs, bOfs, aOfs + aLeft, bOfs + bLeft, aOfs + aLen, bOfs + bLen);
    JoinedConcat(middle, tail);
    TrimmedMost(A, B, aOfs, aLen, bOfs, bLen, 0, m);
  }

  /** The anchors before column `bound`. */
  lemma CountBelow(anchors: seq<(int, int)>, bound: int) returns (i: int)
    requires forall k, l | 0 <= k < l < |anchors| :: anchors[k].0 < anchors[l].0
    ensures 0 <= i <= |anchors|
    ensures forall k | 0 <= k < i :: anchors[k].0 < bound
    ensures forall k | i <= k < |anchors| :: anchors[k].0 >= bound
  {
    i := |anchors|;
    while i > 0 && anchors[i - 1].0 >= bound
      invariant 0 <= i <= |anchors|
      invariant forall k | i <= k < |anchors| :: anchors[k].0 >= bound
    {
      i := i - 1;
    }
    assert forall k | 0 <= k < i :: anchors[k].0 <= anchors[i - 1].0;
  }

  lemma {:induction false} RisingBound(anchors: seq<(int, int)>, i: int, j: int, lo: int, hi: int)
    requires 0 <= i <= |anchors| && 0 <= j <= |anchors| && lo <= hi
    requires forall k, l | 0 <= k < l < |anchors| :: anchors[k].0 < anchors[l].0
    requires forall k | i <= k < j :: lo <= anchors[k].0 < hi
    ensures j - i <= hi - lo
    decreases j - i
  {
    if i == j - 1 {
      assert lo <= anchors[i].0 < hi;
    } else if i < j - 1 {
      RisingBound(anchors, i, j - 1, lo, anchors[j - 1].0);
    }
  }

  lemma MiddleAnchors(A: seq<nat>, B: seq<nat>, aOfs: int, aLen: int, bOfs: int, bLen: int, n: int, m: int,
                      other: seq<(int, int)>, i: int, j: int)
    requires 0 <= aOfs && aOfs + aLen <= |A| && 0 <= bOfs && bOfs + bLen <= |B|
    requires 0 <= n && 0 <= m && n + m <= aLen && n + m <= bLen
    requires Diagonal(A, B, aOfs - bOfs, aOfs, aOfs + n)
    requires Diagonal(A, B, aOfs + aLen - (bOfs + bLen), aOfs + aLen - m, aOfs + aLen)
    requires Anchors(A, B, aOfs, aLen, bOfs, bLen, other) && 0 <= i <= |other| && 0 <= j <= |other|
    requires forall k | 0 <= k < i :: other[k].0 < aOfs + n
    requires forall k | i <= k < |other| :: other[k].0 >= aOfs + n
    requires forall k | 0 <= k < j :: other[k].0 < aOfs + aLen - m
    requires forall k | j <= k < |other| :: other[k].0 >= aOfs + aLen - m
    ensures i <= j && Anchors(A, B, aOfs + n, aLen - n - m, bOfs + n, bLen - n - m, other[i..j])
  {
    var x := if j < |other| then other[j].0 else aOfs + aLen - m;
    assert aOfs + n <= aOfs + aLen - m <= x;
    forall k | 0 <= k < j - i
      ensures SharedUnique(A, B, aOfs + n, aLen - n - m, bOfs + n, bLen - n - m, other[i..j][k].0, other[i..j][k].1)
    {
      StaysInMiddle(A, B, aOfs, aLen, bOfs, bLen, n, m, other[i + k].0, other[i + k].1);
    }
  }

  /** A shared unique line between head and tail of A is between head and tail of B. */
  lemma StaysInMiddle(A: seq<nat>, B: seq<nat>, aOfs: int, aLen: int, bOfs: int, bLen: int, n: int, m: int, x: int, y: int)
    requires 0 <= aOfs && aOfs + aLen <= |A| && 0 <= bOfs && bOfs + bLen <= |B|
    requires 0 <= n && 0 <= m && n + m <= aLen && n + m <= bLen
    requires Diagonal(A, B, aOfs - bOfs, aOfs, aOfs + n)
    requires Diagonal(A, B, aOfs + aLen - (bOfs + bLen), aOfs + aLen - m, aOfs + aLen)
    requires SharedUnique(A, B, aOfs, aLen, bOfs, bLen, x, y) && aOfs + n <= x < aOfs + aLen - m
    ensures SharedUnique(A, B, aOfs + n, aLen - n - m, bOfs + n, bLen - n - m, x, y)
  {
    if y < bOfs + n {
      PairedAlong(A, B, aOfs, aLen, bOfs, bLen, aOfs - bOfs, aOfs, aOfs + n, x, y);
    } else if y >= bOfs + bLen - m {
      PairedAlong(A, B, aOfs, aLen, bOfs, bLen, aOfs + aLen - (bOfs + bLen), aOfs + aLen - m, aOfs + aLen, x, y);
    }
  }

  /** A shared unique line that a matching diagonal reaches in B is on that diagonal. */
  lemma PairedAlong(A: seq<nat>, B: seq<nat>, aOfs: int, aLen: int, bOfs: int, bLen: int, k: int, lo: int, hi: int,
                    x: int, y: int)
    requires 0 <= aOfs <= lo && hi <= aOfs + aLen <= |A| && 0 <= bOfs && bOfs + bLen <= |B|
    requires Diagonal(A, B, k, lo, hi) && lo <= y + k < hi
    requires SharedUnique(A, B, aOfs, aLen, bOfs, bLen, x, y)
    ensures x == y + k
  {
    assert Match(A, B, k, y + k);
  }

  /** Picks as many anchors as any rising choice of shared unique lines has. */
  method PickAnchors(A: seq<nat>, B: seq<nat>, aOfs: int, aLen: int, bOfs: int, bLen: int, shared: seq<LineMapping>)
    returns (anchors: seq<(int, int)>)
    requires |shared| > 0 && Mappings(A, B, aOfs, aLen, bOfs, bLen, aOfs + aLen, shared)
    requires forall i | 0 <= i < |shared| :: shared[i].mPrevStackTop == -1
    ensures anchors != [] && Anchors(A, B, aOfs, aLen, bOfs, bLen, anchors)
    ensures Most(A, B, aOfs, aLen, bOfs, bLen) == |anchors|
  {
    MappingsDistinct(A, B, aOfs, aLen, bOfs, bLen, aOfs + aLen, shared);
    var ms := new LineMapping[|shared|](i requires 0 <= i < |shared| => shared[i]);
    assert ms[..] == shared;
    var sorted := LongestChain(ms);
    SameBIndices(shared, ms[..]);
    anchors := Pairs(shared, sorted[..]);
    ChainGivesAnchors(A, B, aOfs, aLen, bOfs, bLen, shared, sorted[..]);
    LongestChainGivesMost(A, B, aOfs, aLen, bOfs, bLen, shared, sorted.Length);
    MostIsMost(A, B, aOfs, aLen, bOfs, bLen, |anchors| - 1);
  }

  function Pairs(ms: seq<LineMapping>, c: seq<int>): (r: seq<(int, int)>)
    requires forall i | 0 <= i < |c| :: 0 <= c[i] < |ms|
    ensures |r| == |c| && forall i | 0 <= i < |c| :: r[i] == (ms[c[i]].mAIdx, ms[c[i]].mBIdx)
  {
    seq(|c|, i requires 0 <= i < |c| => (ms[c[i]].mAIdx, ms[c[i]].mBIdx))
  }

  lemma ChainGivesAnchors(A: seq<nat>, B: seq<nat>, aOfs: int, aLen: int, bOfs: int, bLen: int, ms: seq<LineMapping>,
                          c: seq<int>)
    requires Mappings(A, B, aOfs, aLen, bOfs, bLen, aOfs + aLen, ms) && IncreasingChain(BIndices(ms), c)
    ensures Anchors(A, B, aOfs, aLen, bOfs, bLen, Pairs(ms, c))
  {
    forall i, j | 0 <= i < j < |c| ensures ms[c[i]].mAIdx < ms[c[j]].mAIdx && ms[c[i]].mBIdx < ms[c[j]].mBIdx {
      assert c[i] < c[j] && BIndices(ms)[c[i]] < BIndices(ms)[c[j]];
    }
  }

  lemma LongestChainGivesMost(A: seq<nat>, B: seq<nat>, aOfs: int, aLen: int, bOfs: int, bLen: int,
                              ms: seq<LineMapping>, n: int)
    requires ms != [] && Mappings(A, B, aOfs, aLen, bOfs, bLen, aOfs + aLen, ms)
    requires forall c | IncreasingChain(BIndices(ms), c) :: |c| <= n
    ensures n > 0 && Most(A, B, aOfs, aLen, bOfs, bLen) <= n
  {
    MostIsMost(A, B, aOfs, aLen, bOfs, bLen, n);
    assert IncreasingChain(BIndices(ms), [0]);
    forall other: seq<(int, int)> | Anchors(A, B, aOfs, aLen, bOfs, bLen, other) ensures |other| <= n {
      var c := ChainOf(A, B, aOfs, aLen, bOfs, bLen, ms, other);
    }
  }

  /** Every rising choice of shared unique lines is an increasing chain of the mappings. */
  lemma ChainOf(A: seq<nat>, B: seq<nat>, aOfs: int, aLen: int, bOfs: int, bLen: int, ms: seq<LineMapping>,
                anchors: seq<(int, int)>) returns (c: seq<int>)
    requires Mappings(A, B, aOfs, aLen, bOfs, bLen, aOfs + aLen, ms)
    requires Anchors(A, B, aOfs, aLen, bOfs, bLen, anchors)
    ensures |c| == |anchors| && IncreasingChain(BIndices(ms), c)
    ensures forall i | 0 <= i < |c| :: 0 <= c[i] < |ms| && ms[c[i]].mAIdx == anchors[i].0
  {
    if anchors == [] {
      c := [];
    } else {
      var last := |anchors| - 1;
      c := ChainOf(A, B, aOfs, aLen, bOfs, bLen, ms, anchors[..last]);
      var (x, y) := anchors[last];
      assert SharedUnique(A, B, aOfs, aLen, bOfs, bLen, x, y);
      assert Holds(ms, x, y);
      var i :| 0 <= i < |ms| && ms[i].mAIdx == x && ms[i].mBIdx == y;
      forall j | 0 <= j < |c| ensures c[j] < i && BIndices(ms)[c[j]] < y {
        assert anchors[..last][j] == anchors[j] && anchors[j].0 < anchors[last].0;
      }
      c := c + [i];
    }
  }

  class PatienceDiffEngine {
    const A: seq<nat>
    const B: seq<nat>
    const mRefs0: seq<seq<int>>
    const mRefs1: seq<seq<int>>
    const mBase: DiffEngine<nat>

    ghost predicate Valid() {
      mBase.mA == A && mBase.mB == B && RefsOk(A, mRefs0) && RefsOk(B, mRefs1) && |mRefs0| == |mRefs1|
    }

    constructor (a: seq<nat>, b: seq<nat>, refs0: seq<seq<int>>, refs1: seq<seq<int>>)
      requires RefsOk(a, refs0) && RefsOk(b, refs1) && |refs0| == |refs1|
      ensures Valid() && fresh(mBase) && A == a && B == b && mBase.mLog == []
    {
      A, B, mRefs0, mRefs1 := a, b, refs0, refs1;
      mBase := new DiffEngine(a, b);
    }

    /** One line of A: whether it and its only counterpart in B are unique in their ranges. */
    method CheckLine(aOfs: int, aLen: int, bOfs: int, bLen: int, aIdx: int) returns (shared: bool, m: LineMapping)
      requires Valid()
      requires 0 <= aOfs <= aIdx < aOfs + aLen <= |A| && 0 <= bOfs && 0 <= bLen && bOfs + bLen <= |B|
      ensures shared ==> m.mAIdx == aIdx && m.mPrevStackTop == -1
                         && SharedUnique(A, B, aOfs, aLen, bOfs, bLen, aIdx, m.mBIdx)
      ensures !shared ==> forall y :: !SharedUnique(A, B, aOfs, aLen, bOfs, bLen, aIdx, y)
    {
      var id := A[aIdx];
      assert RefsOf(A, id, mRefs0[id]) && RefsOf(B, id, mRefs1[id]);
      var countA, matchA := CountInRange(mRefs0[id], aOfs, aLen);
      var countB, matchB := CountInRange(mRefs1[id], bOfs, bLen);
      shared := countA == 1 && countB == 1;
      m := LineMapping(matchA, matchB, -1);
      assert aIdx in mRefs0[id];
      assert forall y | 0 <= y < |B| && B[y] == id :: y in mRefs1[id];
    }

    /** Collects the lines that occur once in each range. */
    method CollectShared(aOfs: int, aLen: int, bOfs: int, bLen: int) returns (ms: seq<LineMapping>)
      requires Valid()
      requires 0 <= aOfs && 0 <= aLen && aOfs + aLen <= |A| && 0 <= bOfs && 0 <= bLen && bOfs + bLen <= |B|
      ensures Mappings(A, B, aOfs, aLen, bOfs, bLen, aOfs + aLen, ms)
      ensures forall i | 0 <= i < |ms| :: ms[i].mPrevStackTop == -1
    {
      ms := [];
      for aIdx := aOfs to aOfs + aLen
        invariant Mappings(A, B, aOfs, aLen, bOfs, bLen, aIdx, ms)
        invariant forall i | 0 <= i < |ms| :: ms[i].mPrevStackTop == -1
      {
        var shared, m := CheckLine(aOfs, aLen, bOfs, bLen, aIdx);
        if shared {
          MappingsAdd(A, B, aOfs, aLen, bOfs, bLen, aIdx, ms, m);
          ms := ms + [m];
        } else {
          MappingsSkip(A, B, aOfs, aLen, bOfs, bLen, aIdx, ms);
        }
      }
    }

    /** Joins equal lines at the head of both ranges. */
    method ReduceHead(aOfs: int, aLen: int, bOfs: int, bLen: int) returns (n: int, ghost path: seq<Entry>)
      requires Valid()
      requires 0 <= aOfs && 0 <= aLen && aOfs + aLen <= |A| && 0 <= bOfs && 0 <= bLen && bOfs + bLen <= |B|
      modifies mBase
      ensures 0 <= n <= aLen && n <= bLen
      ensures n < aLen && n < bLen ==> A[aOfs + n] != B[bOfs + n]
      ensures Diagonal(A, B, aOfs - bOfs, aOfs, aOfs + n) && Joined(path) == |path| == n
      ensures mBase.mLog == old(mBase.mLog) + path && IsScript(A, B, path, aOfs, bOfs, aOfs + n, bOfs + n)
    {
      n := 0;
      path := [];
      while n < aLen && n < bLen
        invariant 0 <= n <= aLen && n <= bLen
        invariant mBase.mLog == old(mBase.mLog) + path && IsScript(A, B, path, aOfs, bOfs, aOfs + n, bOfs + n)
        invariant Diagonal(A, B, aOfs - bOfs, aOfs, aOfs + n) && Joined(path) == |path| == n
      {
        if A[aOfs + n] != B[bOfs + n] {
          break;
        }
        mBase.EmitEntryEqual(aOfs + n, bOfs + n);
        ScriptEqual(A, B, path, aOfs, bOfs, aOfs + n, bOfs + n);
        JoinedOne(path, Equal(aOfs + n, bOfs + n));
        path := path + [Equal(aOfs + n, bOfs + n)];
        n := n + 1;
      }
    }

    /** The number of equal lines at the tail of both ranges, up to the first pair that differs. */
    method ReduceTail(aOfs: int, aLen: int, bOfs: int, bLen: int) returns (matchTailLength: int)
      requires 0 <= aOfs && 0 <= aLen && aOfs + aLen <= |A| && 0 <= bOfs && 0 <= bLen && bOfs + bLen <= |B|
      ensures 0 <= matchTailLength <= aLen && matchTailLength <= bLen
      ensures Diagonal(A, B, aOfs + aLen - (bOfs + bLen), aOfs + aLen - matchTailLength, aOfs + aLen)
      ensures matchTailLength < aLen && matchTailLength < bLen ==>
        A[aOfs + aLen - matchTailLength - 1] != B[bOfs + bLen - matchTailLength - 1]
    {
      matchTailLength := 0;
      while matchTailLength < aLen && matchTailLength < bLen
        invariant 0 <= matchTailLength <= aLen && matchTailLength <= bLen
        invariant Diagonal(A, B, aOfs + aLen - (bOfs + bLen), aOfs + aLen - matchTailLength, aOfs + aLen)
      {
        if A[aOfs + aLen - matchTailLength - 1] != B[bOfs + bLen - matchTailLength - 1] {
          break;
        }
        matchTailLength := matchTailLength + 1;
      }
    }

    /** Emits one monotone script over the two ranges. It joins at least as many lines as any rising choice of lines
        that occur once in both has, and every line when the ranges are equal. */
    method PatienceDiff(aOfs: int, aLen: int, bOfs: int, bLen: int) returns (ghost path: seq<Entry>)
      requires Valid()
      requires 0 <= aOfs && 0 <= aLen && aOfs + aLen <= |A| && 0 <= bOfs && 0 <= bLen && bOfs + bLen <= |B|
      modifies mBase
      ensures mBase.mLog == old(mBase.mLog) + path
      ensures IsScript(A, B, path, aOfs, bOfs, aOfs + aLen, bOfs + bLen)
      ensures Most(A, B, aOfs, aLen, bOfs, bLen) <= Joined(path)
      ensures Ends(A, B, aOfs, aLen, bOfs, bLen) <= Joined(path)
      ensures A[aOfs..aOfs + aLen] == B[bOfs..bOfs + bLen] ==> Joined(path) == |path|
      decreases aLen + bLen, 1
    {
      var n, head := ReduceHead(aOfs, aLen, bOfs, bLen);
      var a, aLeft, b, bLeft := aOfs + n, aLen - n, bOfs + n, bLen - n;
      EqualRanges(A, B, aOfs, aLen, bOfs, bLen, n);
      ghost var rest;
      if aLeft == 0 || bLeft == 0 {
        rest := mBase.AddDiffSpan(a, b, 0, 0, aLeft, bLeft, false);
        NoneInEmpty(A, B, a, aLeft, b, bLeft);
      } else {
        rest := DiffTrimmed(a, aLeft, b, bLeft);
      }
      JoinHead(A, B, aOfs, aLen, bOfs, bLen, a, aLeft, b, bLeft, n, head, rest);
      EndsFrom(A, B, aOfs, aLen, bOfs, bLen, n, Joined(rest));
      path := head + rest;
    }

    /** Trims the tail, diffs the middle and joins the tail. */
    method DiffTrimmed(aOfs: int, aLen: int, bOfs: int, bLen: int) returns (ghost path: seq<Entry>)
      requires Valid() && 0 < aLen && 0 < bLen
      requires 0 <= aOfs && aOfs + aLen <= |A| && 0 <= bOfs && bOfs + bLen <= |B| && A[aOfs] != B[bOfs]
      modifies mBase
      ensures mBase.mLog == old(mBase.mLog) + path
      ensures IsScript(A, B, path, aOfs, bOfs, aOfs + aLen, bOfs + bLen)
      ensures Most(A, B, aOfs, aLen, bOfs, bLen) <= Joined(path)
      ensures TailRun(A, B, aOfs, aLen, bOfs, bLen) <= Joined(path)
      decreases aLen + bLen, 0, 2
    {
      var matchTailLength := ReduceTail(aOfs, aLen, bOfs, bLen);
      var aLeft, bLeft := aLen - matchTailLength, bLen - matchTailLength;
      TailRunIs(A, B, aOfs, aLen, bOfs, bLen, matchTailLength);
      var middle := DiffMiddle(aOfs, aLeft, bOfs, bLeft);
      var tail := mBase.EmitDiagonal(aOfs + aLeft, bOfs + bLeft, matchTailLength);
      JoinTail(A, B, aOfs, aLen, bOfs, bLen, aLeft, bLeft, matchTailLength, middle, tail);
      path := middle + tail;
    }

    /** The part between trimmed head and tail, whose first lines differ. */
    method DiffMiddle(aOfs: int, aLen: int, bOfs: int, bLen: int) returns (ghost path: seq<Entry>)
      requires Valid()
      requires 0 <= aOfs && 0 <= aLen && aOfs + aLen <= |A| && 0 <= bOfs && 0 <= bLen && bOfs + bLen <= |B|
      requires aOfs < |A| && bOfs < |B| && A[aOfs] != B[bOfs]
      modifies mBase
      ensures mBase.mLog == old(mBase.mLog) + path
      ensures IsScript(A, B, path, aOfs, bOfs, aOfs + aLen, bOfs + bLen)
      ensures Most(A, B, aOfs, aLen, bOfs, bLen) <= Joined(path)
      decreases aLen + bLen, 0, 1
    {
      var shared := CollectShared(aOfs, aLen, bOfs, bLen);
      if |shared| > 0 {
        if |shared| == 1 && aLen == 1 && bLen == 1 {
          // The source joins the two lines and returns here, which would skip the trimmed tail.
          EarlyReturnUnreachable(A, B, aOfs, bOfs, shared);
          assert false;
        }
        var anchors := PickAnchors(A, B, aOfs, aLen, bOfs, bLen, shared);
        path := DiffAnchored(aOfs, aLen, bOfs, bLen, anchors);
      } else {
        NoneShared(A, B, aOfs, aLen, bOfs, bLen, shared);
        path := mBase.MyersDiff(aOfs, aLen, bOfs, bLen);
      }
    }

    /** Joins the anchors of the longest chain and diffs the gaps around them. */
    method DiffAnchored(aOfs: int, aLen: int, bOfs: int, bLen: int, anchors: seq<(int, int)>)
      returns (ghost path: seq<Entry>)
      requires Valid()
      requires 0 <= aOfs && 0 <= aLen && aOfs + aLen <= |A| && 0 <= bOfs && 0 <= bLen && bOfs + bLen <= |B|
      requires anchors != [] && Anchors(A, B, aOfs, aLen, bOfs, bLen, anchors)
      modifies mBase
      ensures mBase.mLog == old(mBase.mLog) + path
      ensures IsScript(A, B, path, aOfs, bOfs, aOfs + aLen, bOfs + bLen)
      ensures Joined(path) >= |anchors| && forall i | 0 <= i < |anchors| :: Joins(path, anchors[i])
      decreases aLen + bLen, 0, 0
    {
      path := [];
      var curA, curB := aOfs, bOfs;
      for i := 0 to |anchors|
        invariant aOfs <= curA <= aOfs + aLen && bOfs <= curB <= bOfs + bLen && (i > 0 ==> aOfs < curA)
        invariant i > 0 ==> curA == anchors[i - 1].0 + 1 && curB == anchors[i - 1].1 + 1
        invariant i == 0 ==> curA == aOfs && curB == bOfs
        invariant mBase.mLog == old(mBase.mLog) + path && IsScript(A, B, path, aOfs, bOfs, curA, curB)
        invariant Joined(path) >= i && forall j | 0 <= j < i :: Joins(path, anchors[j])
      {
        var (x, y) := anchors[i];
        assert SharedUnique(A, B, aOfs, aLen, bOfs, bLen, x, y);
        var part := DiffToAnchor(curA, x - curA, curB, y - curB);
        ScriptConcat(A, B, path, part, aOfs, bOfs, curA, curB, x + 1, y + 1);
        JoinedConcat(path, part);
        path := path + part;
        curA, curB := x + 1, y + 1;
      }
      var rest := PatienceDiff(curA, aOfs + aLen - curA, curB, bOfs + bLen - curB);
      ScriptConcat(A, B, path, rest, aOfs, bOfs, curA, curB, aOfs + aLen, bOfs + bLen);
      JoinedConcat(path, rest);
      path := path + rest;
    }

    /** Diffs the gap before an anchor and joins the anchor. */
    method DiffToAnchor(aOfs: int, aLen: int, bOfs: int, bLen: int) returns (ghost path: seq<Entry>)
      requires Valid()
      requires 0 <= aOfs && 0 <= aLen && aOfs + aLen < |A| && 0 <= bOfs && 0 <= bLen && bOfs + bLen < |B|
      requires A[aOfs + aLen] == B[bOfs + bLen]
      modifies mBase
      ensures mBase.mLog == old(mBase.mLog) + path
      ensures IsScript(A, B, path, aOfs, bOfs, aOfs + aLen + 1, bOfs + bLen + 1)
      ensures Joined(path) > 0 && Joins(path, (aOfs + aLen, bOfs + bLen))
      ensures Joined(path) > Ends(A, B, aOfs, aLen, bOfs, bLen)
      decreases aLen + bLen, 2
    {
      path := PatienceDiff(aOfs, aLen, bOfs, bLen);
      mBase.EmitEntryEqual(aOfs + aLen, bOfs + bLen);
      ScriptEqual(A, B, path, aOfs, bOfs, aOfs + aLen, bOfs + bLen);
      JoinedOne(path, Equal(aOfs + aLen, bOfs + bLen));
      path := path + [Equal(aOfs + aLen, bOfs + bLen)];
    }
  }
}
