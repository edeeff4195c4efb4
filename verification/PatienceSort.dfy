/** The patience sort that picks the anchors of a patience diff. */
module PatienceSort {

  /** A line that occurs once in each range; mPrevStackTop is the index of another mapping, or -1 for NULL. */
  datatype LineMapping = LineMapping(mAIdx: int, mBIdx: int, mPrevStackTop: int)

  ghost predicate Distinct(bs: seq<int>) {
    forall i, j | 0 <= i < j < |bs| :: bs[i] != bs[j]
  }

  /** `c` picks positions of `bs` left to right at which the values rise. */
  ghost predicate IncreasingChain(bs: seq<int>, c: seq<int>) {
    && (forall i | 0 <= i < |c| :: 0 <= c[i] < |bs|)
    && (forall i, j | 0 <= i < j < |c| :: c[i] < c[j] && bs[c[i]] < bs[c[j]])
  }

  /** The stacks after dealing the first |pile| values of `bs`: `pile[i]` is the stack that received position i. */
  ghost predicate StacksOk(bs: seq<int>, prev: seq<int>, tops: seq<int>, pile: seq<nat>) {
    && |pile| <= |bs| == |prev|
    && TopsOk(bs, tops, pile)
    && BelowTops(bs, tops, pile)
    && LinksOk(bs, prev, pile)
    && Climbing(bs, pile)
  }

  /** Every stack's top was dealt to it, and the tops rise from left to right. */
  ghost predicate TopsOk(bs: seq<int>, tops: seq<int>, pile: seq<nat>)
    requires |pile| <= |bs|
  {
    && (forall s | 0 <= s < |tops| :: 0 <= tops[s] < |pile| && pile[tops[s]] == s)
    && (forall s, t | 0 <= s < t < |tops| :: bs[tops[s]] < bs[tops[t]])
  }

  /** A stack's top is the smallest value on it. */
  ghost predicate BelowTops(bs: seq<int>, tops: seq<int>, pile: seq<nat>)
    requires |pile| <= |bs|
  {
    forall i | 0 <= i < |pile| :: pile[i] < |tops| && 0 <= tops[pile[i]] < |pile| && bs[tops[pile[i]]] <= bs[i]
  }

  ghost predicate LinksOk(bs: seq<int>, prev: seq<int>, pile: seq<nat>)
    requires |pile| <= |bs| == |prev|
  {
    forall i | 0 <= i < |pile| :: LinkOk(bs, prev, pile, i)
  }

  /** Position i links to an earlier, smaller value on the stack to the left, if there is one. */
  ghost predicate LinkOk(bs: seq<int>, prev: seq<int>, pile: seq<nat>, i: int)
    requires |pile| <= |bs| == |prev| && 0 <= i < |pile|
  {
    if pile[i] == 0 then prev[i] == -1
    else 0 <= prev[i] < i && pile[prev[i]] == pile[i] - 1 && bs[prev[i]] < bs[i]
  }

  /** A later, larger value lies further right. */
  ghost predicate Climbing(bs: seq<int>, pile: seq<nat>)
    requires |pile| <= |bs|
  {
    forall i, j | 0 <= i < j < |pile| :: bs[i] < bs[j] ==> pile[i] < pile[j]
  }

  /** Stack s is the first whose top exceeds the next value, or a new one. */
  ghost predicate FirstAbove(bs: seq<int>, tops: seq<int>, pile: seq<nat>, s: int)
    requires |pile| < |bs| && forall t | 0 <= t < |tops| :: 0 <= tops[t] < |pile|
  {
    && 0 <= s <= |tops|
    && (forall t | 0 <= t < s :: bs[tops[t]] < bs[|pile|])
    && (s < |tops| ==> bs[|pile|] < bs[tops[s]])
  }

  function Place(tops: seq<int>, s: int, n: int): seq<int>
    requires 0 <= s <= |tops|
  {
    if s == |tops| then tops + [n] else tops[s := n]
  }

  lemma DealTops(bs: seq<int>, tops: seq<int>, pile: seq<nat>, s: nat)
    requires |pile| < |bs| && TopsOk(bs, tops, pile) && FirstAbove(bs, tops, pile, s)
    ensures TopsOk(bs, Place(tops, s, |pile|), pile + [s])
  {
    var tops' := Place(tops, s, |pile|);
    forall t, u | 0 <= t < u < |tops'| ensures bs[tops'[t]] < bs[tops'[u]] {
      if t == s {
        assert bs[tops[s]] < bs[tops[u]];
      }
    }
  }

  lemma DealBelow(bs: seq<int>, tops: seq<int>, pile: seq<nat>, s: nat)
    requires |pile| < |bs| && TopsOk(bs, tops, pile) && BelowTops(bs, tops, pile) && FirstAbove(bs, tops, pile, s)
    ensures BelowTops(bs, Place(tops, s, |pile|), pile + [s])
  {
    var tops', pile' := Place(tops, s, |pile|), pile + [s];
    forall i | 0 <= i < |pile'|
      ensures pile'[i] < |tops'| && 0 <= tops'[pile'[i]] < |pile'| && bs[tops'[pile'[i]]] <= bs[i]
    {
      if i < |pile| && pile[i] != s {
        assert tops'[pile[i]] == tops[pile[i]];
      }
    }
  }

  lemma DealLinks(bs: seq<int>, prev: seq<int>, tops: seq<int>, pile: seq<nat>, s: nat)
    requires |pile| < |bs| == |prev| && TopsOk(bs, tops, pile) && FirstAbove(bs, tops, pile, s)
    requires LinksOk(bs, prev, pile)
    ensures LinksOk(bs, prev[|pile| := if s == 0 then -1 else tops[s - 1]], pile + [s])
  {
    var prev', pile' := prev[|pile| := if s == 0 then -1 else tops[s - 1]], pile + [s];
    forall i | 0 <= i < |pile'| ensures LinkOk(bs, prev', pile', i) {
      if i < |pile| {
        assert LinkOk(bs, prev, pile, i);
      }
    }
  }

  lemma DealClimbs(bs: seq<int>, tops: seq<int>, pile: seq<nat>, s: nat)
    requires |pile| < |bs| && TopsOk(bs, tops, pile) && BelowTops(bs, tops, pile) && FirstAbove(bs, tops, pile, s)
    requires Climbing(bs, pile)
    ensures Climbing(bs, pile + [s])
  {
    assert forall t | s <= t < |tops| :: bs[|pile|] < bs[tops[t]];
    forall i | 0 <= i < |pile| && bs[i] < bs[|pile|] ensures pile[i] < s {
    }
  }

  /** Dealing the next value onto the first stack whose top exceeds it, or onto a new one. */
  lemma Deal(bs: seq<int>, prev: seq<int>, tops: seq<int>, pile: seq<nat>, s: nat)
    requires StacksOk(bs, prev, tops, pile) && |pile| < |bs| && FirstAbove(bs, tops, pile, s)
    ensures StacksOk(bs, prev[|pile| := if s == 0 then -1 else tops[s - 1]], Place(tops, s, |pile|), pile + [s])
  {
    DealTops(bs, tops, pile, s);
    DealBelow(bs, tops, pile, s);
    DealLinks(bs, prev, tops, pile, s);
    DealClimbs(bs, tops, pile, s);
  }

  /** Along an increasing chain the stack numbers rise, so no chain is longer than the number of stacks. */
  lemma {:induction false} ChainClimbs(bs: seq<int>, prev: seq<int>, tops: seq<int>, pile: seq<nat>, c: seq<int>, i: nat)
    requires StacksOk(bs, prev, tops, pile) && |pile| == |bs| && IncreasingChain(bs, c) && i < |c|
    ensures pile[c[i]] >= i
  {
    if i > 0 {
      ChainClimbs(bs, prev, tops, pile, c, i - 1);
      assert c[i - 1] < c[i] && bs[c[i - 1]] < bs[c[i]];
    }
  }

  lemma NoLongerChain(bs: seq<int>, prev: seq<int>, tops: seq<int>, pile: seq<nat>, c: seq<int>)
    requires StacksOk(bs, prev, tops, pile) && |pile| == |bs| && IncreasingChain(bs, c)
    ensures |c| <= |tops|
  {
    if |c| > 0 {
      ChainClimbs(bs, prev, tops, pile, c, |c| - 1);
    }
  }

  lemma ChainPrepend(bs: seq<int>, x: int, c: seq<int>)
    requires IncreasingChain(bs, c) && 0 <= x < |bs|
    requires c != [] ==> x < c[0] && bs[x] < bs[c[0]]
    ensures IncreasingChain(bs, [x] + c)
  {
    forall i | 0 <= i < |c| ensures x < c[i] && bs[x] < bs[c[i]] {
      if i > 0 {
        assert c[0] < c[i] && bs[c[0]] < bs[c[i]];
      }
    }
  }

  function BIndices(ms: seq<LineMapping>): seq<int> {
    seq(|ms|, i requires 0 <= i < |ms| => ms[i].mBIdx)
  }

  function PrevTops(ms: seq<LineMapping>): seq<int> {
    seq(|ms|, i requires 0 <= i < |ms| => ms[i].mPrevStackTop)
  }

  ghost predicate SameLines(ms: seq<LineMapping>, ms': seq<LineMapping>) {
    |ms| == |ms'| && forall i | 0 <= i < |ms| :: ms[i].mAIdx == ms'[i].mAIdx && ms[i].mBIdx == ms'[i].mBIdx
  }

  /** The first stack whose top exceeds `newBIdx`. */
  method FindStack(ms: array<LineMapping>, sortStacks: seq<int>, newBIdx: int) returns (found: bool, stackIdx: nat)
    requires forall s | 0 <= s < |sortStacks| :: 0 <= sortStacks[s] < ms.Length
    ensures stackIdx <= |sortStacks| && found == (stackIdx < |sortStacks|)
    ensures forall t | 0 <= t < stackIdx :: ms[sortStacks[t]].mBIdx <= newBIdx
    ensures found ==> newBIdx < ms[sortStacks[stackIdx]].mBIdx
  {
    stackIdx := 0;
    found := false;
    while stackIdx < |sortStacks|
      invariant 0 <= stackIdx <= |sortStacks|
      invariant forall t | 0 <= t < stackIdx :: ms[sortStacks[t]].mBIdx <= newBIdx
    {
      if newBIdx < ms[sortStacks[stackIdx]].mBIdx {
        found := true;
        return;
      }
      stackIdx := stackIdx + 1;
    }
  }

  /** Deals one mapping, linking it to the top of the stack on its left. */
  method DealOne(ms: array<LineMapping>, sortStacks: seq<int>, mappingIdx: nat, ghost bs: seq<int>, ghost pile: seq<nat>)
    returns (newStacks: seq<int>, ghost newPile: seq<nat>)
    requires mappingIdx == |pile| < ms.Length && bs == BIndices(ms[..]) && Distinct(bs)
    requires StacksOk(bs, PrevTops(ms[..]), sortStacks, pile)
    requires ms[mappingIdx].mPrevStackTop == -1
    modifies ms
    ensures SameLines(old(ms[..]), ms[..])
    ensures forall i | 0 <= i < ms.Length && i != mappingIdx :: ms[i] == old(ms[i])
    ensures |newPile| == mappingIdx + 1 && StacksOk(bs, PrevTops(ms[..]), newStacks, newPile)
  {
    var newBIdx := ms[mappingIdx].mBIdx;
    var found, stackIdx := FindStack(ms, sortStacks, newBIdx);
    assert FirstAbove(bs, sortStacks, pile, stackIdx) by {
      forall t | 0 <= t < stackIdx ensures bs[sortStacks[t]] < bs[mappingIdx] {
        assert bs[sortStacks[t]] == ms[sortStacks[t]].mBIdx;
      }
    }
    Deal(bs, PrevTops(ms[..]), sortStacks, pile, stackIdx);
    ghost var prev := PrevTops(ms[..])[mappingIdx := if stackIdx == 0 then -1 else sortStacks[stackIdx - 1]];
    newStacks, newPile := sortStacks, pile + [stackIdx];
    if found {
      newStacks := newStacks[stackIdx := mappingIdx];
      if stackIdx > 0 {
        ms[mappingIdx] := ms[mappingIdx].(mPrevStackTop := sortStacks[stackIdx - 1]);
      }
    } else {
      if |sortStacks| != 0 {
        ms[mappingIdx] := ms[mappingIdx].(mPrevStackTop := sortStacks[|sortStacks| - 1]);
      }
      newStacks := newStacks + [mappingIdx];
    }
    assert PrevTops(ms[..]) == prev;
  }

  lemma SameBIndices(ms: seq<LineMapping>, ms': seq<LineMapping>)
    requires SameLines(ms, ms')
    ensures BIndices(ms) == BIndices(ms')
  {
  }

  /** Deals all the mappings onto stacks. */
  method DealStacks(ms: array<LineMapping>) returns (sortStacks: seq<int>, ghost pile: seq<nat>)
    requires Distinct(BIndices(ms[..]))
    requires forall i | 0 <= i < ms.Length :: ms[i].mPrevStackTop == -1
    modifies ms
    ensures SameLines(old(ms[..]), ms[..])
    ensures |pile| == ms.Length && StacksOk(BIndices(ms[..]), PrevTops(ms[..]), sortStacks, pile)
  {
    sortStacks := [];
    pile := [];
    ghost var bs := BIndices(ms[..]);
    for mappingIdx := 0 to ms.Length
      invariant |pile| == mappingIdx && SameLines(old(ms[..]), ms[..])
      invariant StacksOk(bs, PrevTops(ms[..]), sortStacks, pile)
      invariant forall i | mappingIdx <= i < ms.Length :: ms[i].mPrevStackTop == -1
    {
      SameBIndices(old(ms[..]), ms[..]);
      sortStacks, pile := DealOne(ms, sortStacks, mappingIdx, bs, pile);
    }
    SameBIndices(old(ms[..]), ms[..]);
  }

  /** Reads the longest increasing chain off the stacks, from the last top back along the links. */
  method WalkBack(ms: array<LineMapping>, sortStacks: seq<int>, ghost pile: seq<nat>)
    returns (sorted: array<int>, curSortedIdx: int)
    requires |sortStacks| > 0 && |pile| == ms.Length
    requires StacksOk(BIndices(ms[..]), PrevTops(ms[..]), sortStacks, pile)
    ensures fresh(sorted) && sorted.Length == |sortStacks|
    ensures IncreasingChain(BIndices(ms[..]), sorted[..]) && curSortedIdx == -1
    ensures forall i | 0 <= i < sorted.Length :: OnStack(pile, sorted[i], i)
  {
    ghost var bs, prev := BIndices(ms[..]), PrevTops(ms[..]);
    sorted := new int[|sortStacks|];
    curSortedIdx := sorted.Length - 1;
    var check := sortStacks[|sortStacks| - 1];
    ghost var c: seq<int> := [];
    while check != -1
      invariant -1 <= curSortedIdx < sorted.Length
      invariant if check == -1 then curSortedIdx == -1 else 0 <= check < |bs| && pile[check] == curSortedIdx
      invariant sorted[curSortedIdx + 1..] == c && IncreasingChain(bs, c)
      invariant forall i | curSortedIdx < i < sorted.Length :: OnStack(pile, sorted[i], i)
      invariant check != -1 && c != [] ==> check < c[0] && bs[check] < bs[c[0]]
      decreases curSortedIdx
    {
      assert LinkOk(bs, prev, pile, check);
      ChainPrepend(bs, check, c);
      ghost var behind := sorted[curSortedIdx + 1..];
      sorted[curSortedIdx] := check;
      assert sorted[curSortedIdx..] == [check] + behind;
      c := [check] + c;
      check := ms[check].mPrevStackTop;
      curSortedIdx := curSortedIdx - 1;
    }
  }

  /** Position c was dealt to stack s. */
  ghost predicate OnStack(pile: seq<nat>, c: int, s: int) {
    0 <= c < |pile| && pile[c] == s
  }

  /** The anchors: as long an increasing chain as there is. */
  method LongestChain(ms: array<LineMapping>) returns (sorted: array<int>)
    requires ms.Length > 0 && Distinct(BIndices(ms[..]))
    requires forall i | 0 <= i < ms.Length :: ms[i].mPrevStackTop == -1
    modifies ms
    ensures fresh(sorted) && SameLines(old(ms[..]), ms[..])
    ensures IncreasingChain(BIndices(ms[..]), sorted[..])
    ensures forall c | IncreasingChain(BIndices(ms[..]), c) :: |c| <= sorted.Length
  {
    var sortStacks, pile := DealStacks(ms);
    ghost var bs, prev := BIndices(ms[..]), PrevTops(ms[..]);
    assert |sortStacks| > 0 by {
      assert pile[0] < |sortStacks|;
    }
    var curSortedIdx;
    sorted, curSortedIdx := WalkBack(ms, sortStacks, pile);
    forall c | IncreasingChain(bs, c) ensures |c| <= sorted.Length {
      NoLongerChain(bs, prev, sortStacks, pile, c);
    }
  }
}
