/** Numbers as five-bit groups, low group first, bit 5 set on every group but the last. */
module Groups {
  import opened Bits

  type Group = d: nat | d < 64

  function GroupsOf(v: nat): seq<Group> {
    if v < 32 then [v] else [v % 32 + 32] + GroupsOf(v / 32)
  }

  // Past the end of a text comes its zero terminator.
  function GroupAt(g: seq<Group>, p: nat): Group {
    if p < |g| then g[p] else 0
  }

  // Where the number at p ends: after its first group without bit 5.
  function End(g: seq<Group>, p: nat): (e: nat)
    requires p <= |g|
    ensures p < e <= |g| + 1
    decreases |g| - p
  {
    if p < |g| && g[p] >= 32 then End(g, p + 1) else p + 1
  }

  // The number that stands at p.
  function Decoded(g: seq<Group>, p: nat): nat
    requires p <= |g|
    decreases |g| - p
  {
    if p < |g| && g[p] >= 32 then g[p] - 32 + 32 * Decoded(g, p + 1) else GroupAt(g, p)
  }

  // The groups of v stand at p, whatever comes before and after.
  predicate GroupsAt(g: seq<Group>, p: nat, v: nat) {
    p + |GroupsOf(v)| <= |g| && g[p..p + |GroupsOf(v)|] == GroupsOf(v)
  }

  lemma {:induction false} GroupsAtNext(g: seq<Group>, p: nat, v: nat)
    requires GroupsAt(g, p, v)
    ensures p < |g|
    ensures v < 32 ==> g[p] == v
    ensures v >= 32 ==> g[p] == v % 32 + 32 && GroupsAt(g, p + 1, v / 32)
  {
    var e := GroupsOf(v);
    assert g[p] == g[p..p + |e|][0] == e[0];
    if v >= 32 {
      assert g[p + 1..p + |e|] == g[p..p + |e|][1..] == GroupsOf(v / 32);
    }
  }

  // Reading what was written gives the number back and stops right behind it.
  lemma {:induction false} GroupsRoundTrip(g: seq<Group>, p: nat, v: nat)
    requires GroupsAt(g, p, v)
    ensures Decoded(g, p) == v && End(g, p) == p + |GroupsOf(v)|
    decreases v
  {
    GroupsAtNext(g, p, v);
    if v >= 32 { GroupsRoundTrip(g, p + 1, v / 32); }
  }

  lemma Pow2Plus5(k: nat)
    ensures Pow2(k + 5) == 32 * Pow2(k)
  {
    assert Pow2(k + 5) == 2 * Pow2(k + 4) == 4 * Pow2(k + 3) == 8 * Pow2(k + 2) == 16 * Pow2(k + 1);
  }

  // A number has at most k groups exactly when it has at most 5k bits.
  lemma {:induction false} GroupCount(v: nat, k: nat)
    requires k > 0
    ensures |GroupsOf(v)| >= 1
    ensures |GroupsOf(v)| <= k <==> v < Pow2(5 * k)
    decreases k
  {
    Pow2Plus5(5 * k - 5);
    if k == 1 {
      assert v >= 32 ==> |GroupsOf(v / 32)| >= 1;
    } else {
      GroupCount(v / 32, k - 1);
      assert 5 * (k - 1) == 5 * k - 5;
    }
  }

  // No needless zero group at the end.
  predicate Minimal(g: seq<Group>, p: nat)
    requires p <= |g|
  {
    var e := End(g, p);
    e <= |g| && (e == p + 1 || g[e - 1] != 0)
  }

  // Writing what was read gives the groups back exactly when they were minimal.
  lemma {:induction false} GroupsAgain(g: seq<Group>, p: nat)
    requires p <= |g|
    ensures GroupsAt(g, p, Decoded(g, p)) <==> Minimal(g, p)
    decreases |g| - p
  {
    var v := Decoded(g, p);
    if GroupsAt(g, p, v) { GroupsMinimal(g, p, v); }
    if Minimal(g, p) { MinimalGroups(g, p); }
  }

  lemma {:induction false} GroupsMinimal(g: seq<Group>, p: nat, v: nat)
    requires GroupsAt(g, p, v)
    ensures p <= |g| && Minimal(g, p)
    ensures v > 0 ==> g[End(g, p) - 1] != 0
    decreases v
  {
    GroupsAtNext(g, p, v);
    if v >= 32 { GroupsMinimal(g, p + 1, v / 32); }
  }

  lemma {:induction false} MinimalGroups(g: seq<Group>, p: nat)
    requires p <= |g| && Minimal(g, p)
    ensures GroupsAt(g, p, Decoded(g, p))
    ensures g[End(g, p) - 1] != 0 ==> Decoded(g, p) != 0
    decreases |g| - p
  {
    var v := Decoded(g, p);
    if g[p] >= 32 {
      MinimalGroups(g, p + 1);
      assert v / 32 == Decoded(g, p + 1) && v >= 32;
      assert g[p..p + |GroupsOf(v)|] == [g[p]] + g[p + 1..p + |GroupsOf(v)|];
    } else {
      assert g[p..p + 1] == [v];
    }
  }

  function AllGroups(vs: seq<nat>): seq<Group> {
    if vs == [] then [] else GroupsOf(vs[0]) + AllGroups(vs[1..])
  }

  // n numbers read one after the other from p, and where the reading stops.
  function DecodeAll(g: seq<Group>, p: nat, n: nat): (seq<nat>, nat)
    requires p <= |g|
    decreases n
  {
    if n == 0 then ([], p)
    else if End(g, p) > |g| then ([Decoded(g, p)], End(g, p))
    else
      var (vs, e) := DecodeAll(g, End(g, p), n - 1);
      ([Decoded(g, p)] + vs, e)
  }

  // The groups of all the numbers stand at p.
  predicate AllStand(g: seq<Group>, p: nat, vs: seq<nat>) {
    p + |AllGroups(vs)| <= |g| && g[p..p + |AllGroups(vs)|] == AllGroups(vs)
  }

  lemma {:induction false} AllGroupsRoundTrip(g: seq<Group>, p: nat, vs: seq<nat>)
    requires AllStand(g, p, vs)
    ensures DecodeAll(g, p, |vs|) == (vs, p + |AllGroups(vs)|)
    decreases |vs|
  {
    if vs == [] {
      assert DecodeAll(g, p, 0) == ([], p);
    } else {
      var here, rest := GroupsOf(vs[0]), AllGroups(vs[1..]);
      var e := p + |here|;
      assert g[p..e] == (here + rest)[..|here|] == here;
      assert g[e..e + |rest|] == (here + rest)[|here|..] == rest;
      GroupsRoundTrip(g, p, vs[0]);
      AllGroupsRoundTrip(g, e, vs[1..]);
      assert [vs[0]] + vs[1..] == vs;
    }
  }

  // Bit tricks as arithmetic.
  lemma Shl5(w: nat)
    ensures Shl(w, 5) == 32 * w
  {
    assert Shl(w, 5) == 2 * Shl(w, 4) == 4 * Shl(w, 3) == 8 * Shl(w, 2) == 16 * Shl(w, 1);
    assert Shl(w, 1) == 2 * Shl(w, 0);
  }

  lemma Shr5(v: nat)
    ensures Shr(v, 5) == v / 32
  {
    assert Shr(v, 5) == Shr(v / 2, 4) == Shr(v / 4, 3) == Shr(v / 8, 2) == Shr(v / 16, 1) == Shr(v / 32, 0);
  }

  lemma LowFive(v: nat)
    ensures And(v, 0x1f) == v % 32 && Shr(v, 5) == v / 32
  {
    Shr5(v);
    Shl5(v / 32);
    Pow2Plus5(0);
    assert Pow2(0) == 1;
    LowAndRest(v, 5);
  }

  lemma BitFive(v: nat)
    requires v < 64
    ensures v < 32 ==> Or(v, 0x20) == v + 32
    ensures And(v, 0x20) == if v < 32 then 0 else 0x20
  {
    AndZero(v / 64);
    assert And(v / 32, 1) == v / 32;
    assert And(v / 16, 2) == 2 * (v / 32);
    assert And(v / 8, 4) == 4 * (v / 32);
    assert And(v / 4, 8) == 8 * (v / 32);
    assert And(v / 2, 16) == 16 * (v / 32);
    if v < 32 {
      assert Or(0, 1) == 1;
      assert Or(v / 16, 2) == v / 16 + 2;
      assert Or(v / 8, 4) == v / 8 + 4;
      assert Or(v / 4, 8) == v / 4 + 8;
      assert Or(v / 2, 16) == v / 2 + 16;
    }
  }

  lemma {:induction false} ShlGroup(d: nat, rest: nat, k: nat)
    ensures Shl(d + 32 * rest, k) == Shl(d, k) + Shl(rest, k + 5)
  {
    if k == 0 {
      Shl5(rest);
    } else {
      ShlGroup(d, rest, k - 1);
    }
  }

  // ----- what fits 64 bits -----

  // The last group decides how large the number is.
  lemma {:induction false} LastGroupBounds(g: seq<Group>, p: nat)
    requires p <= |g|
    ensures var n, last := End(g, p) - p, GroupAt(g, End(g, p) - 1);
            last < 32 && Shl(last, 5 * (n - 1)) <= Decoded(g, p) < Shl(last + 1, 5 * (n - 1))
    decreases |g| - p
  {
    if p < |g| && g[p] >= 32 {
      LastGroupBounds(g, p + 1);
      var last, k: nat := GroupAt(g, End(g, p) - 1), 5 * (End(g, p) - p - 2);
      ShlPlus5(last, k);
      ShlPlus5(last + 1, k);
      assert 5 * (End(g, p) - p - 1) == k + 5;
    }
  }

  lemma ShlPlus5(w: nat, k: nat)
    ensures Shl(w, k + 5) == 32 * Shl(w, k)
  {
    assert Shl(w, k + 5) == 2 * Shl(w, k + 4) == 4 * Shl(w, k + 3) == 8 * Shl(w, k + 2) == 16 * Shl(w, k + 1);
  }

  // Thirteen groups have 65 bits: the number fits 64 when the last group has only four.
  lemma Fits64(g: seq<Group>, p: nat)
    requires p <= |g| && End(g, p) - p <= 13
    ensures Decoded(g, p) < U64 <==> (End(g, p) - p == 13 ==> GroupAt(g, p + 12) < 16)
  {
    var n, last := End(g, p) - p, GroupAt(g, End(g, p) - 1);
    LastGroupBounds(g, p);
    U64IsPow2();
    assert Pow2(64) == 2 * Pow2(63) == 4 * Pow2(62) == 8 * Pow2(61) == 16 * Pow2(60);
    ShlIsProduct(last, 5 * (n - 1));
    ShlIsProduct(last + 1, 5 * (n - 1));
    if n == 13 {
      Times60(last, Pow2(60));
    } else {
      AtMost32(last + 1, Pow2(5 * (n - 1)));
      if n < 12 { Pow2Rises(5 * (n - 1), 55); }
      assert Pow2(60) == 2 * Pow2(59) == 4 * Pow2(58) == 8 * Pow2(57) == 16 * Pow2(56) == 32 * Pow2(55);
    }
  }

  lemma Times60(last: nat, x: nat)
    requires x > 0
    ensures last < 16 ==> (last + 1) * x <= 16 * x
    ensures last >= 16 ==> last * x >= 16 * x
  {
  }

  lemma AtMost32(w: nat, x: nat)
    requires w <= 32
    ensures w * x <= 32 * x
  {
  }
}
