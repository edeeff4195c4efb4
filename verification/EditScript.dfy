/** Edit scripts: what a diff engine reports through its EmitEntry* calls, and what such a report means. */
module EditScript {

  /** One call of EmitEntryEqual, EmitEntryDelete or EmitEntryInsert. */
  datatype Entry = Equal(a: int, b: int) | Delete(a: int) | Insert(a: int, b: int)

  /** `p` walks from (a0, b0) to (a1, b1) by unit steps; every Equal step joins equal elements. */
  ghost predicate IsScript<T>(A: seq<T>, B: seq<T>, p: seq<Entry>, a0: int, b0: int, a1: int, b1: int) {
    if p == [] then
      a0 == a1 && b0 == b1
    else
      match p[0]
      case Equal(a, b) =>
        a == a0 && b == b0 && 0 <= a < |A| && 0 <= b < |B| && A[a] == B[b] &&
        IsScript(A, B, p[1..], a0 + 1, b0 + 1, a1, b1)
      case Delete(a) =>
        a == a0 && IsScript(A, B, p[1..], a0 + 1, b0, a1, b1)
      case Insert(a, b) =>
        a == a0 && b == b0 && IsScript(A, B, p[1..], a0, b0 + 1, a1, b1)
  }

  lemma {:induction false} ScriptConcat<T>(A: seq<T>, B: seq<T>, p: seq<Entry>, q: seq<Entry>,
                                           a0: int, b0: int, a1: int, b1: int, a2: int, b2: int)
    requires IsScript(A, B, p, a0, b0, a1, b1)
    requires IsScript(A, B, q, a1, b1, a2, b2)
    ensures IsScript(A, B, p + q, a0, b0, a2, b2)
  {
    if p == [] {
      assert p + q == q;
    } else {
      assert (p + q)[1..] == p[1..] + q;
      match p[0]
      case Equal(_, _) => ScriptConcat(A, B, p[1..], q, a0 + 1, b0 + 1, a1, b1, a2, b2);
      case Delete(_) => ScriptConcat(A, B, p[1..], q, a0 + 1, b0, a1, b1, a2, b2);
      case Insert(_, _) => ScriptConcat(A, B, p[1..], q, a0, b0 + 1, a1, b1, a2, b2);
    }
  }

  lemma ScriptConcat3<T>(A: seq<T>, B: seq<T>, p: seq<Entry>, q: seq<Entry>, r: seq<Entry>,
                         a0: int, b0: int, a1: int, b1: int, a2: int, b2: int, a3: int, b3: int)
    requires IsScript(A, B, p, a0, b0, a1, b1)
    requires IsScript(A, B, q, a1, b1, a2, b2)
    requires IsScript(A, B, r, a2, b2, a3, b3)
    ensures IsScript(A, B, p + q + r, a0, b0, a3, b3)
  {
    ScriptConcat(A, B, p, q, a0, b0, a1, b1, a2, b2);
    ScriptConcat(A, B, p + q, r, a0, b0, a2, b2, a3, b3);
  }

  lemma ScriptEqual<T>(A: seq<T>, B: seq<T>, p: seq<Entry>, a0: int, b0: int, a: int, b: int)
    requires IsScript(A, B, p, a0, b0, a, b)
    requires 0 <= a < |A| && 0 <= b < |B| && A[a] == B[b]
    ensures IsScript(A, B, p + [Equal(a, b)], a0, b0, a + 1, b + 1)
  {
    assert IsScript(A, B, [Equal(a, b)], a, b, a + 1, b + 1);
    ScriptConcat(A, B, p, [Equal(a, b)], a0, b0, a, b, a + 1, b + 1);
  }

  lemma ScriptDelete<T>(A: seq<T>, B: seq<T>, p: seq<Entry>, a0: int, b0: int, a: int, b: int)
    requires IsScript(A, B, p, a0, b0, a, b)
    ensures IsScript(A, B, p + [Delete(a)], a0, b0, a + 1, b)
  {
    assert IsScript(A, B, [Delete(a)], a, b, a + 1, b);
    ScriptConcat(A, B, p, [Delete(a)], a0, b0, a, b, a + 1, b);
  }

  lemma ScriptInsert<T>(A: seq<T>, B: seq<T>, p: seq<Entry>, a0: int, b0: int, a: int, b: int)
    requires IsScript(A, B, p, a0, b0, a, b)
    ensures IsScript(A, B, p + [Insert(a, b)], a0, b0, a, b + 1)
  {
    assert IsScript(A, B, [Insert(a, b)], a, b, a, b + 1);
    ScriptConcat(A, B, p, [Insert(a, b)], a0, b0, a, b, a, b + 1);
  }

  /** The A indices a script keeps or deletes, in order. */
  function ConsumedA(p: seq<Entry>): seq<int> {
    if p == [] then []
    else (if p[0].Insert? then [] else [p[0].a]) + ConsumedA(p[1..])
  }

  /** The B indices a script keeps or inserts, in order. */
  function ProducedB(p: seq<Entry>): seq<int> {
    if p == [] then []
    else (if p[0].Delete? then [] else [p[0].b]) + ProducedB(p[1..])
  }

  function Range(lo: int, hi: int): (r: seq<int>)
    requires lo <= hi
    decreases hi - lo
  {
    if lo == hi then [] else [lo] + Range(lo + 1, hi)
  }

  /** Every A index of the range is kept or deleted once, every B index kept or inserted once, in order. */
  lemma {:induction false} ScriptCoversOnce<T>(A: seq<T>, B: seq<T>, p: seq<Entry>, a0: int, b0: int, a1: int, b1: int)
    requires IsScript(A, B, p, a0, b0, a1, b1)
    ensures a0 <= a1 && b0 <= b1
    ensures ConsumedA(p) == Range(a0, a1)
    ensures ProducedB(p) == Range(b0, b1)
  {
    if p != [] {
      match p[0]
      case Equal(_, _) => ScriptCoversOnce(A, B, p[1..], a0 + 1, b0 + 1, a1, b1);
      case Delete(_) => ScriptCoversOnce(A, B, p[1..], a0 + 1, b0, a1, b1);
      case Insert(_, _) => ScriptCoversOnce(A, B, p[1..], a0, b0 + 1, a1, b1);
    }
  }

  /** The first entry of a script, and where the rest goes on. */
  lemma ScriptStep<T>(A: seq<T>, B: seq<T>, p: seq<Entry>, a0: int, b0: int, a1: int, b1: int)
    requires IsScript(A, B, p, a0, b0, a1, b1) && p != []
    ensures a0 <= a1 && b0 <= b1
    ensures match p[0]
            case Equal(a, b) =>
              && a == a0 < a1 && b == b0 < b1 && 0 <= a < |A| && 0 <= b < |B| && A[a] == B[b]
              && IsScript(A, B, p[1..], a0 + 1, b0 + 1, a1, b1)
            case Delete(a) => a == a0 < a1 && IsScript(A, B, p[1..], a0 + 1, b0, a1, b1)
            case Insert(a, b) => a == a0 && b == b0 < b1 && IsScript(A, B, p[1..], a0, b0 + 1, a1, b1)
  {
    ScriptCoversOnce(A, B, p, a0, b0, a1, b1);
    match p[0]
    case Equal(_, _) => ScriptCoversOnce(A, B, p[1..], a0 + 1, b0 + 1, a1, b1);
    case Delete(_) => ScriptCoversOnce(A, B, p[1..], a0 + 1, b0, a1, b1);
    case Insert(_, _) => ScriptCoversOnce(A, B, p[1..], a0, b0 + 1, a1, b1);
  }

  /** What following the script yields when Equal keeps A's own element and Insert copies B's. */
  function Rebuild<T>(A: seq<T>, B: seq<T>, p: seq<Entry>): seq<T> {
    if p == [] then []
    else (match p[0]
          case Equal(a, _) => if 0 <= a < |A| then [A[a]] else []
          case Delete(_) => []
          case Insert(_, b) => if 0 <= b < |B| then [B[b]] else [])
         + Rebuild(A, B, p[1..])
  }

  /** A script over a range turns A's elements of that range into B's. */
  lemma {:induction false} ScriptRebuildsB<T>(A: seq<T>, B: seq<T>, p: seq<Entry>, a0: int, b0: int, a1: int, b1: int)
    requires IsScript(A, B, p, a0, b0, a1, b1)
    requires 0 <= b0 && b1 <= |B|
    ensures b0 <= b1 && Rebuild(A, B, p) == B[b0..b1]
  {
    ScriptCoversOnce(A, B, p, a0, b0, a1, b1);
    if p != [] {
      match p[0]
      case Equal(_, _) =>
        ScriptCoversOnce(A, B, p[1..], a0 + 1, b0 + 1, a1, b1);
        ScriptRebuildsB(A, B, p[1..], a0 + 1, b0 + 1, a1, b1);
        assert B[b0..b1] == [B[b0]] + B[b0 + 1..b1];
      case Delete(_) =>
        ScriptRebuildsB(A, B, p[1..], a0 + 1, b0, a1, b1);
      case Insert(_, _) =>
        ScriptCoversOnce(A, B, p[1..], a0, b0 + 1, a1, b1);
        ScriptRebuildsB(A, B, p[1..], a0, b0 + 1, a1, b1);
        assert B[b0..b1] == [B[b0]] + B[b0 + 1..b1];
    }
  }

  // ----- how much a script keeps -----

  /** The pairs a script joins. */
  function Joined(p: seq<Entry>): (n: nat)
    ensures n <= |p|
  {
    if p == [] then 0 else (if p[0].Equal? then 1 else 0) + Joined(p[1..])
  }

  lemma {:induction false} JoinedConcat(p: seq<Entry>, q: seq<Entry>)
    ensures Joined(p + q) == Joined(p) + Joined(q)
  {
    if p == [] {
      assert p + q == q;
    } else {
      assert (p + q)[1..] == p[1..] + q;
      JoinedConcat(p[1..], q);
    }
  }

  lemma JoinedOne(p: seq<Entry>, e: Entry)
    ensures Joined(p + [e]) == Joined(p) + if e.Equal? then 1 else 0
  {
    JoinedConcat(p, [e]);
    assert [e][1..] == [];
  }

  /** As many pairs as entries: no edit at all. */
  lemma {:induction false} OnlyPairs(p: seq<Entry>, i: nat)
    requires Joined(p) == |p| && i < |p|
    ensures p[i].Equal?
  {
    if i > 0 { OnlyPairs(p[1..], i - 1); }
  }
}
