/** The operations BfDiff_DiffText prints, and what applying them does. */
module EditOps {
  import opened EditCommands
  import opened Lines
  import opened Options

  /** "- pos len [line]" and "+ pos from len [line]"; line is -1 where the field is not printed. */
  datatype Op = DeleteText(pos: int, len: int, line: int) | InsertText(pos: int, from: int, len: int, line: int)

  /** Both texts with their lines. */
  datatype Texts = Texts(text1: string, text2: string, la: seq<LineData>, lb: seq<LineData>)

  // ----- applying operations -----

  /** An editor applies an operation only when all its positions exist. */
  function ApplyOp(cur: string, text2: string, op: Op): Option<string> {
    match op
    case DeleteText(pos, len, _) =>
      if 0 <= pos && 0 <= len && pos + len <= |cur| then Some(cur[..pos] + cur[pos + len..]) else None
    case InsertText(pos, from, len, _) =>
      if 0 <= pos <= |cur| && 0 <= from && 0 <= len && from + len <= |text2|
      then Some(cur[..pos] + text2[from..from + len] + cur[pos..]) else None
  }

  /** Applies operations in order. */
  function ApplyAll(cur: string, text2: string, ops: seq<Op>): Option<string> {
    if ops == [] then Some(cur)
    else Then(ApplyAll(cur, text2, ops[..|ops| - 1]), text2, ops[|ops| - 1])
  }

  function Then(cur: Option<string>, text2: string, op: Op): Option<string> {
    if cur == None then None else ApplyOp(cur.value, text2, op)
  }

  // ----- from commands to operations -----

  /** All the lines and characters a command names are there. */
  ghost predicate InRange(x: Texts, c: EditCommand) {
    WellFormed(c) &&
    match c.mCmd
    case InsertLine => 0 <= c.mAIdx <= |x.la| && 0 <= c.mBIdx && c.mBIdx + c.mCount <= |x.lb|
    case DeleteLine => 0 <= c.mAIdx && c.mAIdx + c.mCount <= |x.la|
    case InsertChar => 0 <= c.mAIdx <= |x.text1| && 0 <= c.mBIdx && c.mBIdx + c.mCount <= |x.text2|
    case DeleteChar => 0 <= c.mAIdx && c.mAIdx + c.mCount <= |x.text1|
  }

  ghost predicate AllInRange(x: Texts, cs: seq<EditCommand>) {
    forall i | 0 <= i < |cs| :: InRange(x, cs[i])
  }

  /** Where in text 1 a command acts. */
  function APos(x: Texts, c: EditCommand): int
    requires InRange(x, c)
  {
    if c.mCmd == InsertLine || c.mCmd == DeleteLine then LinePos(x.la, c.mAIdx) else c.mAIdx
  }

  /** How many characters of text 1 a command removes. */
  function ALen(x: Texts, c: EditCommand): int
    requires InRange(x, c)
  {
    match c.mCmd
    case DeleteLine => LinePos(x.la, c.mAIdx + c.mCount) - LinePos(x.la, c.mAIdx)
    case DeleteChar => c.mCount
    case InsertLine => 0
    case InsertChar => 0
  }

  /** Where in text 2 the characters come from that a command inserts. */
  function BPos(x: Texts, c: EditCommand): int
    requires InRange(x, c)
  {
    if c.mCmd == InsertLine then LinePos(x.lb, c.mBIdx) else c.mBIdx
  }

  /** How many characters of text 2 a command inserts. */
  function BLen(x: Texts, c: EditCommand): int
    requires InRange(x, c)
  {
    match c.mCmd
    case InsertLine => LinePos(x.lb, c.mBIdx + c.mCount) - LinePos(x.lb, c.mBIdx)
    case InsertChar => c.mCount
    case DeleteLine => 0
    case DeleteChar => 0
  }

  function OpFor(x: Texts, c: EditCommand, offset: int): Op
    requires InRange(x, c)
  {
    var line := if c.mCmd == InsertLine || c.mCmd == DeleteLine then c.mAIdx else -1;
    if IsInsert(c.mCmd) then InsertText(APos(x, c) + offset, BPos(x, c), BLen(x, c), line)
    else DeleteText(APos(x, c) + offset, ALen(x, c), line)
  }

  /** The shift of later text 1 positions after the commands. */
  function Offset(x: Texts, cs: seq<EditCommand>): int
    requires AllInRange(x, cs)
  {
    if cs == [] then 0
    else Offset(x, cs[..|cs| - 1]) + BLen(x, cs[|cs| - 1]) - ALen(x, cs[|cs| - 1])
  }

  /** The operations of a command list, each shifted by the offset of those before it. */
  function Ops(x: Texts, cs: seq<EditCommand>): seq<Op>
    requires AllInRange(x, cs)
  {
    if cs == [] then []
    else Ops(x, cs[..|cs| - 1]) + [OpFor(x, cs[|cs| - 1], Offset(x, cs[..|cs| - 1]))]
  }

  /** Operations on lines name the line of text 1 they are at, operations on characters none. */
  predicate NamesLine(c: EditCommand, op: Op) {
    op.line == match c.mCmd
               case InsertLine => c.mAIdx
               case DeleteLine => c.mAIdx
               case InsertChar => -1
               case DeleteChar => -1
  }

  /** One operation for each command, which inserts or deletes as the command does and names its line. */
  lemma {:induction false} OpsNameLines(x: Texts, cs: seq<EditCommand>, i: nat)
    requires AllInRange(x, cs) && i < |cs|
    ensures |Ops(x, cs)| == |cs|
    ensures Ops(x, cs)[i].InsertText? == IsInsert(cs[i].mCmd) && NamesLine(cs[i], Ops(x, cs)[i])
    decreases |cs|
  {
    var front := cs[..|cs| - 1];
    if i < |front| {
      OpsNameLines(x, front, i);
    } else if front != [] {
      OpsNameLines(x, front, 0);
    }
  }

  /** Text 1 after all the commands. */
  function Result(x: Texts, cs: seq<EditCommand>): Option<string>
    requires AllInRange(x, cs)
  {
    ApplyAll(x.text1, x.text2, Ops(x, cs))
  }

  lemma ResultSnoc(x: Texts, cs: seq<EditCommand>, c: EditCommand)
    requires AllInRange(x, cs) && InRange(x, c)
    ensures AllInRange(x, cs + [c])
    ensures Offset(x, cs + [c]) == Offset(x, cs) + BLen(x, c) - ALen(x, c)
    ensures Result(x, cs + [c]) == Then(Result(x, cs), x.text2, OpFor(x, c, Offset(x, cs)))
  {
    assert (cs + [c])[..|cs|] == cs;
    var ops := Ops(x, cs + [c]);
    assert ops[..|ops| - 1] == Ops(x, cs);
  }

  // ----- merged commands mean what their unit edits mean -----

  /** Both texts are tiled by their lines. */
  ghost predicate Tiled(x: Texts) {
    Tiles(x.text1, x.la, Covered(x.text1)) && Tiles(x.text2, x.lb, Covered(x.text2))
  }

  /** Then no command has a negative length. */
  lemma LengthsOfTiled(x: Texts, c: EditCommand)
    requires Tiled(x) && InRange(x, c)
    ensures ALen(x, c) >= 0 && BLen(x, c) >= 0
  {
    if c.mCmd == DeleteLine {
      LinePosRises(x.text1, x.la, Covered(x.text1), c.mAIdx, c.mAIdx + c.mCount);
    } else if c.mCmd == InsertLine {
      LinePosRises(x.text2, x.lb, Covered(x.text2), c.mBIdx, c.mBIdx + c.mCount);
    }
  }

  /** Two deletions in a row at one place are one of both lengths, and fail when it does. */
  lemma MergeDeletes(cur: string, text2: string, pos: int, len1: nat, len2: nat, line1: int, line2: int)
    ensures ApplyOp(cur, text2, DeleteText(pos, len1 + len2, line1)) ==
              Then(ApplyOp(cur, text2, DeleteText(pos, len1, line1)), text2, DeleteText(pos, len2, line2))
  {
    if 0 <= pos && pos + len1 + len2 <= |cur| {
      var mid := cur[..pos] + cur[pos + len1..];
      assert mid[..pos] == cur[..pos];
      assert mid[pos + len2..] == cur[pos + len1 + len2..];
    }
  }

  /** Likewise for insertions, one behind the other. */
  lemma MergeInserts(cur: string, text2: string, pos: int, from: int, len1: nat, len2: nat, line1: int, line2: int)
    ensures ApplyOp(cur, text2, InsertText(pos, from, len1 + len2, line1)) ==
              Then(ApplyOp(cur, text2, InsertText(pos, from, len1, line1)), text2,
                   InsertText(pos + len1, from + len1, len2, line2))
  {
    if 0 <= pos <= |cur| && 0 <= from && from + len1 + len2 <= |text2| {
      var mid := cur[..pos] + text2[from..from + len1] + cur[pos..];
      assert mid[..pos + len1] == cur[..pos] + text2[from..from + len1];
      assert mid[pos + len1..] == cur[pos..];
      var q1, q2 := text2[from..from + len1], text2[from + len1..from + len1 + len2];
      assert text2[from..from + len1 + len2] == q1 + q2;
      assert cur[..pos] + q1 + q2 + cur[pos..] == cur[..pos] + (q1 + q2) + cur[pos..];
    }
  }

  /** A command cut down to its first n units. */
  function FirstUnits(c: EditCommand, n: int): EditCommand {
    c.(mCount := n)
  }

  lemma InRangeUnits(x: Texts, c: EditCommand, n: int, k: nat)
    requires InRange(x, c) && 1 <= n <= c.mCount && k < c.mCount
    ensures InRange(x, FirstUnits(c, n)) && InRange(x, Unit(c, k))
  {
  }

  lemma {:induction false} UnitsInRange(x: Texts, c: EditCommand, n: nat)
    requires InRange(x, c) && n <= c.mCount
    ensures AllInRange(x, Units(c, n))
  {
    if n > 0 {
      UnitsInRange(x, c, n - 1);
      InRangeUnits(x, c, n, n - 1);
    }
  }

  /** Applying n units one by one is applying the n-fold command. */
  lemma {:induction false} UnitsAsOne(x: Texts, cs: seq<EditCommand>, c: EditCommand, n: nat)
    requires AllInRange(x, cs) && InRange(x, c) && 1 <= n <= c.mCount
    ensures AllInRange(x, cs + Units(c, n)) && InRange(x, FirstUnits(c, n))
    ensures Offset(x, cs + Units(c, n)) == OffsetAfter(x, FirstUnits(c, n), Offset(x, cs))
    ensures Tiled(x) || Result(x, cs + Units(c, n)).Some? ==>
              Then(Result(x, cs), x.text2, OpFor(x, FirstUnits(c, n), Offset(x, cs))) == Result(x, cs + Units(c, n))
    decreases n
  {
    UnitsInRange(x, c, n);
    InRangeUnits(x, c, n, n - 1);
    var u := Unit(c, n - 1);
    var before := cs + Units(c, n - 1);
    assert before + [u] == cs + Units(c, n);
    if n == 1 {
      assert before == cs && u == FirstUnits(c, 1);
      ResultSnoc(x, cs, u);
    } else {
      UnitsAsOne(x, cs, c, n - 1);
      ResultSnoc(x, before, u);
      MergeStep(x, c, n, Result(x, cs), Offset(x, cs));
    }
  }

  function OffsetAfter(x: Texts, c: EditCommand, offset: int): int
    requires InRange(x, c)
  {
    offset + BLen(x, c) - ALen(x, c)
  }

  /** Where the n-th unit of a command acts, after the first n - 1. */
  lemma StepShape(x: Texts, c: EditCommand, n: int)
    requires InRange(x, c) && 2 <= n <= c.mCount
    requires InRange(x, FirstUnits(c, n - 1)) && InRange(x, FirstUnits(c, n)) && InRange(x, Unit(c, n - 1))
    ensures var one, first, all := Unit(c, n - 1), FirstUnits(c, n - 1), FirstUnits(c, n);
            && one.mCmd == first.mCmd == all.mCmd == c.mCmd
            && APos(x, first) == APos(x, all) == APos(x, c)
            && ALen(x, all) == ALen(x, first) + ALen(x, one) && BLen(x, all) == BLen(x, first) + BLen(x, one)
            && (IsInsert(c.mCmd) ==>
                  && BPos(x, first) == BPos(x, all) == BPos(x, c) && ALen(x, one) == ALen(x, first) == 0
                  && APos(x, one) == APos(x, c) && BPos(x, one) == BPos(x, c) + BLen(x, first))
            && (!IsInsert(c.mCmd) ==>
                  BLen(x, one) == BLen(x, first) == 0 && APos(x, one) == APos(x, c) + ALen(x, first))
  {
  }

  /** The operations of the first n - 1 units, of the n-th unit after them, and of all n. */
  lemma StepOps(x: Texts, c: EditCommand, n: int, offset: int)
    requires InRange(x, c) && 2 <= n <= c.mCount
    requires InRange(x, FirstUnits(c, n - 1)) && InRange(x, FirstUnits(c, n)) && InRange(x, Unit(c, n - 1))
    ensures var one, first, all := Unit(c, n - 1), FirstUnits(c, n - 1), FirstUnits(c, n);
            var offset', pos := OffsetAfter(x, first, offset), APos(x, c) + offset;
            && OffsetAfter(x, all, offset) == OffsetAfter(x, one, offset')
            && (IsInsert(c.mCmd) ==> var len1, len2, from := BLen(x, first), BLen(x, one), BPos(x, c);
                  && SameEdit(OpFor(x, first, offset), InsertText(pos, from, len1, -1))
                  && SameEdit(OpFor(x, one, offset'), InsertText(pos + len1, from + len1, len2, -1))
                  && SameEdit(OpFor(x, all, offset), InsertText(pos, from, len1 + len2, -1)))
            && (!IsInsert(c.mCmd) ==> var len1, len2 := ALen(x, first), ALen(x, one);
                  && SameEdit(OpFor(x, first, offset), DeleteText(pos, len1, -1))
                  && SameEdit(OpFor(x, one, offset'), DeleteText(pos, len2, -1))
                  && SameEdit(OpFor(x, all, offset), DeleteText(pos, len1 + len2, -1)))
  {
    StepShape(x, c, n);
  }

  /** The line field is for display only. */
  predicate SameEdit(op: Op, other: Op) {
    op.(line := -1) == other.(line := -1)
  }

  lemma MergeStep(x: Texts, c: EditCommand, n: int, cur: Option<string>, offset: int)
    requires InRange(x, c) && 2 <= n <= c.mCount
    requires InRange(x, FirstUnits(c, n - 1)) && InRange(x, FirstUnits(c, n)) && InRange(x, Unit(c, n - 1))
    ensures var offset' := OffsetAfter(x, FirstUnits(c, n - 1), offset);
            && OffsetAfter(x, FirstUnits(c, n), offset) == OffsetAfter(x, Unit(c, n - 1), offset')
            && var two := Then(Then(cur, x.text2, OpFor(x, FirstUnits(c, n - 1), offset)), x.text2,
                               OpFor(x, Unit(c, n - 1), offset'));
               Tiled(x) || two.Some? ==> Then(cur, x.text2, OpFor(x, FirstUnits(c, n), offset)) == two
  {
    var one, first, all := Unit(c, n - 1), FirstUnits(c, n - 1), FirstUnits(c, n);
    var offset', pos := OffsetAfter(x, first, offset), APos(x, c) + offset;
    var op1, op2, op3 := OpFor(x, first, offset), OpFor(x, one, offset'), OpFor(x, all, offset);
    StepOps(x, c, n, offset);
    if Tiled(x) {
      LengthsOfTiled(x, first);
      LengthsOfTiled(x, one);
    }
    if IsInsert(c.mCmd) {
      MergeTwoInserts(cur, x.text2, op1, op2, op3, pos, BPos(x, c), BLen(x, first), BLen(x, one));
    } else {
      MergeTwoDeletes(cur, x.text2, op1, op2, op3, pos, ALen(x, first), ALen(x, one));
    }
  }

  lemma MergeTwoInserts(cur: Option<string>, text2: string, op1: Op, op2: Op, op3: Op,
                        pos: int, from: int, len1: int, len2: int)
    requires SameEdit(op1, InsertText(pos, from, len1, -1))
    requires SameEdit(op2, InsertText(pos + len1, from + len1, len2, -1))
    requires SameEdit(op3, InsertText(pos, from, len1 + len2, -1))
    ensures (len1 >= 0 && len2 >= 0) || Then(Then(cur, text2, op1), text2, op2).Some? ==>
              Then(cur, text2, op3) == Then(Then(cur, text2, op1), text2, op2)
  {
    if cur.Some? && len1 >= 0 && len2 >= 0 {
      MergeInserts(cur.value, text2, pos, from, len1, len2, op1.line, op2.line);
    }
  }

  lemma MergeTwoDeletes(cur: Option<string>, text2: string, op1: Op, op2: Op, op3: Op, pos: int, len1: int, len2: int)
    requires SameEdit(op1, DeleteText(pos, len1, -1)) && SameEdit(op2, DeleteText(pos, len2, -1))
    requires SameEdit(op3, DeleteText(pos, len1 + len2, -1))
    ensures (len1 >= 0 && len2 >= 0) || Then(Then(cur, text2, op1), text2, op2).Some? ==>
              Then(cur, text2, op3) == Then(Then(cur, text2, op1), text2, op2)
  {
    if cur.Some? && len1 >= 0 && len2 >= 0 {
      MergeDeletes(cur.value, text2, pos, len1, len2, op1.line, op2.line);
    }
  }

  /** A merged command list does what its unit edits do, and fails where they do when the texts are tiled. */
  lemma {:induction false} MergedAsUnits(x: Texts, cs: seq<EditCommand>)
    requires AllInRange(x, cs) && AllWellFormed(cs)
    ensures AllInRange(x, Expand(cs)) && Offset(x, Expand(cs)) == Offset(x, cs)
    ensures Tiled(x) || Result(x, Expand(cs)).Some? ==> Result(x, cs) == Result(x, Expand(cs))
    decreases |cs|
  {
    if cs != [] {
      var init, c := cs[..|cs| - 1], cs[|cs| - 1];
      MergedAsUnits(x, init);
      UnitsAsOne(x, Expand(init), c, c.mCount);
      ResultSnoc(x, init, c);
      assert cs == init + [c] && FirstUnits(c, c.mCount) == c;
    }
  }

  /** The unit edits are all in range exactly when the commands are. */
  lemma ExpandInRange(x: Texts, cs: seq<EditCommand>)
    requires AllWellFormed(cs)
    ensures AllInRange(x, Expand(cs)) <==> AllInRange(x, cs)
  {
    if AllInRange(x, cs) {
      MergedAsUnits(x, cs);
    }
    if AllInRange(x, Expand(cs)) {
      MergedInRange(x, cs);
    }
  }

  lemma {:induction false} MergedInRange(x: Texts, cs: seq<EditCommand>)
    requires AllWellFormed(cs) && AllInRange(x, Expand(cs))
    ensures AllInRange(x, cs)
    decreases |cs|
  {
    if cs != [] {
      var init, c := cs[..|cs| - 1], cs[|cs| - 1];
      var units := Units(c, c.mCount);
      assert forall i | 0 <= i < |Expand(init)| :: Expand(init)[i] == Expand(cs)[i];
      MergedInRange(x, init);
      UnitAt(c, c.mCount, 0);
      UnitAt(c, c.mCount, c.mCount - 1);
      assert Expand(cs)[|Expand(init)|] == units[0] && Expand(cs)[|Expand(init)| + c.mCount - 1] == units[c.mCount - 1];
      assert InRange(x, units[0]) && InRange(x, units[c.mCount - 1]);
    }
  }

  lemma {:induction false} UnitAt(c: EditCommand, n: nat, k: nat)
    requires k < n
    ensures Units(c, n)[k] == Unit(c, k)
  {
    if k < n - 1 {
      UnitAt(c, n - 1, k);
    }
  }

  // ----- the running invariant -----

  /** The unit edits so far have turned the first `ap` characters of text 1 into the first `bp` of text 2. */
  ghost predicate Synced(x: Texts, units: seq<EditCommand>, ap: int, bp: int) {
    && AllInRange(x, units) && 0 <= ap <= |x.text1| && 0 <= bp <= |x.text2|
    && Offset(x, units) == bp - ap
    && Result(x, units) == Some(x.text2[..bp] + x.text1[ap..])
  }

  lemma SyncedKeep(x: Texts, units: seq<EditCommand>, ap: int, bp: int, len: int)
    requires Synced(x, units, ap, bp) && 0 <= len && ap + len <= |x.text1| && bp + len <= |x.text2|
    requires x.text1[ap..ap + len] == x.text2[bp..bp + len]
    ensures Synced(x, units, ap + len, bp + len)
  {
    PrefixGrows(x.text2, bp, len);
    assert x.text1[ap..] == x.text1[ap..ap + len] + x.text1[ap + len..];
    assert x.text2[..bp] + x.text1[ap..] == x.text2[..bp + len] + x.text1[ap + len..];
  }

  lemma PrefixGrows(s: string, i: nat, n: nat)
    requires i + n <= |s|
    ensures s[..i + n] == s[..i] + s[i..i + n]
  {
  }

  lemma DropAfterPrefix(p: string, s: string, n: int)
    requires 0 <= n <= |s|
    ensures (p + s)[..|p|] == p && (p + s)[|p| + n..] == s[n..]
  {
  }

  lemma OpDeletes(text1: string, text2: string, ap: nat, bp: nat, n: nat, line: int)
    requires ap + n <= |text1| && bp <= |text2|
    ensures ApplyOp(text2[..bp] + text1[ap..], text2, DeleteText(bp, n, line)) == Some(text2[..bp] + text1[ap + n..])
  {
    DropAfterPrefix(text2[..bp], text1[ap..], n);
    assert text1[ap..][n..] == text1[ap + n..];
  }

  lemma OpInserts(text1: string, text2: string, ap: nat, bp: nat, n: nat, line: int)
    requires ap <= |text1| && bp + n <= |text2|
    ensures ApplyOp(text2[..bp] + text1[ap..], text2, InsertText(bp, bp, n, line)) == Some(text2[..bp + n] + text1[ap..])
  {
    DropAfterPrefix(text2[..bp], text1[ap..], 0);
    PrefixGrows(text2, bp, n);
  }

  lemma SyncedDelete(x: Texts, units: seq<EditCommand>, ap: int, bp: int, c: EditCommand)
    requires Synced(x, units, ap, bp) && InRange(x, c) && !IsInsert(c.mCmd)
    requires APos(x, c) == ap && 0 <= ALen(x, c) && ap + ALen(x, c) <= |x.text1|
    ensures Synced(x, units + [c], ap + ALen(x, c), bp)
  {
    ResultSnoc(x, units, c);
    OpDeletes(x.text1, x.text2, ap, bp, ALen(x, c), OpFor(x, c, bp - ap).line);
  }

  lemma SyncedInsert(x: Texts, units: seq<EditCommand>, ap: int, bp: int, c: EditCommand)
    requires Synced(x, units, ap, bp) && InRange(x, c) && IsInsert(c.mCmd)
    requires APos(x, c) == ap && BPos(x, c) == bp && 0 <= BLen(x, c) && bp + BLen(x, c) <= |x.text2|
    ensures Synced(x, units + [c], ap, bp + BLen(x, c))
  {
    ResultSnoc(x, units, c);
    OpInserts(x.text1, x.text2, ap, bp, BLen(x, c), OpFor(x, c, bp - ap).line);
  }
}
