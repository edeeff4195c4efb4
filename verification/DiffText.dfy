/** BfDiff: from two texts to the operations that turn the first into the second. */
module DiffText {
  import opened EditScript
  import opened Myers
  import opened Meeting
  import opened PatienceDiff
  import opened Lines
  import opened EditCommands
  import opened EditOps
  import opened Options

  /** What the operations make of text 1: the lines of text 2, followed by what text 1 has after its own lines. */
  function Target(text1: string, text2: string): string {
    text2[..Covered(text2)] + text1[Covered(text1)..]
  }

  /** The characters no line covers: none, unless the text ends in '\r'. */
  function Uncovered(text: string): string {
    text[Covered(text)..]
  }

  /** The operations yield text 2 exactly when both texts leave the same characters uncovered. */
  lemma TargetExact(text1: string, text2: string)
    ensures Target(text1, text2) == text2 <==> Uncovered(text1) == Uncovered(text2)
    ensures (text1 == "" || text1[|text1| - 1] != '\r') && (text2 == "" || text2[|text2| - 1] != '\r') ==>
              Target(text1, text2) == text2
  {
    var e := Covered(text2);
    assert text2 == text2[..e] + text2[e..];
    if Target(text1, text2) == text2 {
      assert Target(text1, text2)[e..] == Uncovered(text1);
    }
  }

  /** A text that ends in a lone '\r' is not always reproduced: its last line is never closed. */
  lemma LoneReturnLost()
    ensures Target("a\r", "b\r") == "a\r" != "b\r"
  {
    assert "a\r"[..1] == "a" && "b\r"[..1] == "b" && "a"[..0] == "" && "b"[..0] == "";
    assert AfterLastNewline("a") == 0 && AfterLastNewline("b") == 0;
    assert AfterLastNewline("a\r") == 0 && AfterLastNewline("b\r") == 0;
  }

  lemma UnitsOfOne(c: EditCommand)
    requires c.mCount == 1
    ensures Units(c, 1) == [c]
  {
    assert Units(c, 0) == [];
  }

  /** The commands have turned the first `ap` characters of text 1 into the first `bp` of text 2. */
  ghost predicate Reached(x: Texts, cs: seq<EditCommand>, ap: int, bp: int) {
    AllWellFormed(cs) && Synced(x, Expand(cs), ap, bp)
  }

  lemma AddedAtEnd(cs: seq<EditCommand>, c: EditCommand, cs': seq<EditCommand>, r: int)
    requires AllWellFormed(cs) && WellFormed(c) && c.mCount == 1 && Added(cs, |cs|, c, cs', r)
    ensures Expand(cs') == Expand(cs) + [c] && r == |cs'|
  {
    UnitsOfOne(c);
    assert cs[..|cs|] == cs && cs[|cs|..] == [] && |cs'[r..]| == |cs'| - r;
    assert Expand(cs) + [c] + [] == Expand(cs) + [c];
  }

  /** A unit edit at the point (ap, bp) that stays inside the texts. */
  ghost predicate Extends(x: Texts, c: EditCommand, ap: int, bp: int) {
    && InRange(x, c) && c.mCount == 1
    && APos(x, c) == ap && 0 <= ALen(x, c) && ap + ALen(x, c) <= |x.text1|
    && 0 <= BLen(x, c) && bp + BLen(x, c) <= |x.text2| && (IsInsert(c.mCmd) ==> BPos(x, c) == bp)
  }

  /** Adding a unit edit at the end moves the point reached past what it deletes or inserts. */
  lemma AddedReaches(x: Texts, cs: seq<EditCommand>, c: EditCommand, cs': seq<EditCommand>, r: int, ap: int, bp: int)
    requires Reached(x, cs, ap, bp) && Extends(x, c, ap, bp) && Added(cs, |cs|, c, cs', r)
    ensures Reached(x, cs', ap + ALen(x, c), bp + BLen(x, c)) && r == |cs'|
  {
    AddedAtEnd(cs, c, cs', r);
    ExtendsSynced(x, Expand(cs), c, ap, bp);
  }

  lemma ExtendsSynced(x: Texts, units: seq<EditCommand>, c: EditCommand, ap: int, bp: int)
    requires Synced(x, units, ap, bp) && Extends(x, c, ap, bp)
    ensures Synced(x, units + [c], ap + ALen(x, c), bp + BLen(x, c))
  {
    if IsInsert(c.mCmd) {
      SyncedInsert(x, units, ap, bp, c);
    } else {
      SyncedDelete(x, units, ap, bp, c);
    }
  }

  /** The span computed from the first and the last line record is the span of the lines between. */
  lemma LineSpan(text: string, lines: seq<LineData>, end: int, n: int, count: int)
    requires Tiles(text, lines, end) && 0 <= n && 1 <= count && n + count <= |lines|
    ensures lines[n].mBufStart == LinePos(lines, n)
    ensures LineEnd(lines[n + count - 1]) == LinePos(lines, n + count)
  {
    TileAt(text, lines, end, n);
    TileAt(text, lines, end, n + count - 1);
  }

  class BfDiff {
    const x: Texts
    const mCommands: CommandList

    ghost predicate Valid() {
      Tiles(x.text1, x.la, Covered(x.text1)) && Tiles(x.text2, x.lb, Covered(x.text2))
    }

    constructor (texts: Texts)
      requires Tiles(texts.text1, texts.la, Covered(texts.text1)) && Tiles(texts.text2, texts.lb, Covered(texts.text2))
      ensures Valid() && fresh(mCommands) && x == texts && At(0, 0) && mCommands.mEditCommands == []
    {
      x := texts;
      mCommands := new CommandList();
      new;
      assert x.text2[..0] + x.text1[0..] == x.text1;
    }

    /** The commands so far have turned the first `ap` characters of text 1 into the first `bp` of text 2. */
    ghost predicate At(ap: int, bp: int)
      reads mCommands
    {
      Reached(x, mCommands.mEditCommands, ap, bp)
    }

    /** Appends one unit edit at the point reached. */
    method Append(insertPos: int, c: EditCommand, ghost ap: int, ghost bp: int) returns (r: int)
      requires At(ap, bp) && Extends(x, c, ap, bp)
      requires insertPos == -1 || insertPos == |mCommands.mEditCommands|
      modifies mCommands
      ensures At(ap + ALen(x, c), bp + BLen(x, c)) && r == |mCommands.mEditCommands|
    {
      ghost var cs := mCommands.mEditCommands;
      r := mCommands.AddEditCommand(insertPos, c);
      assert (if insertPos == -1 then |cs| else insertPos) == |cs|;
      AddedReaches(x, cs, c, mCommands.mEditCommands, r, ap, bp);
    }

    // ----- the character-level engine -----

    method EmitCharDelete(mCmdInsertPos: int, aIdx: int, ghost bIdx: int) returns (r: int)
      requires 0 <= aIdx < |x.text1| && At(aIdx, bIdx) && mCmdInsertPos == |mCommands.mEditCommands|
      modifies mCommands
      ensures At(aIdx + 1, bIdx) && r == |mCommands.mEditCommands|
    {
      r := Append(mCmdInsertPos, EditCommand(DeleteChar, aIdx, -1, 1), aIdx, bIdx);
    }

    method EmitCharInsert(mCmdInsertPos: int, aIdx: int, bIdx: int) returns (r: int)
      requires 0 <= aIdx && 0 <= bIdx < |x.text2| && At(aIdx, bIdx) && mCmdInsertPos == |mCommands.mEditCommands|
      modifies mCommands
      ensures At(aIdx, bIdx + 1) && r == |mCommands.mEditCommands|
    {
      r := Append(mCmdInsertPos, EditCommand(InsertChar, aIdx, bIdx, 1), aIdx, bIdx);
    }

    /** Equal characters need no command. */
    lemma CharKept(ap: int, bp: int)
      requires At(ap, bp) && 0 <= ap < |x.text1| && 0 <= bp < |x.text2| && x.text1[ap] == x.text2[bp]
      ensures At(ap + 1, bp + 1)
    {
      assert x.text1[ap..ap + 1] == [x.text1[ap]] && x.text2[bp..bp + 1] == [x.text2[bp]];
      SyncedKeep(x, Expand(mCommands.mEditCommands), ap, bp, 1);
    }

    /** Hands one entry of a character script to its override; `ap` and `bp` are the places reached. */
    method EmitChar(e: Entry, insertPos: int, ghost ap: int, ghost bp: int)
      returns (r: int, ghost ap': int, ghost bp': int)
      requires 0 <= ap <= |x.text1| && 0 <= bp <= |x.text2| && At(ap, bp) && insertPos == |mCommands.mEditCommands|
      requires match e
               case Equal(aIdx, bIdx) =>
                 aIdx == ap < |x.text1| && bIdx == bp < |x.text2| && x.text1[ap] == x.text2[bp]
               case Delete(aIdx) => aIdx == ap < |x.text1|
               case Insert(aIdx, bIdx) => aIdx == ap && bIdx == bp < |x.text2|
      modifies mCommands
      ensures ap' == (if e.Insert? then ap else ap + 1) && bp' == (if e.Delete? then bp else bp + 1)
      ensures At(ap', bp') && r == |mCommands.mEditCommands|
    {
      if e.Equal? {
        CharKept(ap, bp);
        return insertPos, ap + 1, bp + 1;
      }
      if e.Delete? {
        r := EmitCharDelete(insertPos, e.a, bp);
        return r, ap + 1, bp;
      }
      r := EmitCharInsert(insertPos, e.a, e.b);
      return r, ap, bp + 1;
    }

    /** Turns the entries of a character script into commands, as CharDiffEngine does. */
    method EmitChars(log: seq<Entry>, ghost a0: int, ghost b0: int, ghost a1: int, ghost b1: int)
      requires IsScript(x.text1, x.text2, log, a0, b0, a1, b1)
      requires 0 <= a0 && 0 <= b0 && a1 <= |x.text1| && b1 <= |x.text2| && At(a0, b0)
      modifies mCommands
      ensures At(a1, b1)
    {
      var mCmdInsertPos := |mCommands.mEditCommands|;
      ghost var ap, bp := a0, b0;
      ScriptCoversOnce(x.text1, x.text2, log, a0, b0, a1, b1);
      var i := 0;
      while i < |log|
        invariant 0 <= i <= |log| && 0 <= ap <= a1 && 0 <= bp <= b1
        invariant IsScript(x.text1, x.text2, log[i..], ap, bp, a1, b1) && At(ap, bp)
        invariant mCmdInsertPos == |mCommands.mEditCommands|
      {
        ScriptStep(x.text1, x.text2, log[i..], ap, bp, a1, b1);
        assert log[i..][0] == log[i] && log[i..][1..] == log[i + 1..];
        mCmdInsertPos, ap, bp := EmitChar(log[i], mCmdInsertPos, ap, bp);
        i := i + 1;
      }
    }

    // ----- the line-level engine -----

    /** Whether two lines agree character by character. */
    method SameText(aLineData: LineData, bLineData: LineData) returns (matches: bool)
      requires IsLine(x.text1, aLineData.mBufStart, aLineData.mBufLength)
      requires IsLine(x.text2, bLineData.mBufStart, bLineData.mBufLength)
      ensures matches == (LineText(x.text1, aLineData) == LineText(x.text2, bLineData))
    {
      matches := aLineData.mBufLength == bLineData.mBufLength;
      if matches {
        ghost var s, t := LineText(x.text1, aLineData), LineText(x.text2, bLineData);
        var i := 0;
        while i < aLineData.mBufLength
          invariant 0 <= i <= aLineData.mBufLength && s[..i] == t[..i]
        {
          if x.text1[aLineData.mBufStart + i] != x.text2[bLineData.mBufStart + i] {
            assert s[i] != t[i];
            return false;
          }
          assert s[..i + 1] == s[..i] + [s[i]] && t[..i + 1] == t[..i] + [t[i]];
          i := i + 1;
        }
        assert s[..i] == s && t[..i] == t;
      }
    }

    /** Diffs two lines of the same group character by character. */
    method DiffChars(a: LineData, b: LineData)
      requires IsLine(x.text1, a.mBufStart, a.mBufLength) && IsLine(x.text2, b.mBufStart, b.mBufLength)
      requires At(a.mBufStart, b.mBufStart)
      modifies mCommands
      ensures At(LineEnd(a), LineEnd(b))
    {
      var script := CharScript(a, b);
      EmitChars(script, a.mBufStart, b.mBufStart, LineEnd(a), LineEnd(b));
    }

    /** What the character engine reports for two lines. */
    method CharScript(a: LineData, b: LineData) returns (script: seq<Entry>)
      requires IsLine(x.text1, a.mBufStart, a.mBufLength) && IsLine(x.text2, b.mBufStart, b.mBufLength)
      ensures IsScript(x.text1, x.text2, script, a.mBufStart, b.mBufStart, LineEnd(a), LineEnd(b))
      ensures Joined(script) == b.mBufLength <==> Contains(LineText(x.text1, a), LineText(x.text2, b))
      ensures Joined(script) == a.mBufLength <==> Contains(LineText(x.text2, b), LineText(x.text1, a))
    {
      var strDiffEngine := new DiffEngine(x.text1, x.text2);
      var path := strDiffEngine.MyersDiff(a.mBufStart, a.mBufLength, b.mBufStart, b.mBufLength);
      script := strDiffEngine.mLog;
      assert script == path;
    }

    /** Equal lines need no command. */
    lemma LineKept(a: LineData, b: LineData)
      requires IsLine(x.text1, a.mBufStart, a.mBufLength) && IsLine(x.text2, b.mBufStart, b.mBufLength)
      requires At(a.mBufStart, b.mBufStart) && LineText(x.text1, a) == LineText(x.text2, b)
      ensures At(LineEnd(a), LineEnd(b))
    {
      assert |LineText(x.text1, a)| == |LineText(x.text2, b)|;
      SyncedKeep(x, Expand(mCommands.mEditCommands), a.mBufStart, b.mBufStart, a.mBufLength);
    }

    ghost predicate SameLineText(aIdx: int, bIdx: int)
      requires Valid() && 0 <= aIdx < |x.la| && 0 <= bIdx < |x.lb|
    {
      && Tile(x.text1, x.la, aIdx) && Tile(x.text2, x.lb, bIdx)
      && LineText(x.text1, x.la[aIdx]) == LineText(x.text2, x.lb[bIdx])
    }

    /** A text has the same lines as itself. */
    lemma EqualTextsAgree(i: int)
      requires Valid() && x.text1 == x.text2 && 0 <= i < |x.la|
      ensures |x.la| == |x.lb| && SameLineText(i, i)
    {
      TilesUnique(x.text1, x.la, x.lb, Covered(x.text1), if |x.la| < |x.lb| then |x.la| else |x.lb|);
      TilesUnique(x.text1, x.la, x.lb, Covered(x.text1), i);
      assert Tile(x.text1, x.la, i) && Tile(x.text2, x.lb, i);
    }

    /** The commands so far have made the first `b` lines of text 2 of the first `a` lines of text 1. */
    ghost predicate AtLine(a: int, b: int)
      reads mCommands
    {
      0 <= a <= |x.la| && 0 <= b <= |x.lb| && At(LinePos(x.la, a), LinePos(x.lb, b))
    }

    /** Makes a line of text 2 of the line of text 1 in its group; `same` when it is a line of equal texts. */
    method EmitEntryEqual(aIdx: int, bIdx: int, ghost same: bool)
      requires Valid() && AtLine(aIdx, bIdx) && aIdx < |x.la| && bIdx < |x.lb|
      requires same ==> aIdx == bIdx && x.text1 == x.text2
      modifies mCommands
      ensures AtLine(aIdx + 1, bIdx + 1)
      ensures same ==> mCommands.mEditCommands == old(mCommands.mEditCommands)
    {
      var a, b := x.la[aIdx], x.lb[bIdx];
      assert Tile(x.text1, x.la, aIdx) && Tile(x.text2, x.lb, bIdx);
      if same { EqualTextsAgree(aIdx); }
      var matches := SameText(a, b);
      if matches {
        LineKept(a, b);
      } else {
        DiffChars(a, b);
      }
    }

    method EmitEntryDelete(aIdx: int, ghost bIdx: int)
      requires Valid() && AtLine(aIdx, bIdx) && aIdx < |x.la|
      modifies mCommands
      ensures AtLine(aIdx + 1, bIdx)
    {
      LinePosRises(x.text1, x.la, Covered(x.text1), aIdx, aIdx + 1);
      LinePosInText(x.text1, x.la, Covered(x.text1), aIdx + 1);
      var _ := Append(-1, EditCommand(DeleteLine, aIdx, -1, 1), LinePos(x.la, aIdx), LinePos(x.lb, bIdx));
    }

    method EmitEntryInsert(aIdx: int, bIdx: int)
      requires Valid() && AtLine(aIdx, bIdx) && bIdx < |x.lb|
      modifies mCommands
      ensures AtLine(aIdx, bIdx + 1)
    {
      LinePosRises(x.text2, x.lb, Covered(x.text2), bIdx, bIdx + 1);
      LinePosInText(x.text2, x.lb, Covered(x.text2), bIdx + 1);
      var _ := Append(-1, EditCommand(InsertLine, aIdx, bIdx, 1), LinePos(x.la, aIdx), LinePos(x.lb, bIdx));
    }

    /** Hands one entry of the line script to its override; `a` and `b` are the line numbers reached. An equal pair,
        as with `same`, needs no command. */
    method EmitLine(e: Entry, ghost a: int, ghost b: int, ghost same: bool) returns (ghost a': int, ghost b': int)
      requires Valid() && AtLine(a, b)
      requires e.a == a && (e.Insert? || a < |x.la|) && (e.Delete? || e.b == b < |x.lb|)
      requires same ==> e.Equal? && a == b && x.text1 == x.text2
      modifies mCommands
      ensures a' == (if e.Insert? then a else a + 1) && b' == (if e.Delete? then b else b + 1)
      ensures AtLine(a', b')
      ensures same ==> mCommands.mEditCommands == old(mCommands.mEditCommands)
    {
      if e.Equal? {
        EmitEntryEqual(e.a, e.b, same);
        return a + 1, b + 1;
      }
      if e.Delete? {
        EmitEntryDelete(e.a, b);
        return a + 1, b;
      }
      EmitEntryInsert(e.a, e.b);
      return a, b + 1;
    }

    /** Turns the entries of the line script into commands, as PatienceDiffEngine does. */
    method EmitLines(log: seq<Entry>)
      requires Valid() && IsScript(Keys(x.la), Keys(x.lb), log, 0, 0, |x.la|, |x.lb|) && At(0, 0)
      modifies mCommands
      ensures At(Covered(x.text1), Covered(x.text2))
      ensures x.text1 == x.text2 && Joined(log) == |log| ==> mCommands.mEditCommands == old(mCommands.mEditCommands)
    {
      ghost var same := x.text1 == x.text2 && Joined(log) == |log|;
      ghost var ka, kb := Keys(x.la), Keys(x.lb);
      ghost var a, b := 0, 0;
      var i := 0;
      while i < |log|
        invariant 0 <= i <= |log|
        invariant IsScript(ka, kb, log[i..], a, b, |ka|, |kb|)
        invariant AtLine(a, b)
        invariant same ==> a == b && mCommands.mEditCommands == old(mCommands.mEditCommands)
      {
        if same { OnlyPairs(log, i); }
        ScriptStep(ka, kb, log[i..], a, b, |ka|, |kb|);
        assert log[i..][0] == log[i] && log[i..][1..] == log[i + 1..];
        a, b := EmitLine(log[i], a, b, same);
        i := i + 1;
      }
    }

    // ----- printing -----

    /** Where text goes that is inserted before a line. */
    function GetInsertPosition(lineNum: int): (pos: int)
      requires Valid() && 0 <= lineNum <= |x.la|
      ensures pos == LinePos(x.la, lineNum) == if lineNum == 0 then 0 else LineEnd(x.la[lineNum - 1])
    {
      assert lineNum > 0 ==> Tile(x.text1, x.la, lineNum - 1);
      if lineNum < |x.la| then x.la[lineNum].mBufStart
      else if lineNum == 0 then 0
      else x.la[|x.la| - 1].mBufStart + x.la[|x.la| - 1].mBufLength
    }

    /** The operation of one command, shifted by the offset so far. */
    method PrintCommand(c: EditCommand, aOffset: int) returns (op: Op, newOffset: int)
      requires Valid() && InRange(x, c)
      ensures op == OpFor(x, c, aOffset) && newOffset == OffsetAfter(x, c, aOffset)
      ensures NamesLine(c, op)
    {
      match c.mCmd
      case DeleteLine =>
        var lineDataStart, lineDataEnd := x.la[c.mAIdx], x.la[c.mAIdx + c.mCount - 1];
        LineSpan(x.text1, x.la, Covered(x.text1), c.mAIdx, c.mCount);
        var len := lineDataEnd.mBufStart + lineDataEnd.mBufLength - lineDataStart.mBufStart;
        op := DeleteText(lineDataStart.mBufStart + aOffset, len, c.mAIdx);
        newOffset := aOffset - len;
      case DeleteChar =>
        op := DeleteText(c.mAIdx + aOffset, c.mCount, -1);
        newOffset := aOffset - c.mCount;
      case InsertChar =>
        op := InsertText(c.mAIdx + aOffset, c.mBIdx, c.mCount, -1);
        newOffset := aOffset + c.mCount;
      case InsertLine =>
        var insertPosition := GetInsertPosition(c.mAIdx);
        var bLineDataStart, bLineDataEnd := x.lb[c.mBIdx], x.lb[c.mBIdx + c.mCount - 1];
        LineSpan(x.text2, x.lb, Covered(x.text2), c.mBIdx, c.mCount);
        var len := bLineDataEnd.mBufStart + bLineDataEnd.mBufLength - bLineDataStart.mBufStart;
        op := InsertText(insertPosition + aOffset, bLineDataStart.mBufStart, len, c.mAIdx);
        newOffset := aOffset + len;
    }

    /** The operations of the command list. */
    method PrintCommands() returns (ops: seq<Op>)
      requires Valid() && AllInRange(x, mCommands.mEditCommands)
      ensures ops == Ops(x, mCommands.mEditCommands)
    {
      ops := [];
      var aOffset := 0;
      ghost var cs := mCommands.mEditCommands;
      for i := 0 to |mCommands.mEditCommands|
        invariant cs == mCommands.mEditCommands && ops == Ops(x, cs[..i]) && aOffset == Offset(x, cs[..i])
      {
        var c := mCommands.mEditCommands[i];
        if c.mAIdx == -1 {
          // No command is marked as dropped.
          assert false;
        }
        assert cs[..i + 1][..i] == cs[..i];
        var op;
        op, aOffset := PrintCommand(c, aOffset);
        ops := ops + [op];
      }
      assert cs[..|cs|] == cs;
    }
  }

  /** The line-level script of two texts. */
  method DiffLines(hash: string -> int, text1: string, text2: string)
    returns (la: seq<LineData>, lb: seq<LineData>, log: seq<Entry>)
    requires '\0' !in text1 && '\0' !in text2
    ensures Tiles(text1, la, Covered(text1)) && Tiles(text2, lb, Covered(text2))
    ensures IsScript(Keys(la), Keys(lb), log, 0, 0, |la|, |lb|)
    ensures forall i, j | 0 <= i < |la| && 0 <= j < |lb| ::
              && IsLine(text1, la[i].mBufStart, la[i].mBufLength) && IsLine(text2, lb[j].mBufStart, lb[j].mBufLength)
              && (Keys(la)[i] == Keys(lb)[j] <==> hash(LineText(text1, la[i])) == hash(LineText(text2, lb[j])))
    ensures Most(Keys(la), Keys(lb), 0, |la|, 0, |lb|) <= Joined(log)
    ensures text1 == text2 ==> Joined(log) == |log|
  {
    var groups := new DuplicateLineDataMap();
    la := groups.ProcessText(hash, text1, 0, []);
    ghost var m1 := groups.mMap;
    lb := groups.ProcessText(hash, text2, 1, Keys(la));
    SameGroup(hash, text1, text2, la, lb, m1, groups.mMap);
    if text1 == text2 { EqualKeys(hash, text1, la, lb); }
    log := RunPatience(Keys(la), Keys(lb), Refs(groups.mData, 0), Refs(groups.mData, 1));
  }

  /** The lines of a text carry the same groups both times. */
  lemma EqualKeys(hash: string -> int, text: string, la: seq<LineData>, lb: seq<LineData>)
    requires Tiles(text, la, Covered(text)) && Tiles(text, lb, Covered(text))
    requires forall i, j | 0 <= i < |la| && 0 <= j < |lb| ::
              && IsLine(text, la[i].mBufStart, la[i].mBufLength) && IsLine(text, lb[j].mBufStart, lb[j].mBufLength)
              && (Keys(la)[i] == Keys(lb)[j] <==> hash(LineText(text, la[i])) == hash(LineText(text, lb[j])))
    ensures Keys(la) == Keys(lb)
  {
    TilesUnique(text, la, lb, Covered(text), if |la| < |lb| then |la| else |lb|);
    forall i | 0 <= i < |la| ensures Keys(la)[i] == Keys(lb)[i] {
      TilesUnique(text, la, lb, Covered(text), i);
      assert LineText(text, la[i]) == LineText(text, lb[i]);
    }
  }

  method RunPatience(a: seq<nat>, b: seq<nat>, refs0: seq<seq<int>>, refs1: seq<seq<int>>) returns (log: seq<Entry>)
    requires RefsOk(a, refs0) && RefsOk(b, refs1) && |refs0| == |refs1|
    ensures IsScript(a, b, log, 0, 0, |a|, |b|) && Most(a, b, 0, |a|, 0, |b|) <= Joined(log)
    ensures a == b ==> Joined(log) == |log|
  {
    assert a[0..0 + |a|] == a && b[0..0 + |b|] == b;
    var engine := new PatienceDiffEngine(a, b, refs0, refs1);
    var path := engine.PatienceDiff(0, |a|, 0, |b|);
    log := engine.mBase.mLog;
    assert log == path;
  }

  /** Lines of the two texts are in the same group exactly when their hashes agree. */
  lemma SameGroup(hash: string -> int, text1: string, text2: string, la: seq<LineData>, lb: seq<LineData>,
                  m1: map<int, nat>, m: map<int, nat>)
    requires Grouped(hash, text1, la, m1) && Grouped(hash, text2, lb, m)
    requires forall h | h in m1 :: h in m && m[h] == m1[h]
    requires forall h, h' | h in m && h' in m && m[h] == m[h'] :: h == h'
    ensures forall i, j | 0 <= i < |la| && 0 <= j < |lb| ::
              && IsLine(text1, la[i].mBufStart, la[i].mBufLength) && IsLine(text2, lb[j].mBufStart, lb[j].mBufLength)
              && (Keys(la)[i] == Keys(lb)[j] <==> hash(LineText(text1, la[i])) == hash(LineText(text2, lb[j])))
  {
    forall i, j | 0 <= i < |la| && 0 <= j < |lb|
      ensures IsLine(text1, la[i].mBufStart, la[i].mBufLength) && IsLine(text2, lb[j].mBufStart, lb[j].mBufLength)
      ensures Keys(la)[i] == Keys(lb)[j] <==> hash(LineText(text1, la[i])) == hash(LineText(text2, lb[j]))
    {
      assert HasGroup(hash, text1, la[i], m1) && HasGroup(hash, text2, lb[j], m);
      var h, h' := hash(LineText(text1, la[i])), hash(LineText(text2, lb[j]));
      assert h in m1 && h in m && h' in m;
    }
  }

  /** The commands of a line script, turned into operations. */
  method OperationsOf(x: Texts, log: seq<Entry>) returns (ops: seq<Op>)
    requires Tiles(x.text1, x.la, Covered(x.text1)) && Tiles(x.text2, x.lb, Covered(x.text2))
    requires IsScript(Keys(x.la), Keys(x.lb), log, 0, 0, |x.la|, |x.lb|)
    ensures ApplyAll(x.text1, x.text2, ops) == Some(Target(x.text1, x.text2))
    ensures x.text1 == x.text2 && Joined(log) == |log| ==> ops == []
  {
    var bfDiff := new BfDiff(x);
    bfDiff.EmitLines(log);
    ghost var cs := bfDiff.mCommands.mEditCommands;
    ExpandInRange(x, cs);
    MergedAsUnits(x, cs);
    assert Ops(x, []) == [];
    ops := bfDiff.PrintCommands();
  }

  /** The whole diff: whatever the line hash, applying the operations in order to text 1 yields the target, which is
      text 2 exactly when both texts leave the same characters uncovered. Equal texts give no operations. */
  method DiffText(hash: string -> int, text1: string, text2: string) returns (ops: seq<Op>)
    requires '\0' !in text1 && '\0' !in text2
    ensures ApplyAll(text1, text2, ops) == Some(Target(text1, text2))
    ensures ApplyAll(text1, text2, ops) == Some(text2) <==> Uncovered(text1) == Uncovered(text2)
    ensures text1 == text2 ==> ops == []
  {
    var la, lb, log := DiffLines(hash, text1, text2);
    ops := OperationsOf(Texts(text1, text2, la, lb), log);
    TargetExact(text1, text2);
  }
}
