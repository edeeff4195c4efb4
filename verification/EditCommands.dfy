/** The run-length merged command list. */
module EditCommands {

  datatype EditCommandKind = InsertLine | DeleteLine | InsertChar | DeleteChar

  /** mBIdx is -1 for deletions. */
  datatype EditCommand = EditCommand(mCmd: EditCommandKind, mAIdx: int, mBIdx: int, mCount: int)

  predicate IsInsert(k: EditCommandKind) {
    k == InsertLine || k == InsertChar
  }

  /** What a merged command must look like: a count that fits the 16-bit field, and no B index on deletions. */
  predicate WellFormed(c: EditCommand) {
    1 <= c.mCount <= 0x7FFF && (!IsInsert(c.mCmd) ==> c.mBIdx == -1)
  }

  ghost predicate AllWellFormed(cs: seq<EditCommand>) {
    forall i | 0 <= i < |cs| :: WellFormed(cs[i])
  }

  /** The unit edits a command stands for: insertions walk through B, deletions through A. */
  function Unit(c: EditCommand, k: nat): EditCommand {
    if IsInsert(c.mCmd) then EditCommand(c.mCmd, c.mAIdx, c.mBIdx + k, 1)
    else EditCommand(c.mCmd, c.mAIdx + k, c.mBIdx, 1)
  }

  function Units(c: EditCommand, n: nat): (u: seq<EditCommand>)
    ensures |u| == n
  {
    if n == 0 then [] else Units(c, n - 1) + [Unit(c, n - 1)]
  }

  function Expand(cs: seq<EditCommand>): seq<EditCommand>
    requires AllWellFormed(cs)
  {
    if cs == [] then [] else Expand(cs[..|cs| - 1]) + Units(cs[|cs| - 1], cs[|cs| - 1].mCount)
  }

  lemma {:induction false} ExpandConcat(xs: seq<EditCommand>, ys: seq<EditCommand>)
    requires AllWellFormed(xs) && AllWellFormed(ys)
    ensures AllWellFormed(xs + ys) && Expand(xs + ys) == Expand(xs) + Expand(ys)
  {
    if ys == [] {
      assert xs + ys == xs;
    } else {
      var ys0, y := ys[..|ys| - 1], ys[|ys| - 1];
      ExpandConcat(xs, ys0);
      assert (xs + ys)[..|xs + ys| - 1] == xs + ys0;
      assert (xs + ys)[|xs + ys| - 1] == y;
      var units := Units(y, y.mCount);
      assert Expand(xs + ys) == (Expand(xs) + Expand(ys0)) + units;
      assert (Expand(xs) + Expand(ys0)) + units == Expand(xs) + (Expand(ys0) + units);
    }
  }

  lemma ExpandOne(c: EditCommand)
    requires WellFormed(c)
    ensures AllWellFormed([c]) && Expand([c]) == Units(c, c.mCount)
  {
    assert [c][..0] == [];
  }

  lemma ExpandSplice(xs: seq<EditCommand>, c: EditCommand, ys: seq<EditCommand>)
    requires AllWellFormed(xs) && WellFormed(c) && AllWellFormed(ys)
    ensures AllWellFormed(xs + [c]) && Expand(xs + [c]) == Expand(xs) + Units(c, c.mCount)
    ensures AllWellFormed(xs + [c] + ys) && Expand(xs + [c] + ys) == Expand(xs) + Units(c, c.mCount) + Expand(ys)
  {
    ExpandOne(c);
    ExpandConcat(xs, [c]);
    ExpandConcat(xs + [c], ys);
  }

  lemma {:induction false} UnitsIgnoreCount(c: EditCommand, count: int, n: nat)
    ensures Units(c.(mCount := count), n) == Units(c, n)
  {
    if n > 0 {
      UnitsIgnoreCount(c, count, n - 1);
    }
  }

  /** A single edit that continues the command before it. */
  predicate Continues(prev: EditCommand, c: EditCommand) {
    && c.mCount == 1 && prev.mCmd == c.mCmd && prev.mCount < 0x7FFF
    && if IsInsert(c.mCmd)
       then c.mAIdx == prev.mAIdx && c.mBIdx == prev.mBIdx + prev.mCount
       else c.mAIdx == prev.mAIdx + prev.mCount
  }

  lemma MergeUnits(prev: EditCommand, c: EditCommand)
    requires WellFormed(prev) && WellFormed(c) && Continues(prev, c)
    ensures var merged := prev.(mCount := prev.mCount + c.mCount);
            WellFormed(merged) && Units(merged, merged.mCount) == Units(prev, prev.mCount) + Units(c, c.mCount)
  {
    UnitsIgnoreCount(prev, prev.mCount + 1, prev.mCount);
    assert Units(c, 1) == Units(c, 0) + [Unit(c, 0)];
  }

  /** What adding `c` at `pos` must achieve: the same unit edits, with those of `c` put in between. */
  ghost predicate Added(cs: seq<EditCommand>, pos: int, c: EditCommand, cs': seq<EditCommand>, r: int)
    requires 0 <= pos <= |cs| && AllWellFormed(cs) && WellFormed(c)
  {
    && AllWellFormed(cs') && 0 <= r <= |cs'| && (r == pos || r == pos + 1)
    && cs'[r..] == cs[pos..]
    && Expand(cs'[..r]) == Expand(cs[..pos]) + Units(c, c.mCount)
    && Expand(cs') == Expand(cs[..pos]) + Units(c, c.mCount) + Expand(cs[pos..])
  }

  function Merged(prev: EditCommand, c: EditCommand): EditCommand {
    prev.(mCount := prev.mCount + c.mCount)
  }

  lemma InsertAdds(cs: seq<EditCommand>, pos: int, c: EditCommand)
    requires 0 <= pos <= |cs| && AllWellFormed(cs) && WellFormed(c)
    ensures Added(cs, pos, c, cs[..pos] + [c] + cs[pos..], pos + 1)
  {
    var cs' := cs[..pos] + [c] + cs[pos..];
    assert cs'[..pos + 1] == cs[..pos] + [c];
    ExpandSplice(cs[..pos], c, cs[pos..]);
  }

  lemma MergeAdds(cs: seq<EditCommand>, pos: int, c: EditCommand)
    requires 0 < pos <= |cs| && AllWellFormed(cs) && WellFormed(c) && Continues(cs[pos - 1], c)
    ensures Added(cs, pos, c, cs[pos - 1 := Merged(cs[pos - 1], c)], pos)
  {
    var prev, merged, rest := cs[pos - 1], Merged(cs[pos - 1], c), cs[..pos - 1];
    var cs' := cs[pos - 1 := merged];
    MergeUnits(prev, c);
    UpdateSplits(cs, pos, merged);
    assert cs[..pos] == rest + [prev];
    ExpandSplice(rest, prev, cs[pos..]);
    ExpandSplice(rest, merged, cs[pos..]);
  }

  lemma UpdateSplits(cs: seq<EditCommand>, pos: int, c: EditCommand)
    requires 0 < pos <= |cs|
    ensures cs[pos - 1 := c] == cs[..pos - 1] + [c] + cs[pos..]
    ensures cs[pos - 1 := c][..pos] == cs[..pos - 1] + [c] && cs[pos - 1 := c][pos..] == cs[pos..]
  {
  }

  /** Whether a single edit continues the command before it, as the branches for its kind ask. */
  method CanMerge(prev: EditCommand, c: EditCommand) returns (continues: bool)
    requires c.mCount == 1
    ensures continues == Continues(prev, c)
  {
    continues := false;
    if c.mCmd == InsertLine || c.mCmd == InsertChar {
      continues := prev.mCmd == c.mCmd && prev.mCount < 0x7FFF &&
                   c.mAIdx == prev.mAIdx && c.mBIdx == prev.mBIdx + prev.mCount;
    } else if c.mCmd == DeleteLine || c.mCmd == DeleteChar {
      continues := prev.mCmd == c.mCmd && prev.mCount < 0x7FFF &&
                   c.mAIdx == prev.mAIdx + prev.mCount;
    }
  }

  class CommandList {
    var mEditCommands: seq<EditCommand>

    constructor ()
      ensures mEditCommands == []
    {
      mEditCommands := [];
    }

    /** Adds a command at a position (-1 for the end), merging it into the one before when it continues it. */
    method AddEditCommand(insertPos: int, editCommand: EditCommand) returns (r: int)
      requires -1 <= insertPos <= |mEditCommands|
      requires AllWellFormed(mEditCommands) && WellFormed(editCommand)
      modifies this
      ensures var pos := if insertPos == -1 then |old(mEditCommands)| else insertPos;
              && Added(old(mEditCommands), pos, editCommand, mEditCommands, r)
              && |mEditCommands| == |old(mEditCommands)| +
                   if pos > 0 && Continues(old(mEditCommands)[pos - 1], editCommand) then 0 else 1
    {
      var cmdInsertPos := insertPos;
      if cmdInsertPos == -1 {
        cmdInsertPos := |mEditCommands|;
      }
      if cmdInsertPos > 0 && cmdInsertPos - 1 < |mEditCommands| && editCommand.mCount == 1 {
        var prev := mEditCommands[cmdInsertPos - 1];
        var continues := CanMerge(prev, editCommand);
        if continues {
          r := Merge(cmdInsertPos, editCommand);
          return;
        }
      }
      r := Insert(cmdInsertPos, editCommand);
    }

    method Merge(pos: int, editCommand: EditCommand) returns (r: int)
      requires 0 < pos <= |mEditCommands| && AllWellFormed(mEditCommands) && WellFormed(editCommand)
      requires Continues(mEditCommands[pos - 1], editCommand)
      modifies this
      ensures Added(old(mEditCommands), pos, editCommand, mEditCommands, r) && |mEditCommands| == |old(mEditCommands)|
    {
      var prev := mEditCommands[pos - 1];
      MergeAdds(mEditCommands, pos, editCommand);
      mEditCommands := mEditCommands[pos - 1 := prev.(mCount := prev.mCount + editCommand.mCount)];
      r := pos;
    }

    method Insert(pos: int, editCommand: EditCommand) returns (r: int)
      requires 0 <= pos <= |mEditCommands| && AllWellFormed(mEditCommands) && WellFormed(editCommand)
      modifies this
      ensures Added(old(mEditCommands), pos, editCommand, mEditCommands, r) && |mEditCommands| == |old(mEditCommands)| + 1
    {
      InsertAdds(mEditCommands, pos, editCommand);
      mEditCommands := mEditCommands[..pos] + [editCommand] + mEditCommands[pos..];
      r := pos + 1;
    }
  }
}
