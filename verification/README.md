# A model of Beef's text diff and of the protocols around it

The project models the parts of the Beef tool chain whose correctness is hardest to see from reading
one function, and proves what they are for. Code that changes state is modelled by classes and
methods, proved against specification functions; the laws are lemmas about those functions.

**The text diff** (`IDEHelper/BfDiff.cpp`). `Lines` cuts both texts into lines and groups them by an
arbitrary hash. `PatienceSort` and `PatienceDiff` trim equal heads and tails, anchor on lines that are
unique in both ranges and recurse between the anchors. `Frontier` and `Myers` hold the linear-space
algorithm of Myers (section 4b of "An O(ND) Difference Algorithm and Its Variations"): the frontiers
`v` and `rv` are arrays that each round overwrites. `Meeting` has the columns of the rounds and the first
overlap as functions of the two ranges, `FirstMeeting` shows that there is one, `Division` says what the
recursion makes of it and how much it joins, and `TailLost` has an input on which it joins nothing.
`EditScript` says what a script is, `EditCommands` merges single edits, `EditOps` says what an editor
does with the printed operations, and `DiffText` joins all of it. The main result, `DiffText.DiffText`:
whatever the hash, applying the operations in order to text 1 yields text 2, exactly when both texts
leave the same characters outside their lines.
A text leaves some only if it ends in `'\r'` (lines 731-736 never close such a last line);
`DiffText.LoneReturnLost` gives two texts for which the diff loses the change.

**Call replay** (`IDEHelper/DbgExprEvaluator.cpp`). `CallReplay` evaluates an expression with calls
round after round, and is compared with a direct evaluation in which every call runs at once.

**Bit fields** (same file). `Bitfield` reads and stores fields of target memory; their meaning is given
by memory as one sequence of bits.

**Paged streams and scratch buffers** (`IDEHelper/COFF.cpp`). `PagedStreams` has the page-wise readers
and one logical stream they all must deliver; `TempBuffers` has the stack of recycled buffers.

**Frame scheduler** (`BeefySysLib/BFApp.cpp`). `FramePacing` has the carried rounding error as a
function of whole runs; `FrameScheduler` has `Process` with calls nested in its waits, message pump,
updates and draws.

**Streams and encodings** (`BeefySysLib`). `BitReader` reads bits through a cached window (bits as in
`Bits` and `ByteBits`), `CachedStream` buffers writes over two kinds of sink, and `Base64`, `Groups`
and `Varint` hold the five-bit varint; `TwosComplement` reads patterns as signed numbers.

Properties the code has only on a condition, each proved with the exact condition and an input that fails it:

- the diff yields text 2 if and only if the uncovered ends of both texts agree (`DiffText.TargetExact`;
  `DiffText.LoneReturnLost`);
- the divided search joins all of one range if and only if it is contained, in order, in the other
  (`Division.AllJoined`). So an equal head and an equal tail are kept when together they cover the shorter
  range (`Division.HeadAndTailKept`), equal ranges among them (`Division.EqualRangesKept`). Where they
  cover less, the search may lose them: `TailLost.TailLost` gives two texts that end in the same character
  and for which it joins no pair at all. The line diff trims both ends first and keeps them always
  (`PatienceDiff.EndsAreMost`); the character diff does not trim;
- the page-wise reader delivers the logical stream if and only if the page size is a power of two
  (`PagedStreams.FindsRangesExact`, `PagedStreams.PageBitsExact`; `PagedStreams.ShortPageBits` for every
  other size, `PagedStreams.PagesOfThree` for one);
- encoding a decoded text gives it back if and only if it is canonical and does not wrap
  (`Varint.ReEncoded`; `Varint.WrappingText`, `Varint.NeedlessGroup`);
- a frame is handed negative time if and only if nothing woke it and more than half a period is owed,
  when it is paced, or anything is owed, when it is not (`FramePacing.NegativeTime`;
  `FramePacing.OverdrawnTimeout`);
- a full update raises the floor of the client's count by one if and only if the count is not negative
  or whole (`FrameScheduler.BumpRaisesFloor`). Towards targets that are not negative, following can make
  the count negative only below two refreshes a second (`FrameScheduler.SyncedNotNegative`), and a later
  frame then skips a count if and only if its target has got to one and it does not follow again
  (`FrameScheduler.SkipsExactly`). That takes a rate that rises from below two to above it between the
  frames (`FrameScheduler.SkipTakesBothRates`; `FrameScheduler.RisingRateSkips`); no run at one rate
  skips (`FrameScheduler.OneRateNeverSkips`);
- the number of updates stays within both settings if and only if the smaller is one at least
  (`FrameScheduler.UpdateLimitExact`, with an input).

Where the code's comments and the code differ, the code is followed: `??` with a null pointer on the
left evaluates the right side and drops its value (`DbgExprEvaluator.cpp:5839-5849`,
`CallReplay.NullCoalesceLoses`), and a frame's update limit is looked at only after its first update,
so a limit below one still lets one through (`BFApp.cpp:315-322`).

## Model

| member | source | states |
|---|---|---|
| DiffText.DiffText | IDEHelper/BfDiff.cpp:989-1063 | for every pair of texts without a zero character and every line hash, the operations all apply and turn text 1 into the lines of text 2 followed by what text 1 has outside its lines; that is text 2 exactly when both texts leave the same characters uncovered; equal texts give no operations |
| DiffText.TargetExact | IDEHelper/BfDiff.cpp:731-736 | the result is text 2 if and only if the uncovered characters agree, in particular when no text ends in a carriage return |
| DiffText.LoneReturnLost | IDEHelper/BfDiff.cpp:731-736 | two texts that end in a lone carriage return whose difference the diff loses |
| DiffText.DiffLines | IDEHelper/BfDiff.cpp:989-998 | both texts are tiled by their lines, two lines match exactly when their hashes agree, and the line script walks from corner to corner, joining at least as many lines as any rising choice of lines that occur once in both texts, and every line of equal texts |
| DiffText.OperationsOf | IDEHelper/BfDiff.cpp:1012-1063 | any line script over matching groups, however bad its hash matches, becomes operations that yield the target; none for equal texts and a script without edits |
| DiffText.BfDiff.EmitEntryEqual | IDEHelper/BfDiff.cpp:613-646 | a pair of lines that hash equal is reproduced character for character, with a character diff inside, or without a command when they are the same |
| DiffText.BfDiff.EmitEntryDelete | IDEHelper/BfDiff.cpp:648-659 | after a deleted line the commands have turned one more line of text 1 into the same part of text 2 |
| DiffText.BfDiff.EmitEntryInsert | IDEHelper/BfDiff.cpp:661-672 | after an inserted line they yield one more line of text 2 |
| DiffText.BfDiff.SameText | IDEHelper/BfDiff.cpp:618-629 | true exactly when both lines have the same characters |
| DiffText.BfDiff.EmitCharDelete | IDEHelper/BfDiff.cpp:412-418 | a deleted character moves the point reached in text 1 by one |
| DiffText.BfDiff.EmitCharInsert | IDEHelper/BfDiff.cpp:420-427 | an inserted character moves the point reached in text 2 by one |
| DiffText.BfDiff.DiffChars | IDEHelper/BfDiff.cpp:637-642 | the character script of two lines, turned into commands, makes the second line of the first |
| DiffText.BfDiff.CharScript | IDEHelper/BfDiff.cpp:637-640 | the character script of two lines; it keeps all characters of one line if and only if they are, in order, in the other |
| DiffText.BfDiff.GetInsertPosition | IDEHelper/BfDiff.cpp:829-836 | the position is right behind the line before, or the start of the text for the first line |
| DiffText.BfDiff.PrintCommand | IDEHelper/BfDiff.cpp:1024-1064 | the printed operation is the command at its true place in text 1, shifted by the offset, and the new offset is exact although it is computed from the first and last line record only; operations on lines name the line of text 1, operations on characters none |
| EditOps.OpsNameLines | IDEHelper/BfDiff.cpp:1018-1064 | one operation for each command, inserting or deleting as it does, with its line of text 1 if it is one on lines |
| DiffText.LineSpan | IDEHelper/BfDiff.cpp:1028-1031 | the span from the first to the last of a run of line records is the sum of the lines between |
| Lines.TilesUnique | IDEHelper/BfDiff.cpp:723-773 | a text is cut into lines in one way only |
| DiffText.AddedReaches | IDEHelper/BfDiff.cpp:989-1063 | the running invariant: adding one edit keeps current text = prefix of text 2 + suffix of text 1 |
| EditOps.MergedAsUnits | IDEHelper/BfDiff.cpp:1018-1064 | over texts tiled by their lines, a merged command list does what its unit edits do one by one, failing where they do, with the same offset at the end |
| EditOps.UnitsAsOne | IDEHelper/BfDiff.cpp:1024-1064 | n unit edits in a row have the effect of one n-fold command, failures included over tiled texts |
| EditOps.MergeDeletes | IDEHelper/BfDiff.cpp:1036-1043 | two deletions in a row at one place are one of both lengths, and fail when it does |
| EditOps.MergeInserts | IDEHelper/BfDiff.cpp:1044-1051 | likewise for insertions, one behind the other |
| EditOps.ExpandInRange | IDEHelper/BfDiff.cpp:1024-1064 | the lines and characters that the commands name are in the texts exactly when those of their unit edits are |
| EditOps.SyncedDelete | IDEHelper/BfDiff.cpp:1036-1043 | deleting at the point reached keeps text = prefix of text 2 + suffix of text 1 |
| EditOps.SyncedInsert | IDEHelper/BfDiff.cpp:1044-1051 | inserting the next part of text 2 keeps it too |
| EditOps.SyncedKeep | IDEHelper/BfDiff.cpp:618-646 | skipping equal characters keeps it without a command |
| EditCommands.CommandList.AddEditCommand | IDEHelper/BfDiff.cpp:133-167 | adding at any position yields a list with the same unit edits and those of the new command between, with every count in 1..0x7FFF, and returns the position behind it; a command that continues the one before makes the list no longer, and any other makes it longer by one |
| EditCommands.MergeAdds | IDEHelper/BfDiff.cpp:141-162 | growing the command before by one adds exactly the unit edit that continues it |
| EditCommands.InsertAdds | IDEHelper/BfDiff.cpp:165-166 | inserting a command adds exactly its unit edits |
| Lines.DuplicateLineDataMap.ProcessText | IDEHelper/BfDiff.cpp:715-777 | the records tile the text without gap or overlap up to its last closed line, each is one line, lines are in one group exactly when their hashes agree, and the references list exactly the line numbers of each group |
| Lines.DuplicateLineDataMap.AddLine | IDEHelper/BfDiff.cpp:752-761 | a hash gets one group for good, and only that group gains the line number |
| Lines.DuplicateLineDataMap.CloseLine | IDEHelper/BfDiff.cpp:738-773 | closing a line adds one record and one reference and keeps the tiling |
| Lines.Covered | IDEHelper/BfDiff.cpp:715-777 | what lines leave uncovered: nothing unless the text ends in a carriage return, and then what follows its last newline |
| Lines.RefsAppend | IDEHelper/BfDiff.cpp:761-761 | appending the line number to its group keeps the references of a text exact |
| EditScript.ScriptCoversOnce | IDEHelper/BfDiff.cpp:362-390 | a script keeps or deletes every A index once and keeps or inserts every B index once, in order |
| EditScript.ScriptRebuildsB | IDEHelper/BfDiff.cpp:362-390 | following a script turns the range of A into the range of B |
| EditScript.ScriptConcat3 | IDEHelper/BfDiff.cpp:380-382 | three scripts that meet end to end are one script |
| Myers.DiffEngine.MyersDiff | IDEHelper/BfDiff.cpp:362-390 | terminates and emits one monotone script over its two ranges, cut at every level at the segment where the two halves of the search meet first, between the scripts of the parts before and behind it; all of one range is joined if and only if it can be made of the other by deletions alone, so ranges that differ by deletions or insertions only, equal ones among them, get no others |
| Division.AllJoined | IDEHelper/BfDiff.cpp:362-390 | a script that the search makes joins all of one range if and only if that range is contained, in order, in the other |
| Division.EqualRangesKept | IDEHelper/BfDiff.cpp:362-390 | equal ranges give pairs only |
| Division.HeadAndTailKept | IDEHelper/BfDiff.cpp:362-390 | an equal head and an equal tail that together cover the shorter range are kept: all of it is joined |
| TailLost.TailLost | IDEHelper/BfDiff.cpp:362-390 | two texts that end in the same character, which does not cover the shorter one: whatever the search makes of them joins no pair at all |
| TailLost.WholeJoinsNothing | IDEHelper/BfDiff.cpp:362-390 | the same for all ranges that match at the same places |
| Division.DeletionsSuffice | IDEHelper/BfDiff.cpp:362-390 | if the second range can be made of the first by deletions alone, all of it is joined |
| Division.InsertionsSuffice | IDEHelper/BfDiff.cpp:362-390 | and all of the first, if it can be made of the second |
| Division.JoinedAtMost | IDEHelper/BfDiff.cpp:306-360 | pairs and edits of a script make up its ranges, and no script joins more than either range has |
| FirstMeeting.AlwaysMeets | IDEHelper/BfDiff.cpp:200-304 | on every two ranges that are not empty, one overlap test is the first that succeeds |
| FirstMeeting.RoundsHold | IDEHelper/BfDiff.cpp:200-304 | as long as none has, the frontiers are as the bounds say and the rounds are not used up |
| FirstMeeting.JoinedIsSettled | IDEHelper/BfDiff.cpp:362-390 | the two ranges settle how many pairs are joined |
| Meeting.DeletionSegment | IDEHelper/BfDiff.cpp:239-299 | when one range is contained in the other, the halves meet in the first round that can, on the outermost diagonal, and the segment leaves both parts contained |
| Meeting.InsertionSegment | IDEHelper/BfDiff.cpp:239-299 | the same with insertions |
| Meeting.FirstOfDeletions | IDEHelper/BfDiff.cpp:239-299 | the first test that succeeds is then that of half the difference of lengths, on the outermost diagonal |
| Meeting.ReverseEdgeLeast | IDEHelper/BfDiff.cpp:252-287 | the reverse half gets back there as far as any walk of deletions and matches |
| Meeting.MeetsNotBefore | IDEHelper/BfDiff.cpp:239-299 | no test can succeed in fewer rounds than the difference of lengths needs |
| Myers.DiffEngine.CalcMiddleSnake | IDEHelper/BfDiff.cpp:190-304 | always returns within the rounds, with every array access in range, a segment inside the rectangle that is one edit and a free diagonal (a diagonal only when there is no difference): the segment of the first overlap test that succeeds, test by test and round by round; the forward half stopped at furthest-reaching points |
| Myers.ForwardHalf | IDEHelper/BfDiff.cpp:208-250 | fills the diagonals of the round with the next forward values, or stops at the first overlap with the reverse half |
| Myers.ReverseHalf | IDEHelper/BfDiff.cpp:252-300 | the same for the reverse values, with its own tie-break |
| Myers.ForwardTry | IDEHelper/BfDiff.cpp:209-249 | one diagonal: the next value, and an overlap exactly when the test says so |
| Myers.ReverseTry | IDEHelper/BfDiff.cpp:253-299 | the same for one reverse diagonal |
| Myers.ForwardDiagonal | IDEHelper/BfDiff.cpp:211-237 | the edit from the neighbour diagonal and the longest run of matches after it |
| Myers.ReverseDiagonal | IDEHelper/BfDiff.cpp:255-287 | the edit backwards and the longest run of matches before it |
| Myers.FollowMatches | IDEHelper/BfDiff.cpp:227-237 | stops at the first mismatch or the edge |
| Myers.FollowMatchesBack | IDEHelper/BfDiff.cpp:277-287 | the same backwards |
| Myers.DiffEngine.AddDiffSpan | IDEHelper/BfDiff.cpp:306-360 | emits the segment exactly: its free diagonal as pairs and as many deletions or insertions as its sides differ, the pairs first when reversed and last otherwise |
| Myers.DiffEngine.PairsThenEdits | IDEHelper/BfDiff.cpp:308-345 | a reverse segment: its pairs, then its edits |
| Myers.DiffEngine.EditsThenPairs | IDEHelper/BfDiff.cpp:322-359 | a forward segment: its edits, then its pairs |
| Myers.DiffEngine.EmitDiagonal | IDEHelper/BfDiff.cpp:349-358 | the free diagonal as equal pairs and nothing else, in order |
| Myers.DiffEngine.EmitEdits | IDEHelper/BfDiff.cpp:328-345 | the surplus as deletions or insertions, in order |
| Myers.DiffEngine.DiffSides | IDEHelper/BfDiff.cpp:378-383 | the parts before and behind the middle segment are diffed on their own and joined with it in order |
| Myers.DiffEngine.DiffShort | IDEHelper/BfDiff.cpp:384-389 | with one difference or none, a run of matches and the segment itself lead to the far corner |
| Myers.DiffEngine.DiffLong | IDEHelper/BfDiff.cpp:378-383 | with more, the segment is joined with what is made of the parts before and behind it |
| Myers.BothHalves | IDEHelper/BfDiff.cpp:206-301 | one round: an overlap of either half is a middle segment, otherwise both frontiers are one round further and rounds are left |
| Myers.ForwardSnakeFound | IDEHelper/BfDiff.cpp:239-247 | an overlap in the forward half is a middle segment of odd difference |
| Myers.ReverseSnakeFound | IDEHelper/BfDiff.cpp:289-297 | an overlap in the reverse half is one of even difference |
| Myers.ForwardHalfFirst | IDEHelper/BfDiff.cpp:239-247 | an overlap that the forward half stops at is the first of all rounds |
| Myers.ReverseHalfFirst | IDEHelper/BfDiff.cpp:289-297 | and so is one that the reverse half stops at |
| Myers.ForwardSnakeFurthest | IDEHelper/BfDiff.cpp:239-247 | its two sides are furthest-reaching points |
| Frontier.ForwardStep | IDEHelper/BfDiff.cpp:208-250 | a round keeps the bounds and the neighbour relation of the forward frontier, whose values may leave the rectangle |
| Frontier.ReverseStep | IDEHelper/BfDiff.cpp:252-300 | the same for the reverse frontier |
| Frontier.ForwardMoveInRectangle | IDEHelper/BfDiff.cpp:212-225 | on a diagonal the reverse half has met, the edit stays inside the rectangle |
| Frontier.ReverseMoveInRectangle | IDEHelper/BfDiff.cpp:262-275 | on a diagonal the forward half has met, the edit backwards stays inside the rectangle |
| Frontier.ForwardMustMeet | IDEHelper/BfDiff.cpp:241-303 | for odd difference of lengths the halves meet before the rounds are used up |
| Frontier.ReverseMustMeet | IDEHelper/BfDiff.cpp:291-303 | for even difference of lengths too |
| Frontier.ForwardRoundIsFurthest | IDEHelper/BfDiff.cpp:206-250 | after forward round d every diagonal of its parity holds the largest column reachable with exactly d edits and free matches, on the grid without matches outside the rectangle |
| Frontier.ForwardNextFurthest | IDEHelper/BfDiff.cpp:212-237 | one diagonal of that: no path with one more edit gets further |
| Frontier.ForwardNextReached | IDEHelper/BfDiff.cpp:212-237 | and there is one that gets as far |
| Frontier.Slide | IDEHelper/BfDiff.cpp:229-237 | the matches end where they first fail or at the edge |
| Frontier.SlideBack | IDEHelper/BfDiff.cpp:279-287 | the same backwards |
| PatienceSort.LongestChain | IDEHelper/BfDiff.cpp:540-580 | the anchors rise in both texts, are among the shared lines, and no rising choice of shared lines is longer |
| PatienceSort.DealStacks | IDEHelper/BfDiff.cpp:543-568 | dealing keeps the tops rising, each line linked to a smaller one on the stack to its left, and later larger lines further right |
| PatienceSort.FindStack | IDEHelper/BfDiff.cpp:549-560 | the first stack whose top exceeds the new value, or none |
| PatienceSort.WalkBack | IDEHelper/BfDiff.cpp:570-580 | the walk along the links gives a rising chain whose i-th line is from stack i, one of every stack, and ends exactly at index -1 |
| PatienceSort.NoLongerChain | IDEHelper/BfDiff.cpp:540-580 | no rising chain is longer than there are stacks |
| PatienceSort.Deal | IDEHelper/BfDiff.cpp:549-567 | placing one value keeps all four stack invariants |
| PatienceDiff.PatienceDiffEngine.PatienceDiff | IDEHelper/BfDiff.cpp:446-610 | terminates and emits one monotone script over its two ranges: head, middle and tail are covered once and in order; it joins at least as many lines as any rising choice of lines that occur once in both ranges, at least those that both ranges have in common at their two ends, and every line of equal ranges |
| PatienceDiff.PatienceDiffEngine.DiffMiddle | IDEHelper/BfDiff.cpp:490-602 | the trimmed middle too, by anchors or by the fallback, joining as many lines as any rising choice of shared unique lines has |
| PatienceDiff.PatienceDiffEngine.DiffAnchored | IDEHelper/BfDiff.cpp:582-597 | the gaps between anchors and the anchors make one script, in which every anchor is a joined pair |
| PatienceDiff.PatienceDiffEngine.DiffToAnchor | IDEHelper/BfDiff.cpp:582-597 | the gap before an anchor and the anchor: the anchor is a joined pair, and so are at least as many lines as the gap has in common at its two ends |
| PatienceDiff.EndsAreMost | IDEHelper/BfDiff.cpp:453-488 | every equal head and equal tail count among those, up to the shorter of the ranges |
| PatienceDiff.PatienceDiffEngine.ReduceHead | IDEHelper/BfDiff.cpp:453-471 | joins equal heads, as pairs and nothing else, until the ranges differ or one is empty |
| PatienceDiff.PatienceDiffEngine.ReduceTail | IDEHelper/BfDiff.cpp:479-488 | counts equal tails up to the first pair that differs |
| PatienceDiff.PatienceDiffEngine.CollectShared | IDEHelper/BfDiff.cpp:495-529 | collects exactly the lines that occur once in each range, by rising A index |
| PatienceDiff.PatienceDiffEngine.CheckLine | IDEHelper/BfDiff.cpp:497-528 | one line: shared and unique, with its only counterpart |
| PatienceDiff.CountInRange | IDEHelper/BfDiff.cpp:500-518 | counts references in the range no further than two, and remembers the first |
| PatienceDiff.PickAnchors | IDEHelper/BfDiff.cpp:540-580 | the anchors are as many as any rising choice of shared unique lines has |
| PatienceDiff.EarlyReturnUnreachable | IDEHelper/BfDiff.cpp:533-538 | the early return is never taken after trimming: one-line ranges that differ share no line |
| PatienceDiff.MostIsMost | IDEHelper/BfDiff.cpp:540-542 | the largest number of rising shared unique lines, defined by recursion, is a maximum over all choices |
| PatienceDiff.TrimmedMost | IDEHelper/BfDiff.cpp:453-488 | trimming equal heads and tails loses no more of such a choice than the pairs it joins |
| CallReplay.Evaluation.EvaluateAll | IDEHelper/DbgExprEvaluator.cpp:6888-6958 | n calls take n+1 rounds; the last has no pending call and the value and errors of direct evaluation; every call is started exactly once, in order, with the direct arguments; a conditional has the value, the calls and the errors of the side that its condition chooses, and starts no call of the other |
| CallReplay.Evaluation.EvaluateContinue | IDEHelper/DbgExprEvaluator.cpp:6888-7060 | a round starts exactly the next call of direct evaluation, or ends with the direct result |
| CallReplay.Evaluation.CreateCall | IDEHelper/DbgExprEvaluator.cpp:6888-7060 | replays cached results, picks up the last one from the return register, starts a new call, or blocks when calls are off or one is pending |
| CallReplay.Evaluation.Evaluate | IDEHelper/DbgExprEvaluator.cpp:5777-5853 | every form of expression follows direct evaluation until a call is pending, and starts nothing after |
| CallReplay.Evaluation.EvaluateLogical | IDEHelper/DbgExprEvaluator.cpp:5798-5837 | short-circuit operators evaluate the right side, and its calls, only when direct evaluation does |
| CallReplay.Evaluation.EvaluateCoalesce | IDEHelper/DbgExprEvaluator.cpp:5839-5853 | null coalescing likewise; after a null pointer the right side is evaluated and cast to the pointer's type, with the errors of both, and its value is dropped |
| CallReplay.NullCoalesceLoses | IDEHelper/DbgExprEvaluator.cpp:5839-5849 | with a pointer on the left, null coalescing yields that pointer or no value, which is the left side or else the right exactly when the pointer is not null or the right side has no value either |
| CallReplay.NullCoalesceOfSeven | IDEHelper/DbgExprEvaluator.cpp:5839-5849 | an input: null ?? 7 has no value |
| CallReplay.Evaluation.EvaluateCond | IDEHelper/DbgExprEvaluator.cpp:8367-8392 | the conditional evaluates one side only: the true side when the condition casts to true, the false side when it casts to any other value, and none when there is no value to cast |
| CallReplay.CondMakesOneCall | IDEHelper/DbgExprEvaluator.cpp:8367-8392 | of two calls to choose from, the chosen one is made and returns the value |
| CallReplay.LogicalIsCond | IDEHelper/DbgExprEvaluator.cpp:5798-5837 | on a boolean left side, the short-circuit operators do what conditionals do, with false on the false side for the one and true on the true side for the other, but for the cast of the right side |
| CallReplay.LogicalOfTwo | IDEHelper/DbgExprEvaluator.cpp:5798-5837 | of two booleans they are conjunction and disjunction |
| CallReplay.NullCoalesceOfOthers | IDEHelper/DbgExprEvaluator.cpp:5839-5853 | without a pointer on the left, null coalescing yields the right side when the left has no value, and otherwise evaluates both sides and leaves them to the operator |
| CallReplay.BinaryEvaluatesBoth | IDEHelper/DbgExprEvaluator.cpp:5777-5796 | a binary operator evaluates both sides, left first, and applies to their values in that order if both have one |
| CallReplay.BinaryOfTwoCalls | IDEHelper/DbgExprEvaluator.cpp:5777-5796 | on two calls, the left one is made first and its result is the left operand |
| CallReplay.ArgsInOrder | IDEHelper/DbgExprEvaluator.cpp:6833-6855 | every argument has the value of its expression after the calls that the arguments before it make |
| CallReplay.CallOfTwo | IDEHelper/DbgExprEvaluator.cpp:6833-6958 | a call of two arguments makes the calls of the first, those of the second, and then itself with both values in order |
| CallReplay.Evaluation.EvaluateArgs | IDEHelper/DbgExprEvaluator.cpp:6833-6855 | arguments are evaluated left to right |
| CallReplay.ReadyNext | IDEHelper/DbgExprEvaluator.cpp:6888-6958 | after a first part, the round is ready for the next part of direct evaluation |
| CallReplay.DoneRest | IDEHelper/DbgExprEvaluator.cpp:6888-6958 | two parts, each done, make the whole done, also when a call became pending in between |
| Bitfield.Target.StoreValue | IDEHelper/DbgExprEvaluator.cpp:4235-4266 | a store changes exactly the bits of the field and leaves in its argument the number the field then holds: the one in the range of its type that differs from the stored value by a multiple of 2^length, the remainder when it is unsigned; at address zero or a read-only place nothing changes and one failure is reported |
| Bitfield.Target.ReadBitfield | IDEHelper/DbgExprEvaluator.cpp:3177-3195 | the bits of an unsigned field as they are, and of a signed one the number in the range of its type that differs from them by a multiple of 2^length, whatever the word holds above the integer |
| Bitfield.SignExtend | IDEHelper/DbgExprEvaluator.cpp:3186-3193 | masking, testing the top bit and or-ing the upper ones gives the number in the range of the type that differs from the word by a multiple of 2^length |
| Bitfield.NarrowedIsNumber | IDEHelper/DbgExprEvaluator.cpp:3183-3193 | the low bits of a word, less 2^length when the type is signed and the top one is set, are that number |
| Bitfield.FieldIsNumber | IDEHelper/DbgExprEvaluator.cpp:3183-3193 | and those of a field of memory are that of its bits |
| Bitfield.ReadAfterStore | IDEHelper/DbgExprEvaluator.cpp:4235-4256 | a field read after a store is the stored number cut to the field and extended: it differs from what was stored by a multiple of 2^length |
| Bitfield.OtherFieldKept | IDEHelper/DbgExprEvaluator.cpp:4239-4247 | a field that shares no bit reads as before, also at another address or width |
| Bitfield.StoresCommute | IDEHelper/DbgExprEvaluator.cpp:4239-4247 | stores to fields that share no bit give the same memory in either order |
| Bitfield.StoreChangesItsBits | IDEHelper/DbgExprEvaluator.cpp:4239-4247 | clearing, or-ing and writing the bytes back changes the bits of the field and no other |
| TempBuffers.TempBufStack.RunScopes | IDEHelper/COFF.cpp:186-213 | over every nesting of record scopes, no live buffer is handed out again or overwritten, and the stack index returns to its entry value |
| TempBuffers.TempBufStack.RunScope | IDEHelper/COFF.h:399-416 | one scope with everything nested in it, likewise |
| TempBuffers.TempBufStack.Take | IDEHelper/COFF.cpp:186-193 | the next buffer, long enough and none of the live ones |
| TempBuffers.TempBufStack.ReleaseTempBuf | IDEHelper/COFF.cpp:4970-4974 | pops exactly when given the start of the top buffer |
| TempBuffers.TempBufStack.Close | IDEHelper/COFF.h:412-415 | an explicit release and the one at the end of the scope together pop exactly what the scope pushed |
| PagedStreams.CvStreamReader.GetTempPtr | IDEHelper/COFF.cpp:173-214 | the bytes at the pointer are those that shifting and masking by the page bits find, for every page size whose accesses stay in the page table and the file; in place, on the stack or in the reader's buffer; nothing live is overwritten |
| PagedStreams.CvStreamReader.GetPermanentPtr | IDEHelper/COFF.cpp:216-242 | the bytes that shifting and masking find, in place or in memory of its own |
| PagedStreams.CvStreamReader.CopyRange | IDEHelper/COFF.cpp:202-213 | the copy loop delivers the pages that shifting and masking find, piece by piece |
| PagedStreams.CvStreamReader.RangesAgree | IDEHelper/COFF.cpp:173-242 | when the page size is 2 to the page bits, both pointers deliver the slice of the logical stream, for every range on its pages |
| PagedStreams.Streams.ReadersAgree | IDEHelper/COFF.cpp:173-242 | for every stream and every range inside it, both pointers deliver the slice that a segment read of the same range delivers, the bytes at those places in the file, when the page size is a power of two |
| PagedStreams.FindsRangesExact | IDEHelper/COFF.cpp:173-242 | the page-wise reader delivers every range of every page table exactly when the page size is a power of two |
| PagedStreams.ShortPageBits | IDEHelper/COFF.cpp:173-179 | for every other page size, a page table and an offset at which it delivers a wrong byte |
| PagedStreams.PagesOfThree | IDEHelper/COFF.cpp:173-179 | among them pages of three bytes |
| PagedStreams.GatheredIsSlice | IDEHelper/COFF.cpp:202-213 | for a power of two the copy loop yields the logical range |
| PagedStreams.ShiftDivides | IDEHelper/COFF.cpp:205-206 | shifting and masking by the page bits divide by 2 to the page bits |
| PagedStreams.InitStreamRaw | IDEHelper/COFF.cpp:4892-4899 | data of its own becomes one page with 31 page bits |
| PagedStreams.RawRanges | IDEHelper/COFF.cpp:4892-4899 | its ranges are those of the data, whatever the page size |
| PagedStreams.Streams.ReadStream | IDEHelper/COFF.cpp:4901-4932 | a whole stream is its logical contents: byte k comes from place k % pageSize of the page listed k / pageSize slots behind the start of the stream, at that page number times the page size in the file; nothing for an unknown, absent or empty stream |
| PagedStreams.Streams.ReadStreamSegment | IDEHelper/COFF.cpp:4934-4968 | a segment is the same slice the page-wise readers deliver, byte for byte from those places in the file |
| PagedStreams.Streams.OpenReader | IDEHelper/COFF.cpp:4873-4890 | the reader gets the pages of its stream, each at its number times the page size, with the page size and the page bits |
| PagedStreams.Streams.SliceHolds | IDEHelper/COFF.cpp:4916-4968 | the logical contents of a stream range are the bytes at those places |
| PagedStreams.ByteOnPage | IDEHelper/COFF.cpp:4924-4929 | one byte of them |
| PagedStreams.PageAddrIsProduct | IDEHelper/COFF.cpp:4887-4887 | a page starts in the file at its number times the page size |
| PagedStreams.PagesOfStreams | IDEHelper/COFF.cpp:5957-5968 | a stream takes as many pages as its size divided by the page size, rounded up, and starts behind those of the streams before it |
| PagedStreams.Streams.constructor | IDEHelper/COFF.cpp:5957-5968 | start indices are the prefix sums of page counts, and the page bits are those of the largest power of two not above the page size |
| PagedStreams.StreamsDisjoint | IDEHelper/COFF.cpp:5960-5965 | no slot of the page list belongs to two streams |
| PagedStreams.ComputePageBits | IDEHelper/COFF.cpp:6091-6097 | the bit count is that of the largest power of two not above the page size |
| PagedStreams.PageBitsExact | IDEHelper/COFF.cpp:6091-6097 | k >> bits is k / size and k & (2^bits - 1) is k % size for all k if and only if the size is a power of two |
| PagedStreams.SliceOfWhole | IDEHelper/COFF.cpp:4934-4968 | a segment is the same range of the whole stream |
| PagedStreams.SliceOnePage | IDEHelper/COFF.cpp:4924-4929 | a range that stays on one page is a range of the file |
| PagedStreams.PageIsQuotient | IDEHelper/COFF.cpp:4951-4953 | page number and place on the page, as the whole-stream and segment reads compute them, are quotient and remainder |
| CachedStream.CachedDataStream.PerformAll | BeefySysLib/CachedDataStream.cpp:17-79 | any sequence of calls and a final flush gives the results and leaves the bytes and position of the unbuffered stream, for an overwriting and for an inserting sink |
| CachedStream.CachedDataStream.Perform | BeefySysLib/CachedDataStream.cpp:17-79 | one call does |
| CachedStream.CachedDataStream.Write | BeefySysLib/CachedDataStream.cpp:45-63 | the bytes are taken over in order across any number of flushes; the result is always 0 |
| CachedStream.CachedDataStream.Flush | BeefySysLib/CachedDataStream.cpp:17-25 | the sink becomes what the unbuffered stream would be |
| CachedStream.CachedDataStream.Read | BeefySysLib/CachedDataStream.cpp:39-43 | reads what the unbuffered stream would |
| CachedStream.CachedDataStream.GetPos | BeefySysLib/CachedDataStream.cpp:65-68 | the position of the unbuffered stream, without a flush |
| CachedStream.MemoryStream.Write | BeefySysLib/MemStream.cpp:55-60 | the bytes can be read back where they were written, those before stay, and those behind are overwritten or moved |
| CachedStream.WriteSplit | BeefySysLib/MemStream.cpp:123-128 | two writes in a row are one write of both, overwriting or inserting |
| BitReader.DataStream.ReadUBits | BeefySysLib/DataStream.cpp:160-185 | the next bits of the stream, least significant first, whatever window is cached, and the position moves by as many; the precondition is exactly that each refill finds four bytes |
| BitReader.WordRead | BeefySysLib/DataStream.cpp:160-185 | what a read returns: the number that fewer than 32 bits make, and of 32 the one in the range of a signed int that differs from it by a multiple of 2^32 |
| BitReader.DataStream.CopyBits | BeefySysLib/DataStream.cpp:167-174 | the window gives as many of the missing bits as it has, put above those in hand |
| BitReader.DataStream.SeekBits | BeefySysLib/DataStream.cpp:187-190 | moves the position only; the window stays honest |
| BitReader.DataStream.SyncBitPos | BeefySysLib/DataStream.cpp:144-147 | the first bit of the byte position |
| BitReader.DataStream.SyncBytePos | BeefySysLib/DataStream.cpp:149-152 | the first byte that starts at or after the bit position |
| ByteBits.FieldSplits | BeefySysLib/DataStream.cpp:160-185 | one read of a + b bits has the read of a in its low bits and the read of b above |
| ByteBits.FieldJoins | BeefySysLib/DataStream.cpp:171-173 | and the two reads make up the one |
| BitReader.WindowPiece | BeefySysLib/DataStream.cpp:171-171 | shifting and masking the cached word gives the stream's bits |
| BitReader.MasksArePowers | BeefySysLib/DataStream.cpp:156-158 | every entry of the mask table has exactly its low bits set |
| Varint.EncodeAllJoins | BeefySysLib/Common.cpp:516-527 | a list is encoded by its encodings one after the other |
| Varint.ListRoundTrip | BeefySysLib/Common.cpp:491-527 | the joined encodings of any list of numbers, of whatever size, decode to the list in the unbounded reading and end with it |
| Varint.DecodeList | BeefySysLib/Common.cpp:498-511 | repeated 64-bit decoding over the joined encodings of any list of 64-bit numbers gives their signed values and stops at the end |
| Varint.RoundTrip | BeefySysLib/Common.cpp:498-527 | one number: the value comes back and the pointer stops right behind |
| Varint.PrefixFree | BeefySysLib/Common.cpp:516-527 | no encoding is a proper prefix of another |
| Varint.EncodedLength | BeefySysLib/Common.cpp:516-527 | a 64-bit number takes one to thirteen characters, and at most k exactly when it has at most 5k bits |
| Varint.ReEncoded | BeefySysLib/Common.cpp:491-527 | encoding what the 64-bit decoder keeps gives the text back exactly when it is in the alphabet, has no needless zero group, and its thirteenth group, if any, is below 16 |
| Varint.WrappingText | BeefySysLib/Common.cpp:498-511 | every canonical text of a 65-bit number wraps and is not given back |
| Varint.NeedlessGroup | BeefySysLib/Common.cpp:498-511 | a text with a needless zero group is read as zero, which is written otherwise |
| Groups.Fits64 | BeefySysLib/Common.cpp:498-511 | up to thirteen groups fit 64 bits exactly when a thirteenth is below 16 |
| Varint.StringBuffer.EncodeULEB32 | BeefySysLib/Common.cpp:516-527 | appends the encoding to the buffer |
| Varint.DecodeULEB32 | BeefySysLib/Common.cpp:498-511 | returns the sum of the groups modulo 2^64 as a signed number and moves behind the last |
| Varint.SignedRest | BeefySysLib/Common.cpp:498-511 | that is the number in the range of a signed 64-bit integer that differs from the sum by a multiple of 2^64 |
| Base64.TablesInvert | BeefySysLib/Common.cpp:490-515 | the two tables undo each other on the alphabet |
| Base64.LettersInOrder | BeefySysLib/Common.cpp:512-515 | the alphabet starts with a to z and A to Z |
| Base64.OthersInOrder | BeefySysLib/Common.cpp:512-515 | then come the ten digits, the point and the underscore |
| Base64.OtherValues | BeefySysLib/Common.cpp:490-497 | which the reverse table has at the same values |
| Groups.GroupsAgain | BeefySysLib/Common.cpp:516-527 | groups that were read are written again exactly when they were minimal |
| FramePacing.ErrorBounded | BeefySysLib/BFApp.cpp:251-269 | in every run from the start whose refresh periods do not exceed a longest one, the carried error stays from -49 of it up to below half of it |
| FramePacing.TimeConserved | BeefySysLib/BFApp.cpp:251-269 | in every run, time handed out + carried error + what the fade dropped = elapsed time |
| FramePacing.HandedOutTracksClock | BeefySysLib/BFApp.cpp:251-269 | the handed-out time is never half a period behind the clock, nor more than 49 ahead, but for the fade |
| FramePacing.EarlyWakesOverdraw | BeefySysLib/BFApp.cpp:259-269 | a run that closes in on the lower bound, geometrically |
| FramePacing.OverdrawnTimeout | BeefySysLib/BFApp.cpp:181-203 | a run that gets there: six frames woken at once, then a wait that times out after four periods and a millisecond, is handed negative time |
| FramePacing.NegativeTime | BeefySysLib/BFApp.cpp:258-265 | a frame is handed negative time if and only if nothing woke it and more than half a period is owed when paced, or anything when not |
| FramePacing.HandedOutNotNegative | BeefySysLib/BFApp.cpp:251-269 | when every wait that timed out lasted half a period at least, no run is handed negative time as a whole |
| FramePacing.ShortTimeout | BeefySysLib/BFApp.cpp:251-269 | without that, a run of two frames with a growing period that is |
| FramePacing.PassKeepsBounds | BeefySysLib/BFApp.cpp:251-269 | one pass keeps the bounds, and a woken frame is handed at least one refresh |
| FramePacing.NearestIsFloor | BeefySysLib/BFApp.cpp:261-261 | the rounding of the quotient is the whole number of periods nearest, halves up |
| FrameScheduler.App.Process | BeefySysLib/BFApp.cpp:143-363 | over every nesting of calls: frames never overlap, a call from inside a frame or its wait changes nothing, a call from outside runs exactly its own frame or those its message pump ran instead and leaves no frame open; at one refresh rate the count stays the time it was given times that rate; the client's count never turns negative at two refreshes a second or more |
| FrameScheduler.App.RunCalls | BeefySysLib/BFApp.cpp:213-221 | any sequence of calls, likewise |
| FrameScheduler.App.Init | BeefySysLib/HeadlessApp.cpp:6-8 | the application starts running |
| FrameScheduler.App.Run | BeefySysLib/HeadlessApp.cpp:19-26 | the main loop makes one frame after another until the application stops, with the guarantees of each call |
| FrameScheduler.App.Frame | BeefySysLib/BFApp.cpp:221-363 | one frame makes at most the limit of updates, idles only without any, draws after any of them and after a signaled wake, and opens and closes once; before them the count rises by the time handed out times the refresh rate |
| FrameScheduler.App.Updates | BeefySysLib/BFApp.cpp:276-340 | full and partial updates together stay within the limit, a frame with any raises the slow-start count, and the frame is a turn of the runs below |
| FrameScheduler.App.CatchUp | BeefySysLib/BFApp.cpp:315-322 | exactly the least number of full updates that comes level, cut by the limit, which is looked at after the first, and by the end of the application |
| FrameScheduler.App.PartialStep | BeefySysLib/BFApp.cpp:325-337 | a partial update exactly when the rates differ, the fraction is in range and the limit allows one more; it brings the client level |
| FrameScheduler.App.FinishFrame | BeefySysLib/BFApp.cpp:342-362 | idles, draws and closes the frame |
| FrameScheduler.App.WaitForDisplay | BeefySysLib/BFApp.cpp:181-211 | calls from the wait change nothing; a signaled or vertical-blank wake is paced, and unthrottled frames never are |
| FrameScheduler.App.TakeTime | BeefySysLib/BFApp.cpp:251-269 | the time handed out is that of the run's specification, and so is the error carried on |
| FrameScheduler.App.HandOut | BeefySysLib/BFApp.cpp:278-290 | the count rises by the refresh rate in every second it is given, and by one in every millisecond when there is no rate; paced time is given whole, otherwise whole periods go through the accumulator, nothing is lost, and less than a period stays |
| FrameScheduler.App.Accumulate | BeefySysLib/BFApp.cpp:285-289 | takes whole periods out until less than one is left, and the count rises by their time times the refresh rate |
| FrameScheduler.App.CountTracksTime | BeefySysLib/BFApp.cpp:223-290 | over every run at one refresh rate, the count is the time handed out, but for what is in the accumulator, times the rate |
| FrameScheduler.CountsOf | BeefySysLib/BFApp.cpp:223-224 | dividing by the milliseconds of a count multiplies by the refresh rate |
| FrameScheduler.RateOfDisplay | BeefySysLib/BFApp.cpp:149-158 | the pacer's rate counts before the window's, and 60 stands in when neither is known |
| FrameScheduler.PassTimes | BeefySysLib/BFApp.cpp:159-159 | a period is as long as so many of them make a second |
| FrameScheduler.SplitsATenthOff | BeefySysLib/BFApp.cpp:325-326 | a paced frame splits ticks exactly when the display is more than a tenth off the refresh rate, either way |
| FrameScheduler.PartialAmounts | BeefySysLib/BFApp.cpp:328-332 | a twentieth of an update is too little for a partial one, but enough when nothing throttles; a whole one is too much |
| FrameScheduler.IdleOrDraw | BeefySysLib/BFApp.cpp:342-351 | a running frame idles or draws, and both only when a draw was asked for; a signaled one draws |
| FrameScheduler.App.WholeRefreshes | BeefySysLib/BFApp.cpp:261-264 | the nearest whole number of periods, and one at least for a woken frame |
| FrameScheduler.BumpRaisesFloor | BeefySysLib/BFApp.cpp:319-319 | a full update raises the floor of the count by exactly one if and only if the count is not negative or whole, and by at most two |
| FrameScheduler.BumpsRaiseFloor | BeefySysLib/BFApp.cpp:315-322 | from a count that is not negative, k full updates raise the floor by exactly k |
| FrameScheduler.RoundsAreCountsBehind | BeefySysLib/BFApp.cpp:315-322 | one update for each whole count behind if and only if the count is at least -1 or at most one is missing |
| FrameScheduler.OneUpdateACount | BeefySysLib/BFApp.cpp:309-322 | in every run of frames with targets that are not negative, at whatever rates, a frame takes one update for each whole count it is behind |
| FrameScheduler.ClientBounded | BeefySysLib/BFApp.cpp:309-337 | in every such run the client stays at -1 or above, and at zero or above when no rate is below two |
| FrameScheduler.SkipTakesBothRates | BeefySysLib/BFApp.cpp:309-322 | a skipped count takes a frame below two refreshes a second and a later one above two |
| FrameScheduler.OneRateNeverSkips | BeefySysLib/BFApp.cpp:309-322 | in every such run at one rate, each full update raises the floor of the count by exactly one |
| FrameScheduler.SkipsExactly | BeefySysLib/BFApp.cpp:309-322 | an update of a frame skips a count if and only if an earlier frame left the client between -1 and 0, the target has got to one, and it is not far enough ahead to be followed |
| FrameScheduler.RisingRateSkips | BeefySysLib/BFApp.cpp:309-322 | a run that skips a count: the rate rises from one to sixty between two frames |
| FrameScheduler.FollowedCount | BeefySysLib/BFApp.cpp:309-313 | one following keeps the count at -1 or above, from where updates equal counts behind |
| FrameScheduler.UpdateLimitExact | BeefySysLib/BFApp.cpp:276-322 | the update limit is the smaller of both settings exactly when that is one at least; with none allowed one is still made |
| FrameScheduler.SyncedNotNegative | BeefySysLib/BFApp.cpp:309-313 | following turns no count negative if and only if there are at least two refreshes a second |
| FrameScheduler.SyncedNegative | BeefySysLib/BFApp.cpp:309-313 | following turns a count negative exactly when it takes place towards a target below one |

## Left out

- Minimality of the script: the reverse half breaks ties with a strict `<` (`BfDiff.cpp:262`), so its frontier need not be furthest-reaching, and both halves test against columns outside the rectangle; a shortest script is claimed only where one range is contained in the other (`Division.AllJoined`).
- Division.HeadAndTailKept: a head and a tail that do not cover the shorter range. They can be lost (`TailLost.TailLost`), and how many other pairs are joined in their place is not stated; `FirstMeeting.JoinedIsSettled` only says that the ranges settle it.
- The move commands and the other disabled code of `BfDiff.cpp`, and the unused text hash.
- The text format of the printed operations, and 32-bit overflow of positions in texts of 2 GB and more: an operation is a value with its numbers.
- The line hash itself: it is an arbitrary function of the line's characters.
- The engines record their emissions in a log that is handed to the overrides of `EmitEntryEqual`, `EmitEntryDelete` and `EmitEntryInsert` once the engine is done; the overrides do not influence the engine, so only the interleaving in time is lost.
- `CalcMiddleSnake` works on the two ranges cut out as sequences rather than through offsets; a hash group is known by its index in the table rather than by its address.
- Texts are sequences of characters without a zero, and a read at the end yields the terminator.
- CallReplay: target memory, operators, casts and return values are functions the calls do not disturb, except that a return value may depend on all calls before. Returned structures, failed start addresses, registers, and errors that forbid calls from the start are not modelled.
- Bitfield: fields of 1 to 63 bits inside an integer of at most 8 bytes; values in registers and property results are not modelled, and target memory is one range of readable and writable bytes.
- TempBuffers: growing the outer array is assumed to keep the inner buffers in place, and reallocating a buffer is modelled by a new one in its slot.
- PagedStreams: mapping of the file, and the formats of headers and records. A pointer is a place in the mapped file or in a buffer; what the reader does when shifting leads out of the page table or the file is not modelled.
- CachedStream: `FileStream`, the failing reads of `SafeMemStream`, the byte-wise `Write` of `DynMemStream`, and calls whose accesses leave the sink's buffer.
- BitReader.DataStream.ReadUBits: streams that end inside a refill, and positions beyond 32 bits. Results are stated as the signed number of a 32-bit pattern.
- Varint.DecodeULEB32: encodings of more than 13 groups, whose shift leaves the width, and the character 255, which lies outside the table.
- FrameScheduler: clocks, sleeps, the pacer objects and the vertical-blank test counters (`BFApp.cpp:229-249`). Whether a wait is signaled, the time since the last wake, the settings and the end of the application come with each call; arithmetic is exact rather than in `float`.
- FrameScheduler.App.Frame: the calls that updates and draws make all come from one list, which matters to nothing because calls from inside a frame return at once.
- The rest of `COFF.cpp`, `DbgExprEvaluator.cpp` and `BeefySysLib`: record parsing, name lookup, visualizers, windows, sound, path helpers and the like are not part of this model.
