/** Cutting a text into lines and grouping the lines of both texts by hash. */
module Lines {
  /** mDuplicateLineData is the number of the group record, standing for the pointer to it. */
  datatype LineData = LineData(mBufStart: int, mBufLength: int, mDuplicateLineData: nat)

  /** The line numbers of one group, for text 1 and for text 2. */
  datatype DuplicateLineData = DuplicateLineData(mRefs0: seq<int>, mRefs1: seq<int>)

  // ----- what the lines of a text are -----

  /** How much of the text ends up in lines. A text that ends in '\r' loses what follows its last '\n'. */
  function Covered(text: string): (n: nat)
    ensures n <= |text| && (n < |text| ==> '\n' !in text[n..] && text[|text| - 1] == '\r')
    ensures 0 < n < |text| ==> text[n - 1] == '\n'
  {
    if text == "" || text[|text| - 1] != '\r' then |text| else AfterLastNewline(text)
  }

  function AfterLastNewline(text: string): (n: nat)
    ensures n <= |text| && '\n' !in text[n..] && (n > 0 ==> text[n - 1] == '\n')
  {
    if text == "" then 0
    else if text[|text| - 1] == '\n' then |text|
    else AfterLastNewline(text[..|text| - 1])
  }

  /** [start, start + len) is a line: only its last character may be a newline, and it ends in one or at the end. */
  ghost predicate IsLine(text: string, start: int, len: int) {
    && 0 <= start && 0 < len && start + len <= |text|
    && '\n' !in text[start..start + len - 1]
    && (text[start + len - 1] == '\n' || start + len == |text|)
  }

  function LineEnd(l: LineData): int {
    l.mBufStart + l.mBufLength
  }

  /** Where line n begins; for the number of lines, where the last line ends. */
  function LinePos(lines: seq<LineData>, n: int): int
    requires 0 <= n <= |lines|
  {
    if n < |lines| then lines[n].mBufStart else if n == 0 then 0 else LineEnd(lines[n - 1])
  }

  /** The records are the lines of the text, tiling its first `end` characters without gap or overlap. */
  ghost predicate Tiles(text: string, lines: seq<LineData>, end: int) {
    && LinePos(lines, 0) == 0 && LinePos(lines, |lines|) == end
    && (forall i | 0 <= i < |lines| :: Tile(text, lines, i))
  }

  ghost predicate Tile(text: string, lines: seq<LineData>, i: int)
    requires 0 <= i < |lines|
  {
    IsLine(text, lines[i].mBufStart, lines[i].mBufLength) && LinePos(lines, i + 1) == LineEnd(lines[i])
  }

  lemma TilesAppend(text: string, lines: seq<LineData>, end: int, l: LineData)
    requires Tiles(text, lines, end)
    requires l.mBufStart == end && IsLine(text, end, l.mBufLength)
    ensures Tiles(text, lines + [l], LineEnd(l))
  {
    var lines' := lines + [l];
    forall i | 0 <= i < |lines'| ensures Tile(text, lines', i) {
      if i < |lines| {
        assert Tile(text, lines, i);
      }
    }
    assert |lines| > 0 ==> Tile(text, lines, 0);
  }

  lemma TileAt(text: string, lines: seq<LineData>, end: int, i: int)
    requires Tiles(text, lines, end) && 0 <= i < |lines|
    ensures LinePos(lines, i + 1) == LinePos(lines, i) + lines[i].mBufLength && lines[i].mBufLength > 0
    ensures LinePos(lines, i) == lines[i].mBufStart >= 0 && LineEnd(lines[i]) <= |text|
  {
    assert Tile(text, lines, i);
    if i > 0 {
      assert Tile(text, lines, i - 1);
    }
  }

  /** Line positions rise with every line. */
  lemma {:induction false} LinePosRises(text: string, lines: seq<LineData>, end: int, i: int, j: int)
    requires Tiles(text, lines, end) && 0 <= i <= j <= |lines|
    ensures 0 <= LinePos(lines, i) && LinePos(lines, i) + (j - i) <= LinePos(lines, j)
    decreases j - i
  {
    if i < j {
      TileAt(text, lines, end, j - 1);
      LinePosRises(text, lines, end, i, j - 1);
    } else if 0 < i {
      TileAt(text, lines, end, i - 1);
    }
  }

  lemma LinePosInText(text: string, lines: seq<LineData>, end: int, j: int)
    requires Tiles(text, lines, end) && 0 <= j <= |lines|
    ensures 0 <= LinePos(lines, j) <= end <= |text|
  {
    LinePosRises(text, lines, end, j, |lines|);
    if |lines| > 0 {
      TileAt(text, lines, end, |lines| - 1);
    }
  }

  lemma NoNewlineInside(text: string, start: int, n: int, m: int)
    requires IsLine(text, start, n) && 0 < m < n
    ensures text[start + m - 1] != '\n'
  {
    assert text[start..start + n - 1][m - 1] == text[start + m - 1];
  }

  /** Two lines of a text that begin at the same place are the same. */
  lemma SameLine(text: string, start: int, m: int, n: int)
    requires IsLine(text, start, m) && IsLine(text, start, n)
    ensures m == n
  {
    if m < n {
      NoNewlineInside(text, start, n, m);
    } else if n < m {
      NoNewlineInside(text, start, m, n);
    }
  }

  /** A text is tiled by its lines in one way only. */
  lemma {:induction false} TilesUnique(text: string, la: seq<LineData>, lb: seq<LineData>, end: int, i: int)
    requires Tiles(text, la, end) && Tiles(text, lb, end) && 0 <= i <= |la| && i <= |lb|
    ensures LinePos(la, i) == LinePos(lb, i)
    ensures i < |la| && i < |lb| ==> LineEnd(la[i]) == LineEnd(lb[i])
    ensures i == |la| || i == |lb| ==> |la| == |lb|
  {
    if i > 0 {
      TilesUnique(text, la, lb, end, i - 1);
      TileAt(text, la, end, i - 1);
      TileAt(text, lb, end, i - 1);
    }
    if i < |la| && i < |lb| {
      assert Tile(text, la, i) && Tile(text, lb, i);
      SameLine(text, la[i].mBufStart, la[i].mBufLength, lb[i].mBufLength);
    } else if i < |la| {
      LinePosRises(text, la, end, i, |la|);
    } else if i < |lb| {
      LinePosRises(text, lb, end, i, |lb|);
    }
  }

  // ----- the groups -----

  function Keys(lines: seq<LineData>): seq<nat> {
    seq(|lines|, i requires 0 <= i < |lines| => lines[i].mDuplicateLineData)
  }

  function Refs(data: seq<DuplicateLineData>, fileNum: int): seq<seq<int>> {
    seq(|data|, i requires 0 <= i < |data| => if fileNum == 0 then data[i].mRefs0 else data[i].mRefs1)
  }

  /** `refs[id]` lists exactly the positions of `keys` that hold `id`, in order. */
  ghost predicate RefsOk(keys: seq<nat>, refs: seq<seq<int>>) {
    && (forall i | 0 <= i < |keys| :: keys[i] < |refs|)
    && (forall id | 0 <= id < |refs| :: RefsOf(keys, id, refs[id]))
  }

  ghost predicate RefsOf(keys: seq<nat>, id: nat, r: seq<int>) {
    && (forall i, j | 0 <= i < j < |r| :: r[i] < r[j])
    && (forall i | 0 <= i < |r| :: 0 <= r[i] < |keys| && keys[r[i]] == id)
    && (forall l | 0 <= l < |keys| && keys[l] == id :: l in r)
  }

  lemma RefsGrow(keys: seq<nat>, refs: seq<seq<int>>)
    requires RefsOk(keys, refs)
    ensures RefsOk(keys, refs + [[]])
  {
    forall id | 0 <= id < |refs| + 1 ensures RefsOf(keys, id, (refs + [[]])[id]) {
      if id < |refs| {
        assert RefsOf(keys, id, refs[id]);
      }
    }
  }

  lemma RefsAppend(keys: seq<nat>, refs: seq<seq<int>>, id: nat)
    requires RefsOk(keys, refs) && id < |refs|
    ensures RefsOk(keys + [id], refs[id := refs[id] + [|keys|]])
  {
    var refs' := refs[id := refs[id] + [|keys|]];
    forall i | 0 <= i < |refs| ensures RefsOf(keys + [id], i, refs'[i]) {
      assert RefsOf(keys, i, refs[i]);
      forall l | 0 <= l < |keys| + 1 && (keys + [id])[l] == i ensures l in refs'[i] {
        if l == |keys| {
          assert refs'[i][|refs[i]|] == l;
        } else {
          assert l in refs[i];
          assert refs[i] <= refs'[i];
        }
      }
    }
  }

  function LineText(text: string, l: LineData): string
    requires IsLine(text, l.mBufStart, l.mBufLength)
  {
    text[l.mBufStart..LineEnd(l)]
  }

  /** The lines carry the groups `m` gives their hashes. */
  ghost predicate Grouped(hash: string -> int, text: string, lines: seq<LineData>, m: map<int, nat>) {
    forall i | 0 <= i < |lines| :: HasGroup(hash, text, lines[i], m)
  }

  ghost predicate HasGroup(hash: string -> int, text: string, l: LineData, m: map<int, nat>) {
    && IsLine(text, l.mBufStart, l.mBufLength)
    && hash(LineText(text, l)) in m && m[hash(LineText(text, l))] == l.mDuplicateLineData
  }

  lemma GroupedAppend(hash: string -> int, text: string, lines: seq<LineData>, l: LineData,
                      m: map<int, nat>, m': map<int, nat>)
    requires Grouped(hash, text, lines, m) && HasGroup(hash, text, l, m')
    requires forall h | h in m :: h in m' && m'[h] == m[h]
    ensures Grouped(hash, text, lines + [l], m')
  {
    forall i | 0 <= i < |lines| + 1 ensures HasGroup(hash, text, (lines + [l])[i], m') {
      if i < |lines| {
        assert HasGroup(hash, text, lines[i], m);
        var h := hash(LineText(text, lines[i]));
        assert h in m && h in m';
      }
    }
  }

  /** A character of a NUL-terminated buffer. */
  function CharAt(text: string, i: nat): char
    requires i <= |text|
  {
    if i < |text| then text[i] else '\0'
  }

  /** The groups of both texts, found by line hash. */
  class DuplicateLineDataMap {
    var mMap: map<int, nat>
    var mData: seq<DuplicateLineData>

    /** Group numbers are valid, and different hashes have different groups. */
    ghost predicate Valid()
      reads this
    {
      && (forall h | h in mMap :: mMap[h] < |mData|)
      && (forall h, h' | h in mMap && h' in mMap && mMap[h] == mMap[h'] :: h == h')
    }

    constructor ()
      ensures Valid() && mMap == map[] && mData == []
    {
      mMap, mData := map[], [];
    }

    /** Finds or creates the group of a hash, and adds line `lineNum` of text `fileNum` to it. */
    method AddLine(lineHash: int, fileNum: int, lineNum: nat, ghost keys: seq<nat>, ghost otherKeys: seq<nat>)
      returns (id: nat)
      requires Valid() && (fileNum == 0 || fileNum == 1) && lineNum == |keys|
      requires RefsOk(keys, Refs(mData, fileNum))
      requires RefsOk(otherKeys, Refs(mData, 1 - fileNum))
      modifies this
      ensures Valid() && lineHash in mMap && mMap[lineHash] == id
      ensures mMap == old(mMap)[lineHash := id] && (lineHash in old(mMap) ==> mMap == old(mMap))
      ensures RefsOk(keys + [id], Refs(mData, fileNum))
      ensures RefsOk(otherKeys, Refs(mData, 1 - fileNum))
    {
      if lineHash !in mMap {
        RefsGrow(keys, Refs(mData, fileNum));
        RefsGrow(otherKeys, Refs(mData, 1 - fileNum));
        ghost var refs, otherRefs := Refs(mData, fileNum) + [[]], Refs(mData, 1 - fileNum) + [[]];
        mMap := mMap[lineHash := |mData|];
        mData := mData + [DuplicateLineData([], [])];
        assert Refs(mData, fileNum) == refs && Refs(mData, 1 - fileNum) == otherRefs;
      }
      id := mMap[lineHash];
      RefsAppend(keys, Refs(mData, fileNum), id);
      ghost var refs := Refs(mData, fileNum)[id := Refs(mData, fileNum)[id] + [lineNum]];
      ghost var otherRefs := Refs(mData, 1 - fileNum);
      var d := mData[id];
      mData := mData[id := if fileNum == 0 then d.(mRefs0 := d.mRefs0 + [lineNum]) else d.(mRefs1 := d.mRefs1 + [lineNum])];
      assert Refs(mData, fileNum) == refs && Refs(mData, 1 - fileNum) == otherRefs;
    }

    /** What is known after cutting off `lines`. */
    ghost predicate Cut(hash: string -> int, text: string, fileNum: int, lines: seq<LineData>, otherKeys: seq<nat>)
      reads this
    {
      && Valid() && Grouped(hash, text, lines, mMap)
      && RefsOk(Keys(lines), Refs(mData, fileNum))
      && RefsOk(otherKeys, Refs(mData, 1 - fileNum))
    }

    /** Records the line [lineStart, lineEnd]. */
    method CloseLine(hash: string -> int, text: string, fileNum: int, lines: seq<LineData>, lineStart: nat, lineEnd: nat,
                     ghost otherKeys: seq<nat>) returns (r: seq<LineData>)
      requires (fileNum == 0 || fileNum == 1) && Cut(hash, text, fileNum, lines, otherKeys)
      requires lineStart <= lineEnd < |text| && Tiles(text, lines, lineStart)
      requires IsLine(text, lineStart, lineEnd - lineStart + 1)
      modifies this
      ensures Cut(hash, text, fileNum, r, otherKeys)
      ensures forall h | h in old(mMap) :: h in mMap && mMap[h] == old(mMap)[h]
      ensures Tiles(text, r, lineEnd + 1)
    {
      var lineHash := hash(text[lineStart..lineEnd + 1]);
      var id := AddLine(lineHash, fileNum, |lines|, Keys(lines), otherKeys);
      var lineData := LineData(lineStart, lineEnd - lineStart + 1, id);
      TilesAppend(text, lines, lineStart, lineData);
      r := lines + [lineData];
      assert Keys(r) == Keys(lines) + [id];
      GroupedAppend(hash, text, lines, lineData, old(mMap), mMap);
    }

    /** Cuts a text into its lines. */
    method ProcessText(hash: string -> int, text: string, fileNum: int, ghost otherKeys: seq<nat>)
      returns (lines: seq<LineData>)
      requires '\0' !in text
      requires (fileNum == 0 || fileNum == 1) && Cut(hash, text, fileNum, [], otherKeys)
      modifies this
      ensures Cut(hash, text, fileNum, lines, otherKeys)
      ensures forall h | h in old(mMap) :: h in mMap && mMap[h] == old(mMap)[h]
      ensures Tiles(text, lines, Covered(text))
    {
      lines := [];
      var lineStart, i := 0, 0;
      while true
        invariant 0 <= lineStart <= i <= |text| && '\n' !in text[lineStart..i]
        invariant lineStart == if i < |text| then AfterLastNewline(text[..i]) else Covered(text)
        invariant Cut(hash, text, fileNum, lines, otherKeys)
        invariant forall h | h in old(mMap) :: h in mMap && mMap[h] == old(mMap)[h]
        invariant Tiles(text, lines, lineStart)
        decreases |text| - i
      {
        var c := CharAt(text, i);
        if c == '\0' {
          break;
        }
        assert text[..i + 1][..i] == text[..i] && (i + 1 == |text| ==> text[..i + 1] == text);
        if c != '\r' && (c == '\n' || CharAt(text, i + 1) == '\0') {
          lines := CloseLine(hash, text, fileNum, lines, lineStart, i, otherKeys);
          lineStart := i + 1;
        }
        i := i + 1;
      }
    }
  }
}
