/** The write-behind buffer over a memory stream, and the streams it may sit on. */
module CachedStream {

  type Byte = bv8

  /** MemStream overwrites in a fixed buffer; DynMemStream inserts into a growing one. */
  datatype Kind = Overwriting | Inserting

  // ----- unbuffered streams -----

  /** The bytes and the position of an unbuffered stream. */
  datatype State = State(data: seq<Byte>, pos: int)

  /** A write that stays inside the buffer it goes to. */
  predicate CanWrite(kind: Kind, s: State, n: nat) {
    0 <= s.pos && s.pos + (if kind == Overwriting then n else 0) <= |s.data|
  }

  function Written(kind: Kind, s: State, bytes: seq<Byte>): State
    requires CanWrite(kind, s, |bytes|)
  {
    var rest := if kind == Overwriting then s.pos + |bytes| else s.pos;
    State(s.data[..s.pos] + bytes + s.data[rest..], s.pos + |bytes|)
  }

  /** Two writes in a row are one write of both. */
  lemma WriteSplit(kind: Kind, s: State, first: seq<Byte>, second: seq<Byte>)
    requires CanWrite(kind, s, |first| + |second|)
    ensures CanWrite(kind, s, |first|) && CanWrite(kind, Written(kind, s, first), |second|)
    ensures Written(kind, Written(kind, s, first), second) == Written(kind, s, first + second)
  {
    var mid := Written(kind, s, first);
    assert mid.data[..mid.pos] == s.data[..s.pos] + first;
    assert s.data[..s.pos] + first + second == s.data[..s.pos] + (first + second);
    if kind == Overwriting {
      assert mid.data[mid.pos + |second|..] == s.data[s.pos + |first| + |second|..];
    } else {
      assert mid.data[mid.pos..] == s.data[s.pos..];
    }
  }

  /** MemStream and DynMemStream. */
  class MemoryStream {
    const mKind: Kind
    var mData: seq<Byte>
    var mPos: int

    constructor (kind: Kind, data: seq<Byte>)
      ensures mKind == kind && mData == data && mPos == 0
    {
      mKind, mData, mPos := kind, data, 0;
    }

    ghost function Snap(): State
      reads this
    {
      State(mData, mPos)
    }

    method Read(size: nat) returns (bytes: seq<Byte>)
      requires 0 <= mPos && mPos + size <= |mData|
      modifies this
      ensures bytes == old(mData)[old(mPos)..old(mPos) + size] && mData == old(mData) && mPos == old(mPos) + size
    {
      bytes := mData[mPos..mPos + size];
      mPos := mPos + size;
    }

    /** The bytes stand at the position, what was before them stays, and what was behind is overwritten or moved. */
    method Write(bytes: seq<Byte>)
      requires CanWrite(mKind, Snap(), |bytes|)
      modifies this
      ensures mPos == old(mPos) + |bytes| && mPos <= |mData| && mData[old(mPos)..mPos] == bytes
      ensures mData[..old(mPos)] == old(mData)[..old(mPos)]
      ensures mData[mPos..] == old(mData)[if mKind == Overwriting then mPos else old(mPos)..]
      ensures Snap() == Written(mKind, old(Snap()), bytes)
    {
      mData := mData[..mPos] + bytes + mData[if mKind == Overwriting then mPos + |bytes| else mPos..];
      mPos := mPos + |bytes|;
    }

    method Seek(size: int)
      modifies this
      ensures mData == old(mData) && mPos == old(mPos) + size
    {
      mPos := mPos + size;
    }

    method SetPos(pos: int)
      modifies this
      ensures mData == old(mData) && mPos == pos
    {
      mPos := pos;
    }
  }

  // ----- the buffered stream -----

  const CHUNK_SIZE: nat := 8192

  class CachedDataStream {
    const mStream: MemoryStream
    const mChunk: array<Byte>
    /** mDataPtr - mChunk: how much of the chunk is waiting. */
    var mCachedBytes: nat

    ghost predicate Valid()
      reads this, mStream, mChunk
    {
      && mChunk.Length == CHUNK_SIZE && mCachedBytes <= CHUNK_SIZE
      && (mCachedBytes > 0 ==> CanWrite(mStream.mKind, mStream.Snap(), mCachedBytes))
    }

    /** The stream as it would be without the buffer. */
    ghost function Unbuffered(): State
      reads this, mStream, mChunk
      requires Valid()
    {
      if mCachedBytes == 0 then mStream.Snap() else Written(mStream.mKind, mStream.Snap(), mChunk[..mCachedBytes])
    }

    constructor (stream: MemoryStream)
      ensures Valid() && mStream == stream && fresh(mChunk) && Unbuffered() == stream.Snap()
    {
      mStream := stream;
      mChunk := new Byte[CHUNK_SIZE];
      mCachedBytes := 0;
    }

    method Flush()
      requires Valid()
      modifies this, mStream
      ensures Valid() && mCachedBytes == 0 && Unbuffered() == old(Unbuffered()) == mStream.Snap()
    {
      if mCachedBytes > 0 {
        mStream.Write(mChunk[..mCachedBytes]);
        mCachedBytes := 0;
      }
    }

    method GetSize() returns (size: int)
      requires Valid()
      modifies this, mStream
      ensures Valid() && Unbuffered() == old(Unbuffered()) && size == |Unbuffered().data|
    {
      Flush();
      size := |mStream.mData|;
    }

    method Eof() returns (eof: bool)
      requires Valid()
      modifies this, mStream
      ensures Valid() && Unbuffered() == old(Unbuffered()) && eof == (Unbuffered().pos >= |Unbuffered().data|)
    {
      Flush();
      eof := mStream.mPos >= |mStream.mData|;
    }

    method Read(size: nat) returns (bytes: seq<Byte>)
      requires Valid() && 0 <= Unbuffered().pos && Unbuffered().pos + size <= |Unbuffered().data|
      modifies this, mStream
      ensures Valid()
      ensures var s := old(Unbuffered());
              bytes == s.data[s.pos..s.pos + size] && Unbuffered() == s.(pos := s.pos + size)
    {
      Flush();
      bytes := mStream.Read(size);
    }

    /** The first `done` bytes of a write that began in state `s` have been taken over. */
    ghost predicate Taken(s: State, bytes: seq<Byte>, done: nat)
      reads this, mStream, mChunk
      requires done <= |bytes|
    {
      && Valid()
      && (if done == 0 then Unbuffered() == s
          else CanWrite(mStream.mKind, s, done) && Unbuffered() == Written(mStream.mKind, s, bytes[..done]))
    }

    /** Fills the chunk with as much of a write as fits. */
    method FillChunk(bytes: seq<Byte>, done: nat, ghost s: State) returns (newDone: nat)
      requires done < |bytes| && Taken(s, bytes, done) && CanWrite(mStream.mKind, s, |bytes|) && mCachedBytes < CHUNK_SIZE
      modifies this, mChunk
      ensures done < newDone <= |bytes| && Taken(s, bytes, newDone)
    {
      var cacheLeft := CHUNK_SIZE - mCachedBytes;
      var writeBytes := if cacheLeft < |bytes| - done then cacheLeft else |bytes| - done;
      var part := bytes[done..done + writeBytes];
      newDone := done + writeBytes;
      assert bytes[..done] + part == bytes[..newDone];
      if done > 0 { WriteSplit(mStream.mKind, s, bytes[..done], part); } else { assert bytes[..newDone] == part; }
      Append(part);
    }

    /** Writes bytes, flushing whenever the chunk is full. What is returned is the number of bytes left, always 0. */
    method Write(bytes: seq<Byte>) returns (size: int)
      requires Valid() && (bytes != [] ==> CanWrite(mStream.mKind, Unbuffered(), |bytes|))
      modifies this, mStream, mChunk
      ensures Valid() && size == 0
      ensures Unbuffered() == if bytes == [] then old(Unbuffered())
                              else Written(mStream.mKind, old(Unbuffered()), bytes)
    {
      var done := 0;
      while done < |bytes|
        invariant 0 <= done <= |bytes| && Taken(old(Unbuffered()), bytes, done)
        decreases |bytes| - done, mCachedBytes
      {
        if mCachedBytes == CHUNK_SIZE {
          Flush();
          continue;
        }
        done := FillChunk(bytes, done, old(Unbuffered()));
      }
      assert bytes[..done] == bytes;
      size := |bytes| - done;
    }

    /** Copies bytes behind those waiting in the chunk. */
    method Append(bytes: seq<Byte>)
      requires Valid() && bytes != [] && mCachedBytes + |bytes| <= CHUNK_SIZE
      requires CanWrite(mStream.mKind, Unbuffered(), |bytes|)
      modifies this, mChunk
      ensures Valid() && Unbuffered() == Written(mStream.mKind, old(Unbuffered()), bytes)
      ensures mCachedBytes == old(mCachedBytes) + |bytes|
    {
      ghost var waiting := mChunk[..mCachedBytes];
      var n := mCachedBytes;
      forall i | 0 <= i < |bytes| {
        mChunk[n + i] := bytes[i];
      }
      mCachedBytes := mCachedBytes + |bytes|;
      assert mChunk[..n] == waiting && mChunk[n..mCachedBytes] == bytes;
      assert mChunk[..mCachedBytes] == waiting + bytes;
      WriteSplit(mStream.mKind, mStream.Snap(), waiting, bytes);
    }

    function GetPos(): (pos: int)
      reads this, mStream, mChunk
      requires Valid()
      ensures pos == Unbuffered().pos
    {
      mStream.mPos + mCachedBytes
    }

    method Seek(size: int)
      requires Valid()
      modifies this, mStream
      ensures Valid() && Unbuffered() == old(Unbuffered()).(pos := old(Unbuffered()).pos + size)
    {
      Flush();
      mStream.Seek(size);
    }

    method SetPos(pos: int)
      requires Valid()
      modifies this, mStream
      ensures Valid() && Unbuffered() == old(Unbuffered()).(pos := pos)
    {
      Flush();
      mStream.SetPos(pos);
    }

    /** Performs one call. */
    method Perform(op: StreamOp) returns (r: Result)
      requires Valid() && Allowed(mStream.mKind, Unbuffered(), op)
      modifies this, mStream, mChunk
      ensures Valid()
      ensures Unbuffered() == After(mStream.mKind, old(Unbuffered()), op) && r == ResultOf(old(Unbuffered()), op)
    {
      r := Nothing;
      match op {
        case WriteOp(bytes) => var _ := Write(bytes);
        case ReadOp(size) => var bytes := Read(size); r := Bytes(bytes);
        case SeekOp(size) => Seek(size);
        case SetPosOp(pos) => SetPos(pos);
        case GetPosOp => r := Number(GetPos());
        case GetSizeOp => var size := GetSize(); r := Number(size);
        case EofOp => var eof := Eof(); r := Flag(eof);
      }
    }

    /** Any sequence of calls and a final flush: the same results, and the same bytes and position in the sink. */
    method PerformAll(ops: seq<StreamOp>) returns (rs: seq<Result>)
      requires Valid() && AllAllowed(mStream.mKind, Unbuffered(), ops)
      modifies this, mStream, mChunk
      ensures mStream.Snap() == AfterAll(mStream.mKind, old(Unbuffered()), ops)
      ensures rs == ResultsOf(mStream.mKind, old(Unbuffered()), ops)
    {
      rs := [];
      var i := 0;
      while i < |ops|
        invariant 0 <= i <= |ops| && Valid() && AllAllowed(mStream.mKind, Unbuffered(), ops[i..])
        invariant AfterAll(mStream.mKind, Unbuffered(), ops[i..]) == AfterAll(mStream.mKind, old(Unbuffered()), ops)
        invariant rs + ResultsOf(mStream.mKind, Unbuffered(), ops[i..]) ==
                    ResultsOf(mStream.mKind, old(Unbuffered()), ops)
      {
        assert ops[i..][0] == ops[i] && ops[i..][1..] == ops[i + 1..];
        ghost var later := ResultsOf(mStream.mKind, After(mStream.mKind, Unbuffered(), ops[i]), ops[i + 1..]);
        var r := Perform(ops[i]);
        assert rs + ([r] + later) == rs + [r] + later;
        rs := rs + [r];
        i := i + 1;
      }
      Flush();
    }
  }

  // ----- sequences of calls on the unbuffered stream -----

  datatype StreamOp =
    | WriteOp(bytes: seq<Byte>)
    | ReadOp(size: nat)
    | SeekOp(distance: int)
    | SetPosOp(pos: int)
    | GetPosOp
    | GetSizeOp
    | EofOp

  datatype Result = Nothing | Bytes(bytes: seq<Byte>) | Number(n: int) | Flag(b: bool)

  /** Calls whose accesses stay inside the buffer. */
  ghost predicate Allowed(kind: Kind, s: State, op: StreamOp) {
    match op
    case WriteOp(bytes) => bytes != [] ==> CanWrite(kind, s, |bytes|)
    case ReadOp(size) => 0 <= s.pos && s.pos + size <= |s.data|
    case _ => true
  }

  function After(kind: Kind, s: State, op: StreamOp): State
    requires Allowed(kind, s, op)
  {
    match op
    case WriteOp(bytes) => if bytes == [] then s else Written(kind, s, bytes)
    case ReadOp(size) => s.(pos := s.pos + size)
    case SeekOp(distance) => s.(pos := s.pos + distance)
    case SetPosOp(pos) => s.(pos := pos)
    case _ => s
  }

  function ResultOf(s: State, op: StreamOp): Result {
    match op
    case ReadOp(size) => if 0 <= s.pos && s.pos + size <= |s.data| then Bytes(s.data[s.pos..s.pos + size]) else Nothing
    case GetPosOp => Number(s.pos)
    case GetSizeOp => Number(|s.data|)
    case EofOp => Flag(s.pos >= |s.data|)
    case _ => Nothing
  }

  ghost predicate AllAllowed(kind: Kind, s: State, ops: seq<StreamOp>)
    decreases |ops|
  {
    ops != [] ==> Allowed(kind, s, ops[0]) && AllAllowed(kind, After(kind, s, ops[0]), ops[1..])
  }

  function AfterAll(kind: Kind, s: State, ops: seq<StreamOp>): State
    requires AllAllowed(kind, s, ops)
    decreases |ops|
  {
    if ops == [] then s else AfterAll(kind, After(kind, s, ops[0]), ops[1..])
  }

  function ResultsOf(kind: Kind, s: State, ops: seq<StreamOp>): seq<Result>
    requires AllAllowed(kind, s, ops)
    decreases |ops|
  {
    if ops == [] then [] else [ResultOf(s, ops[0])] + ResultsOf(kind, After(kind, s, ops[0]), ops[1..])
  }
}
