/** The stack of scratch buffers that recursive record parsing works in. */
module TempBuffers {

  type Byte = bv8

  /** What record pointers point at: nothing, the mapped file, or a place inside a buffer. */
  datatype Pointer = Null | Mapped(addr: int) | InBuffer(buf: array<Byte>, ofs: nat)

  class TempBufStack {
    var mTempBufs: seq<array<Byte>>
    var mTempBufIdx: nat

    /** Buffers below mTempBufIdx are live; no two entries share memory, and a live one is never empty. */
    ghost predicate Valid()
      reads this
    {
      && mTempBufIdx <= |mTempBufs|
      && (forall i, j | 0 <= i < j < |mTempBufs| :: mTempBufs[i] != mTempBufs[j])
      && (forall i | 0 <= i < mTempBufIdx :: mTempBufs[i].Length > 0)
    }

    ghost function Live(): seq<array<Byte>>
      reads this
      requires Valid()
    {
      mTempBufs[..mTempBufIdx]
    }

    ghost function Free(): set<array<Byte>>
      reads this
      requires Valid()
    {
      set i | mTempBufIdx <= i < |mTempBufs| :: mTempBufs[i]
    }

    constructor ()
      ensures Valid() && mTempBufIdx == 0 && Free() == {}
    {
      mTempBufs, mTempBufIdx := [], 0;
    }

    /** Hands out the next buffer, made at least `size` long. It was not live before, so it is none of the live ones. */
    method Take(size: nat) returns (buf: array<Byte>)
      requires Valid() && size > 0
      modifies this
      ensures Valid() && mTempBufIdx == old(mTempBufIdx) + 1
      ensures Live() == old(Live()) + [buf] && buf.Length >= size
      ensures fresh(buf) || buf in old(Free())
      ensures buf !in old(Live()) && forall b | b in Free() :: b in old(Free())
      ensures forall b | b in mTempBufs :: b in old(mTempBufs) || fresh(b)
    {
      if mTempBufIdx >= |mTempBufs| {
        var empty := new Byte[0];
        mTempBufs := mTempBufs + [empty];
      }
      buf := mTempBufs[mTempBufIdx];
      if buf.Length < size {
        buf := new Byte[size](_ => 0);
        mTempBufs := mTempBufs[mTempBufIdx := buf];
      }
      mTempBufIdx := mTempBufIdx + 1;
      assert forall b | b in Free() :: b in old(Free());
    }

    /** Pops the top buffer if `p` is its start; any other pointer pops nothing. */
    method ReleaseTempBuf(p: Pointer)
      requires Valid()
      modifies this
      ensures Valid() && mTempBufs == old(mTempBufs)
      ensures mTempBufIdx == old(mTempBufIdx) -
                (if old(mTempBufIdx) > 0 && p == InBuffer(old(mTempBufs)[old(mTempBufIdx) - 1], 0) then 1 else 0)
    {
      if mTempBufIdx > 0 && p == InBuffer(mTempBufs[mTempBufIdx - 1], 0) {
        mTempBufIdx := mTempBufIdx - 1;
      }
    }

    // ----- properly nested use -----

    /** Gives access to a record: in place, or as a copy in the next buffer. */
    method Open(access: Access) returns (data: Pointer)
      requires Valid()
      modifies this, Free()
      ensures Valid() && Live() == old(Live()) + (if data.InBuffer? then [data.buf] else [])
      ensures mTempBufIdx == old(mTempBufIdx) + (if access.Spanning? then 1 else 0)
      ensures match access
              case NoRecord => data == Null
              case OnePage(addr) => data == Mapped(addr)
              case Spanning(bytes) =>
                && data.InBuffer? && data.ofs == 0 && |bytes| <= data.buf.Length && data.buf[..|bytes|] == bytes
                && (fresh(data.buf) || data.buf in old(Free())) && data.buf !in Free()
      ensures forall b | b in Free() :: b in old(Free())
    {
      match access {
        case NoRecord => data := Null;
        case OnePage(addr) => data := Mapped(addr);
        case Spanning(bytes) =>
          var buf := Take(|bytes|);
          forall i | 0 <= i < |bytes| {
            buf[i] := bytes[i];
          }
          data := InBuffer(buf, 0);
          assert Live()[mTempBufIdx - 1] == buf;
      }
    }

    /** The explicit release of a scope, then the one at its end: together they pop exactly what the scope pushed. */
    method Close(data: Pointer, advance: int, ghost pushed: bool)
      requires Valid()
      requires pushed <==> data.InBuffer?
      requires pushed ==> mTempBufIdx > 0 && data == InBuffer(mTempBufs[mTempBufIdx - 1], 0)
      modifies this
      ensures Valid() && mTempBufs == old(mTempBufs) && mTempBufIdx == old(mTempBufIdx) - (if pushed then 1 else 0)
    {
      if advance >= 0 && data != Null {
        ReleaseTempBuf(if data.Mapped? then Mapped(data.addr + advance) else InBuffer(data.buf, advance));
      }
      ReleaseTempBuf(data);
    }

    /** One record access in a scope: the record bytes, the accesses made while it is in use, and an explicit release
        at the end of the scope, through the pointer advanced by `advance` when that is not negative. */
    method RunScope(scope: Scope)
      requires Valid()
      modifies this, Free()
      ensures Valid() && mTempBufIdx == old(mTempBufIdx) && Live() == old(Live())
      ensures forall b | b in old(Live()) :: b[..] == old(b[..])
      ensures forall b | b in Free() :: b in old(Free()) || fresh(b)
      decreases scope
    {
      var data := Open(scope.access);
      ghost var pushed, idx := scope.access.Spanning?, mTempBufIdx;
      RunScopes(scope.inner);
      // The record can still be read: nothing has touched it.
      assert pushed ==> data.buf[..|scope.access.bytes|] == scope.access.bytes;
      assert pushed ==> Live()[idx - 1] == data.buf;
      ghost var free := Free();
      Close(data, scope.advance, pushed);
      assert forall b | b in Free() :: b in free || (pushed && b == data.buf);
      assert Live() == old(Live());
    }

    method RunScopes(scopes: seq<Scope>)
      requires Valid()
      modifies this, Free()
      ensures Valid() && mTempBufIdx == old(mTempBufIdx) && Live() == old(Live())
      ensures forall b | b in old(Live()) :: b[..] == old(b[..])
      ensures forall b | b in Free() :: b in old(Free()) || fresh(b)
      decreases scopes
    {
      if scopes != [] {
        RunScope(scopes[0]);
        RunScopes(scopes[1..]);
      }
    }
  }

  datatype Access = NoRecord | OnePage(addr: int) | Spanning(bytes: Record)

  type Record = s: seq<Byte> | |s| > 0 witness [0]

  datatype Scope = Scope(access: Access, inner: seq<Scope>, advance: int)
}
