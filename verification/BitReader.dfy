/** Reading bits through a cached four-byte window (BeefySysLib/DataStream.cpp). */
module BitReader {
  import opened Bits
  import opened TwosComplement
  import opened ByteBits

  // The four bytes from q as a little-endian word.
  function Word(s: seq<Byte>, q: nat): nat
    requires q + 4 <= |s|
  {
    Value(s[q..q + 4])
  }

  const LowerBitMask: seq<nat> :=
    [ 0x0000, 0x0001, 0x0003, 0x0007, 0x000F, 0x001F, 0x003F, 0x007F, 0x00FF, 0x01FF, 0x03FF,
      0x07FF, 0x0FFF, 0x1FFF, 0x3FFF, 0x7FFF, 0xFFFF, 0x1FFFF, 0x3FFFF, 0x7FFFF, 0xFFFFF,
      0x1FFFFF, 0x3FFFFF, 0x7FFFFF, 0xFFFFFF, 0x1FFFFFF, 0x3FFFFFF, 0x7FFFFFF, 0xFFFFFFF,
      0x1FFFFFFF, 0x3FFFFFFF, 0x7FFFFFFF, 0xFFFFFFFF ]

  lemma MaskDoublesLow(k: nat)
    requires 0 < k <= 16
    ensures |LowerBitMask| == 33 && LowerBitMask[k] == 2 * LowerBitMask[k - 1] + 1
  {
  }

  lemma MaskDoublesHigh(k: nat)
    requires 16 < k <= 32
    ensures |LowerBitMask| == 33 && LowerBitMask[k] == 2 * LowerBitMask[k - 1] + 1
  {
  }

  lemma {:induction false} MasksArePowers(k: nat)
    requires k <= 32
    ensures |LowerBitMask| == 33 && LowerBitMask[k] == Pow2(k) - 1
  {
    if k > 0 {
      MasksArePowers(k - 1);
      if k <= 16 { MaskDoublesLow(k); } else { MaskDoublesHigh(k); }
    }
  }

  // The cached word holds the 32 stream bits from its byte on.
  lemma WordBit(s: seq<Byte>, q: nat, i: nat)
    requires q + 4 <= |s|
    ensures Bit(Word(s, q), i) == if i < 32 then StreamBit(s, 8 * q + i) else 0
  {
    var t := s[q..q + 4];
    ValueBit(t, i);
    if i < 32 {
      assert (8 * q + i) / 8 == q + i / 8 && (8 * q + i) % 8 == i % 8;
    }
  }

  // The piece a window gives: shift the consumed bits away, keep c of the rest.
  lemma WindowPiece(s: seq<Byte>, q: nat, skip: nat, c: nat)
    requires q + 4 <= |s| && skip + c <= 32
    ensures |LowerBitMask| == 33
    ensures And(Shr(Word(s, q), skip), LowerBitMask[c]) == Field(s, 8 * q + skip, c)
  {
    MasksArePowers(c);
    var w, x := Word(s, q), And(Shr(Word(s, q), skip), Pow2(c) - 1);
    forall i: nat ensures Bit(x, i) == Bit(Field(s, 8 * q + skip, c), i) {
      BitAnd(Shr(w, skip), Pow2(c) - 1, i);
      BitShr(w, skip, i);
      WordBit(s, q, i + skip);
      BitPow2Less1(c, i);
      FieldBit(s, 8 * q + skip, c, i);
    }
    SameBitsSameWord(x, Field(s, 8 * q + skip, c));
  }

  // A piece below 2^c put at bit k of a 32-bit register loses nothing.
  lemma PieceFits(x: nat, c: nat, k: nat)
    requires x < Pow2(c) && c + k <= 32
    ensures Low(Shl(x, k), 32) == Shl(x, k)
  {
    forall i: nat ensures Bit(Low(Shl(x, k), 32), i) == Bit(Shl(x, k), i) {
      BitLow(Shl(x, k), 32, i);
      BitShl(x, k, i);
      if i >= 32 { NoHighBit(x, c, i - k); }
    }
    SameBitsSameWord(Low(Shl(x, k), 32), Shl(x, k));
  }

  /** One turn of the copy: k bits are in hand, the window at byte q gives the next c of them. */
  lemma CopyStep(s: seq<Byte>, p: nat, k: nat, q: nat, skip: nat, c: nat)
    requires q + 4 <= |s| && skip + c <= 32 && k + c <= 32
    requires p + k == 8 * q + skip
    ensures |LowerBitMask| == 33 && p + k + c <= 8 * |s|
    ensures Or(Field(s, p, k), Low(Shl(And(Shr(Word(s, q), skip), LowerBitMask[c]), k), 32))
         == Field(s, p, k + c)
  {
    WindowPiece(s, q, skip, c);
    assert And(Shr(Word(s, q), skip), LowerBitMask[c]) == Field(s, p + k, c);
    PutAbove(s, p, k, c);
  }

  // The next c bits of the stream, put above the k in hand.
  lemma PutAbove(s: seq<Byte>, p: nat, k: nat, c: nat)
    requires p + k + c <= 8 * |s| && k + c <= 32
    ensures Or(Field(s, p, k), Low(Shl(Field(s, p + k, c), k), 32)) == Field(s, p, k + c)
  {
    FieldBelow(s, p + k, c);
    PieceFits(Field(s, p + k, c), c, k);
    FieldJoins(s, p, k, c);
  }

  // k bits from p have been read into val.
  ghost predicate Gathered(s: seq<Byte>, p: nat, k: nat, val: nat) {
    if k == 0 then val == 0 else p + k <= 8 * |s| && val == Field(s, p, k)
  }

  /** What is returned for the bits: the number they make, and of 32 bits the one in the range of the signed type that
      differs from it by a multiple of 2^32. */
  lemma WordRead(s: seq<Byte>, p: nat, bits: nat)
    requires bits <= 32 && p + bits <= 8 * |s|
    ensures var f := Field(s, p, bits);
      && -0x8000_0000 <= ToInt32(f) < 0x8000_0000 && (ToInt32(f) - f) % 0x1_0000_0000 == 0
      && (bits < 32 ==> ToInt32(f) == f)
  {
    WordSize();
    FieldBelow(s, p, bits);
    if bits < 32 { Pow2Rises(bits, 32); }
    SignedNumbers(Field(s, p, bits));
  }

  lemma WordSize()
    ensures Pow2(32) == 0x1_0000_0000
  {
    assert Pow2(4) == 2 * Pow2(3) == 4 * Pow2(2) == 8 * Pow2(1) == 16 * Pow2(0);
    DoubledPow2(4, 4);
    DoubledPow2(8, 8);
    DoubledPow2(16, 16);
  }

  class DataStream {
    const bytes: seq<Byte>
    var mPos: nat
    var mBitPos: int
    var mReadBitIntPos: int
    var mCurBitInt: nat

    constructor (bytes: seq<Byte>)
      ensures Valid() && this.bytes == bytes && mPos == 0 && mBitPos == 0
    {
      this.bytes := bytes;
      mPos, mBitPos, mReadBitIntPos, mCurBitInt := 0, 0, -1000, 0;
    }

    // The window either holds the stream's own bits or ends before the stream starts.
    ghost predicate Valid()
      reads this
    {
      mReadBitIntPos + 32 <= 0
      || (0 <= mReadBitIntPos && mReadBitIntPos % 8 == 0 && mReadBitIntPos / 8 + 4 <= |bytes|
          && mCurBitInt == Word(bytes, mReadBitIntPos / 8))
    }

    // Whether the window holds bit p.
    predicate InWindow(p: int)
      reads this
    {
      0 < mReadBitIntPos + 32 - p <= 32
    }

    // Every refill that reading n bits at p makes finds four bytes: none when the window has
    // them all, otherwise one where the window ends or at p's own byte, and then the next one.
    predicate RefillsFit(p: nat, n: nat)
      reads this
    {
      if InWindow(p) then
        n <= mReadBitIntPos + 32 - p || mReadBitIntPos / 8 + 8 <= |bytes|
      else
        n == 0
        || (p / 8 + 4 <= |bytes| && (p % 8 + n <= 32 || p / 8 + 8 <= |bytes|))
    }

    method Refill()
      requires mBitPos >= 0 && mBitPos / 8 + 4 <= |bytes|
      modifies this
      ensures Valid() && mBitPos == old(mBitPos)
      ensures mReadBitIntPos == mBitPos - mBitPos % 8 && mPos == mBitPos / 8 + 4
    {
      mReadBitIntPos := mBitPos - mBitPos % 8;
      mPos := mReadBitIntPos / 8;
      mCurBitInt := Word(bytes, mPos);
      mPos := mPos + 4;
    }

    // The window's share of the copy: as many of the missing bits as it has.
    method CopyBits(val: nat, valBitPos: nat, bits: nat, ghost p: nat) returns (r: nat, copied: nat)
      requires Valid() && InWindow(mBitPos) && mBitPos == p + valBitPos
      requires valBitPos <= bits <= 32 && Gathered(bytes, p, valBitPos, val)
      modifies this`mBitPos
      ensures Gathered(bytes, p, valBitPos + copied, r) && mBitPos == p + valBitPos + copied
      ensures copied == bits - valBitPos <= mReadBitIntPos + 32 - old(mBitPos)
              || copied == mReadBitIntPos + 32 - old(mBitPos) < bits - valBitPos
    {
      var bitsAvail := mReadBitIntPos + 32 - mBitPos;
      copied := if bits - valBitPos < bitsAvail then bits - valBitPos else bitsAvail;
      CopyStep(bytes, p, valBitPos, mReadBitIntPos / 8, 32 - bitsAvail, copied);
      r := Or(val, Low(Shl(And(Shr(mCurBitInt, 32 - bitsAvail), LowerBitMask[copied]), valBitPos), 32));
      mBitPos := mBitPos + copied;
    }

    /** Bits [mBitPos, mBitPos + bits) of the stream, least significant first, whatever is cached. */
    method ReadUBits(bits: nat) returns (r: int)
      requires Valid() && mBitPos >= 0 && bits <= 32
      requires RefillsFit(mBitPos, bits)
      modifies this
      ensures Valid() && mBitPos == old(mBitPos) + bits
      ensures bits > 0 ==> mBitPos <= 8 * |bytes|
      ensures r == if bits == 0 then 0 else ToInt32(Field(bytes, old(mBitPos), bits))
    {
      ghost var p: nat := mBitPos;
      var val, valBitPos: nat := 0, 0;
      while true
        invariant Valid() && mBitPos == p + valBitPos && valBitPos <= bits
        invariant Gathered(bytes, p, valBitPos, val)
        invariant RefillsFit(mBitPos, bits - valBitPos)
        decreases bits - valBitPos, if InWindow(mBitPos) then 0 else 1
      {
        var bitsAvail := mReadBitIntPos + 32 - mBitPos;
        if 0 < bitsAvail <= 32 {
          var copied;
          val, copied := CopyBits(val, valBitPos, bits, p);
          valBitPos := valBitPos + copied;
        }
        if valBitPos == bits { break; }
        Refill();
      }
      r := ToInt32(val);
    }

    method SeekBits(bits: int)
      requires Valid()
      modifies this`mBitPos
      ensures Valid() && mBitPos == old(mBitPos) + bits
    {
      mBitPos := mBitPos + bits;
    }

    method SyncBitPos()
      requires Valid()
      modifies this`mBitPos
      ensures Valid() && mBitPos == 8 * mPos
    {
      mBitPos := mPos * 8;
    }

    // To the first byte that starts at or after the bit position.
    method SyncBytePos()
      requires Valid() && mBitPos >= 0
      modifies this`mPos
      ensures Valid() && 8 * mPos - 8 < mBitPos <= 8 * mPos
    {
      mPos := (mBitPos + 7) / 8;
    }
  }
}
