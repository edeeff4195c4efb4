/** Bit fields in target memory (IDEHelper/DbgExprEvaluator.cpp). */
module Bitfield {
  import opened Bits
  import opened TwosComplement
  import opened ByteBits

  // ----- the meaning of a field -----

  // The low length bits of a word, as a signed or an unsigned number.
  function Narrowed(w: nat, length: nat, signed: bool): int
    requires length > 0
  {
    if signed && Bit(w, length - 1) == 1 then Low(w, length) - Pow2(length) else Low(w, length)
  }

  // The 64-bit pattern of a number.
  function ToUInt64(x: int): int {
    if x < 0 then x + U64 else x
  }

  /** The pattern r is the number that f is in length bits: the only one in the range of the type that differs from f by a
      multiple of 2^length. */
  ghost predicate IsNumber(r: int, f: int, length: nat, signed: bool)
    requires length > 0
  {
    var x := if signed then ToInt64(r) else r;
    var half: int := Pow2(length - 1);
    && (if signed then -half <= x < half else 0 <= x < Pow2(length))
    && (x - f) % Pow2(length) == 0
  }

  lemma {:induction false} LowIsRest(w: nat, k: nat) returns (q: nat)
    ensures w == Low(w, k) + q * Pow2(k)
  {
    if k == 0 {
      q := w;
    } else {
      q := LowIsRest(w / 2, k - 1);
      Doubled(q, Pow2(k - 1));
    }
  }

  lemma Doubled(q: int, p: int)
    ensures 2 * (q * p) == q * (2 * p)
  {
  }

  // The top bit of a field says whether its number is in the upper half.
  lemma {:induction false} TopBit(w: nat, length: nat)
    requires length > 0
    ensures Low(w, length) == Low(w, length - 1) + (if Bit(w, length - 1) == 1 then Pow2(length - 1) else 0)
  {
    if length > 1 { TopBit(w / 2, length - 1); }
  }

  lemma NotNegative(a: int, b: int)
    requires a >= 0 && b >= 0
    ensures a * b >= 0
  {
  }

  lemma OneLess(k: int, p: int)
    ensures k * p == (k - 1) * p + p && (-k) * p == -(k * p)
  {
  }

  // A multiple of p between 0 and p is 0.
  lemma SmallMultiple(k: int, p: int)
    requires 0 <= k * p < p
    ensures k == 0
  {
    if k > 0 {
      NotNegative(k - 1, p);
      OneLess(k, p);
    } else if k < 0 {
      NotNegative(-k - 1, p);
      OneLess(-k, p);
      OneLess(k, p);
    }
  }

  lemma Difference(n: int, d: int, p: int)
    ensures (n - d) * p == n * p - d * p
  {
  }

  lemma MultipleRest(n: int, p: int)
    requires p > 0
    ensures (n * p) % p == 0
  {
    var d := (n * p) / p;
    Difference(n, d, p);
    SmallMultiple(n - d, p);
  }

  /** The narrowed word is the number of that word, as a pattern too. */
  lemma NarrowedIsNumber(w: nat, length: nat, signed: bool)
    requires 0 < length < 64
    ensures IsNumber(ToUInt64(Narrowed(w, length, signed)), w, length, signed)
  {
    var p, x := Pow2(length), Narrowed(w, length, signed);
    var q: int := LowIsRest(w, length);
    TopBit(w, length);
    LowBelow(w, length);
    LowBelow(w, length - 1);
    MultipleRest(-q, p);
    MultipleRest(-(q + 1), p);
    OneLess(-q, p);
    OneLess(q, p);
    HalfFits(length);
  }

  lemma HalfFits(length: nat)
    requires 0 < length < 64
    ensures Pow2(length) == 2 * Pow2(length - 1) && Pow2(length) <= 0x8000_0000_0000_0000
  {
    U64IsPow2();
    Pow2Rises(length, 64);
  }

  /** An unsigned number is the remainder. */
  lemma UnsignedIsRest(f: nat, r: int, length: nat)
    requires length > 0 && IsNumber(r, f, length, false)
    ensures r == f % Pow2(length)
  {
    var p := Pow2(length);
    var d, e := (r - f) / p, f / p;
    assert r - f == d * p && f == e * p + f % p;
    Difference(d, -e, p);
    OneLess(e, p);
    assert r - f % p == (d + e) * p;
    if r >= f % p {
      SmallMultiple(d + e, p);
    } else {
      OneLess(d + e, p);
      SmallMultiple(-(d + e), p);
    }
  }

  // The number in the bits from start on.
  function FieldValue(mem: seq<Byte>, start: nat, length: nat, signed: bool): int
    requires length > 0 && start + length <= 8 * |mem|
  {
    Narrowed(Field(mem, start, length), length, signed)
  }

  // mem with the low bits of v in [start, start + length), and every other bit as it was.
  ghost predicate StoredBits(mem: seq<Byte>, start: nat, length: nat, v: nat, after: seq<Byte>) {
    |after| == |mem|
    && forall i: nat | i < 8 * |mem| :: StreamBit(after, i) == BitAfter(mem, start, length, v, i)
  }

  function BitAfter(mem: seq<Byte>, start: nat, length: nat, v: nat, i: nat): nat
    requires i < 8 * |mem|
  {
    if start <= i < start + length then Bit(v, i - start) else StreamBit(mem, i)
  }

  // ----- the masks -----

  lemma {:induction false} LowBelow(w: nat, k: nat)
    ensures Low(w, k) < Pow2(k)
  {
    if k > 0 { LowBelow(w / 2, k - 1); }
  }

  // Masking keeps the low bits.
  lemma MaskedIsLow(w: nat, k: nat)
    ensures And(w, Pow2(k) - 1) == Low(w, k)
  {
    forall i: nat ensures Bit(And(w, Pow2(k) - 1), i) == Bit(Low(w, k), i) {
      BitAnd(w, Pow2(k) - 1, i);
      BitPow2Less1(k, i);
      BitLow(w, k, i);
    }
    SameBitsSameWord(And(w, Pow2(k) - 1), Low(w, k));
  }

  // Setting every bit above the mask subtracts 2^length and wraps.
  lemma Extended(w: nat, length: nat)
    requires 0 < length < 64
    ensures Or(Low(w, length), Not(Pow2(length) - 1, 64)) == Low(w, length) + U64 - Pow2(length)
  {
    var lo, ones := Low(w, length), Pow2(64 - length) - 1;
    LowBelow(w, length);
    var extended := Or(lo, Not(Pow2(length) - 1, 64));
    forall i: nat ensures Bit(extended, i) == Bit(lo + Shl(ones, length), i) {
      BitOr(lo, Not(Pow2(length) - 1, 64), i);
      BitLow(w, length, i);
      BitNot(Pow2(length) - 1, 64, i);
      BitPow2Less1(length, i);
      BitOfSum(lo, length, ones, i);
      if i >= length { BitPow2Less1(64 - length, i - length); }
    }
    SameBitsSameWord(extended, lo + Shl(ones, length));
    ShlOnes(64 - length, length);
    U64IsPow2();
  }

  lemma {:induction false} ShlOnes(k: nat, length: nat)
    ensures Shl(Pow2(k) - 1, length) == Pow2(k + length) - Pow2(length)
  {
    if length > 0 { ShlOnes(k, length - 1); }
  }

  // The sign test picks the field's top bit.
  lemma SignBit(w: nat, length: nat)
    requires 0 < length < 64
    ensures And(Low(w, length), Shl(1, length - 1)) != 0 <==> Bit(w, length - 1) == 1
  {
    var x := And(Low(w, length), Shl(1, length - 1));
    forall i: nat ensures Bit(x, i) == if i == length - 1 then Bit(w, i) else 0 {
      BitAnd(Low(w, length), Shl(1, length - 1), i);
      BitLow(w, length, i);
      BitShl(1, length - 1, i);
      if i > length - 1 { ZeroBit(i - length); }
    }
    if Bit(w, length - 1) == 1 {
      ZeroBit(length - 1);
      assert Bit(x, length - 1) == 1;
    } else {
      forall i: nat ensures Bit(x, i) == Bit(0, i) { ZeroBit(i); }
      SameBitsSameWord(x, 0);
    }
  }

  // The reader and the writer both end by extending the masked bits of some word w.
  method SignExtend(masked: nat, mask: nat, length: nat, signed: bool, ghost w: nat) returns (r: nat)
    requires 0 < length < 64 && mask == Pow2(length) - 1 && masked == And(w, mask)
    ensures r == ToUInt64(Narrowed(w, length, signed)) && IsNumber(r, w, length, signed)
  {
    r := masked;
    NarrowedIsNumber(w, length, signed);
    MaskedIsLow(w, length);
    LowBelow(w, length);
    SignBit(w, length);
    if signed && And(r, Shl(1, length - 1)) != 0 {
      Extended(w, length);
      r := Or(r, Not(mask, 64));
    }
  }

  // ----- the bits of a store -----

  // A 64-bit word with the field's bits cleared and the value's or-ed in.
  function Inserted(was: nat, v: nat, position: nat, length: nat): nat {
    Or(And(was, Not(Low(Shl(Pow2(length) - 1, position), 64), 64)),
       Low(Shl(And(v, Pow2(length) - 1), position), 64))
  }

  lemma InsertedBit(was: nat, v: nat, position: nat, length: nat, i: nat)
    requires position + length <= 64 && i < 64
    ensures Bit(Inserted(was, v, position, length), i)
         == if position <= i < position + length then Bit(v, i - position) else Bit(was, i)
  {
    var mask := Pow2(length) - 1;
    var kept := And(was, Not(Low(Shl(mask, position), 64), 64));
    BitOr(kept, Low(Shl(And(v, mask), position), 64), i);
    BitAnd(was, Not(Low(Shl(mask, position), 64), 64), i);
    BitNot(Low(Shl(mask, position), 64), 64, i);
    BitLow(Shl(mask, position), 64, i);
    BitLow(Shl(And(v, mask), position), 64, i);
    BitShl(mask, position, i);
    BitShl(And(v, mask), position, i);
    if i >= position {
      BitAnd(v, mask, i - position);
      BitPow2Less1(length, i - position);
    }
  }

  // n bytes of the word written over those at addr.
  function Overwritten(mem: seq<Byte>, addr: nat, n: nat, w: nat): (after: seq<Byte>)
    requires addr + n <= |mem|
    ensures |after| == |mem|
  {
    mem[..addr] + BytesOf(w, n) + mem[addr + n..]
  }

  lemma OverwrittenBit(mem: seq<Byte>, addr: nat, n: nat, w: nat, i: nat)
    requires addr + n <= |mem| && i < 8 * |mem|
    ensures StreamBit(Overwritten(mem, addr, n, w), i)
         == if 8 * addr <= i < 8 * (addr + n) then Bit(w, i - 8 * addr) else StreamBit(mem, i)
  {
    if 8 * addr <= i < 8 * (addr + n) {
      BytesOfBit(w, n, i - 8 * addr);
      assert (i - 8 * addr) / 8 == i / 8 - addr && (i - 8 * addr) % 8 == i % 8;
    }
  }

  lemma ValueAtBit(mem: seq<Byte>, addr: nat, n: nat, i: nat)
    requires addr + n <= |mem|
    ensures Bit(Value(mem[addr..addr + n]), i) == if i < 8 * n then StreamBit(mem, 8 * addr + i) else 0
  {
    ValueBit(mem[addr..addr + n], i);
    if i < 8 * n {
      assert (8 * addr + i) / 8 == addr + i / 8 && (8 * addr + i) % 8 == i % 8;
    }
  }

  lemma StoreChangesItsBits(mem: seq<Byte>, addr: nat, n: nat, position: nat, length: nat, v: nat, w: nat)
    requires addr + n <= |mem| && n <= 8 && position + length <= 8 * n
    requires w == Inserted(Value(mem[addr..addr + n]), v, position, length)
    ensures StoredBits(mem, 8 * addr + position, length, v, Overwritten(mem, addr, n, w))
  {
    forall i: nat | i < 8 * |mem|
      ensures StreamBit(Overwritten(mem, addr, n, w), i) == BitAfter(mem, 8 * addr + position, length, v, i)
    {
      StoredBit(mem, addr, n, position, length, v, w, i);
    }
  }

  lemma StoredBit(mem: seq<Byte>, addr: nat, n: nat, position: nat, length: nat, v: nat, w: nat, i: nat)
    requires addr + n <= |mem| && n <= 8 && position + length <= 8 * n && i < 8 * |mem|
    requires w == Inserted(Value(mem[addr..addr + n]), v, position, length)
    ensures StreamBit(Overwritten(mem, addr, n, w), i) == BitAfter(mem, 8 * addr + position, length, v, i)
  {
    OverwrittenBit(mem, addr, n, w, i);
    if 8 * addr <= i < 8 * (addr + n) {
      WordBit(mem, addr, n, position, length, v, w, i, i - 8 * addr);
    }
  }

  lemma WordBit(mem: seq<Byte>, addr: nat, n: nat, position: nat, length: nat, v: nat, w: nat, i: nat, j: nat)
    requires addr + n <= |mem| && n <= 8 && position + length <= 8 * n && j < 8 * n && i == 8 * addr + j
    requires w == Inserted(Value(mem[addr..addr + n]), v, position, length)
    ensures Bit(w, j) == BitAfter(mem, 8 * addr + position, length, v, i)
  {
    InsertedBit(Value(mem[addr..addr + n]), v, position, length, j);
    ValueAtBit(mem, addr, n, j);
    assert i - (8 * addr + position) == j - position;
  }

  // The bits the reader shifts down are the field's.
  lemma ShiftedDown(mem: seq<Byte>, addr: nat, n: nat, position: nat, length: nat, w: nat)
    requires addr + n <= |mem| && position + length <= 8 * n
    requires forall i: nat | i < 8 * n :: Bit(w, i) == StreamBit(mem, 8 * addr + i)
    ensures Low(Shr(w, position), length) == Low(Field(mem, 8 * addr + position, length), length)
    ensures length > 0 ==>
      Bit(Shr(w, position), length - 1) == Bit(Field(mem, 8 * addr + position, length), length - 1)
  {
    var start := 8 * addr + position;
    forall i: nat | i < length ensures Bit(Shr(w, position), i) == Bit(Field(mem, start, length), i) {
      BitShr(w, position, i);
      FieldBit(mem, start, length, i);
      assert 8 * addr + (i + position) == start + i;
    }
    forall i: nat ensures Bit(Low(Shr(w, position), length), i) == Bit(Low(Field(mem, start, length), length), i) {
      BitLow(Shr(w, position), length, i);
      BitLow(Field(mem, start, length), length, i);
    }
    SameBitsSameWord(Low(Shr(w, position), length), Low(Field(mem, start, length), length));
  }

  /** The pattern that stands for a field is the number of its bits; that of an unsigned one is the bits. */
  lemma FieldIsNumber(mem: seq<Byte>, start: nat, length: nat, signed: bool)
    requires 0 < length < 64 && start + length <= 8 * |mem|
    ensures IsNumber(ToUInt64(FieldValue(mem, start, length, signed)), Field(mem, start, length), length, signed)
    ensures !signed ==> ToUInt64(FieldValue(mem, start, length, signed)) == Field(mem, start, length)
  {
    var f := Field(mem, start, length);
    NarrowedIsNumber(f, length, signed);
    if !signed {
      FieldBelow(mem, start, length);
      UnsignedIsRest(f, ToUInt64(Narrowed(f, length, signed)), length);
      SmallRest(f, Pow2(length));
    }
  }

  lemma SmallRest(f: int, p: int)
    requires 0 <= f < p
    ensures f % p == f
  {
  }

  // ----- what stores mean for reads -----

  /** A field read after a store to it is the stored number, cut to the field and extended. */
  lemma ReadAfterStore(mem: seq<Byte>, start: nat, length: nat, signed: bool, v: nat, after: seq<Byte>)
    requires length > 0 && start + length <= 8 * |mem|
    requires StoredBits(mem, start, length, v, after)
    ensures FieldValue(after, start, length, signed) == Narrowed(v, length, signed)
    ensures length < 64 ==> IsNumber(ToUInt64(FieldValue(after, start, length, signed)), v, length, signed)
  {
    if length < 64 { NarrowedIsNumber(v, length, signed); }
    var f := Field(after, start, length);
    forall i: nat ensures Bit(Low(f, length), i) == Bit(Low(v, length), i) {
      BitLow(f, length, i);
      BitLow(v, length, i);
      FieldBit(after, start, length, i);
    }
    SameBitsSameWord(Low(f, length), Low(v, length));
    FieldBit(after, start, length, length - 1);
  }

  predicate Disjoint(s: nat, m: nat, t: nat, n: nat) {
    s + m <= t || t + n <= s
  }

  /** A store leaves every field that shares no bit with it as it was. */
  lemma OtherFieldKept(mem: seq<Byte>, s: nat, m: nat, v: nat, after: seq<Byte>, t: nat, n: nat, signed: bool)
    requires n > 0 && t + n <= 8 * |mem| && Disjoint(s, m, t, n)
    requires StoredBits(mem, s, m, v, after)
    ensures FieldValue(after, t, n, signed) == FieldValue(mem, t, n, signed)
  {
    forall i: nat ensures Bit(Field(after, t, n), i) == Bit(Field(mem, t, n), i) {
      FieldBit(after, t, n, i);
      FieldBit(mem, t, n, i);
    }
    SameBitsSameWord(Field(after, t, n), Field(mem, t, n));
  }

  /** Stores to fields that share no bit give the same memory in either order. */
  lemma StoresCommute(mem: seq<Byte>, s: nat, m: nat, v: nat, t: nat, n: nat, w: nat,
                      a: seq<Byte>, ab: seq<Byte>, b: seq<Byte>, ba: seq<Byte>)
    requires Disjoint(s, m, t, n)
    requires StoredBits(mem, s, m, v, a) && StoredBits(a, t, n, w, ab)
    requires StoredBits(mem, t, n, w, b) && StoredBits(b, s, m, v, ba)
    ensures ab == ba
  {
    forall i: nat | i < 8 * |ab| ensures StreamBit(ab, i) == StreamBit(ba, i) { }
    SameBitsSameBytes(ab, ba);
  }

  /** The debugger's view of the target: its memory, and the failures reported so far. */
  class Target {
    var mMemory: seq<Byte>
    var mFailures: nat

    // A field of an integer of n bytes at addr.
    predicate FieldFits(addr: nat, n: nat, position: nat, length: nat)
      reads this
    {
      n <= 8 && 0 < length < 64 && position + length <= 8 * n
    }

    // Reads an integer into the low bytes of a word that keeps what it had above them.
    method ReadTypedValue(addr: nat, n: nat, above: nat) returns (ok: bool, r: nat)
      requires n <= 8 && above < U64
      ensures ok <==> addr + n <= |mMemory|
      ensures ok ==> forall i: nat | i < 8 * n :: Bit(r, i) == StreamBit(mMemory, 8 * addr + i)
    {
      ok := addr + n <= |mMemory|;
      r := above;
      if ok {
        var read := Value(mMemory[addr..addr + n]);
        ValueBelow(mMemory[addr..addr + n]);
        r := read + Shl(Shr(above, 8 * n), 8 * n);
        forall i: nat | i < 8 * n ensures Bit(r, i) == StreamBit(mMemory, 8 * addr + i) {
          BitOfSum(read, 8 * n, Shr(above, 8 * n), i);
          ValueAtBit(mMemory, addr, n, i);
        }
      }
    }

    /** Reads a field: the number in its bits, whatever the word held above the integer. */
    method ReadBitfield(addr: nat, n: nat, position: nat, length: nat, signed: bool, above: nat)
      returns (ok: bool, r: nat)
      requires FieldFits(addr, n, position, length) && above < U64
      ensures ok <==> addr + n <= |mMemory|
      ensures ok ==> r == ToUInt64(FieldValue(mMemory, 8 * addr + position, length, signed))
      ensures ok ==> IsNumber(r, Field(mMemory, 8 * addr + position, length), length, signed)
      ensures ok && !signed ==> r == Field(mMemory, 8 * addr + position, length)
    {
      ok, r := ReadTypedValue(addr, n, above);
      if ok {
        ShiftedDown(mMemory, addr, n, position, length, r);
        FieldIsNumber(mMemory, 8 * addr + position, length, signed);
      }
      r := Shr(r, position);
      var mask := Pow2(length) - 1;
      r := SignExtend(And(r, mask), mask, length, signed, r);
    }

    /**
     * Stores to a field, and leaves in the argument the number the field then holds. Fails at
     * address zero or a read-only place without a change; a failed write is only reported.
     */
    method StoreValue(addr: nat, readOnly: bool, n: nat, position: nat, length: nat, signed: bool, value: nat)
      returns (ok: bool, left: nat)
      requires FieldFits(addr, n, position, length) && value < U64
      modifies this
      ensures ok <==> addr != 0 && !readOnly
      ensures !ok ==> left == value
      ensures ok ==> left == ToUInt64(Narrowed(value, length, signed)) && IsNumber(left, value, length, signed)
      ensures ok && !signed ==> left == value % Pow2(length)
      ensures if ok && addr + n <= |old(mMemory)|
        then StoredBits(old(mMemory), 8 * addr + position, length, value, mMemory)
             && left == ToUInt64(FieldValue(mMemory, 8 * addr + position, length, signed))
             && mFailures == old(mFailures)
        else mMemory == old(mMemory) && mFailures == old(mFailures) + 1
    {
      ok, left := addr != 0 && !readOnly, value;
      if !ok {
        mFailures := mFailures + 1;
        return;
      }
      var tempVal := 0;
      if addr + n <= |mMemory| { tempVal := Value(mMemory[addr..addr + n]); }
      var srcMask := Pow2(length) - 1;
      var destMask := Low(Shl(srcMask, position), 64);
      left := And(left, srcMask);
      tempVal := And(tempVal, Not(destMask, 64));
      tempVal := Or(tempVal, Low(Shl(left, position), 64));
      if addr + n <= |mMemory| {
        StoreChangesItsBits(mMemory, addr, n, position, length, value, tempVal);
        ghost var was := mMemory;
        mMemory := Overwritten(mMemory, addr, n, tempVal);
        ReadAfterStore(was, 8 * addr + position, length, signed, value, mMemory);
      } else {
        mFailures := mFailures + 1;
      }
      left := SignExtend(left, srcMask, length, signed, value);
      if !signed { UnsignedIsRest(value, left, length); }
    }
  }

  lemma {:induction false} ValueBelow(s: seq<Byte>)
    ensures Value(s) < Pow2(8 * |s|)
  {
    if s != [] {
      ValueBelow(s[1..]);
      Shl8(Pow2(8 * |s| - 8));
      Pow2Shl(8 * |s| - 8, 8);
    }
  }

  lemma {:induction false} Pow2Shl(k: nat, j: nat)
    ensures Pow2(k + j) == Shl(Pow2(k), j)
  {
    if j > 0 { Pow2Shl(k, j - 1); }
  }
}
