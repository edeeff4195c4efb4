/** Byte sequences as sequences of bits, the low bit of each byte first. */
module ByteBits {
  import opened Bits

  type Byte = b: nat | b < 256

  function StreamBit(s: seq<Byte>, i: nat): (b: nat)
    requires i < 8 * |s|
    ensures IsBit(b)
  {
    Bit(s[i / 8], i % 8)
  }

  // The n bits from p, the first of them least significant.
  function Field(s: seq<Byte>, p: nat, n: nat): nat
    requires p + n <= 8 * |s|
    decreases n
  {
    if n == 0 then 0 else StreamBit(s, p) + 2 * Field(s, p + 1, n - 1)
  }

  // The little-endian value of a run of bytes, each one above the last.
  function Value(s: seq<Byte>): nat {
    if s == [] then 0 else s[0] + 0x100 * Value(s[1..])
  }

  lemma {:induction false} FieldBit(s: seq<Byte>, p: nat, n: nat, i: nat)
    requires p + n <= 8 * |s|
    ensures Bit(Field(s, p, n), i) == if i < n then StreamBit(s, p + i) else 0
    decreases n
  {
    if n == 0 { ZeroBit(i); }
    else if i > 0 { FieldBit(s, p + 1, n - 1, i - 1); }
  }

  // Reading a bits and then b more gives the parts of one read of a + b.
  lemma {:induction false} FieldJoins(s: seq<Byte>, p: nat, a: nat, b: nat)
    requires p + a + b <= 8 * |s|
    ensures Field(s, p, a + b) == Or(Field(s, p, a), Shl(Field(s, p + a, b), a))
  {
    var ab, fa, fb := Field(s, p, a + b), Field(s, p, a), Field(s, p + a, b);
    forall i: nat ensures Bit(ab, i) == Bit(Or(fa, Shl(fb, a)), i) {
      FieldBit(s, p, a + b, i);
      FieldBit(s, p, a, i);
      BitOr(fa, Shl(fb, a), i);
      BitShl(fb, a, i);
      if i >= a { FieldBit(s, p + a, b, i - a); }
    }
    SameBitsSameWord(ab, Or(fa, Shl(fb, a)));
  }

  // And one read of a + b bits splits into the two reads.
  lemma {:induction false} FieldSplits(s: seq<Byte>, p: nat, a: nat, b: nat)
    requires p + a + b <= 8 * |s|
    ensures Low(Field(s, p, a + b), a) == Field(s, p, a)
    ensures Shr(Field(s, p, a + b), a) == Field(s, p + a, b)
  {
    var ab, fa, fb := Field(s, p, a + b), Field(s, p, a), Field(s, p + a, b);
    forall i: nat ensures Bit(Low(ab, a), i) == Bit(fa, i) {
      BitLow(ab, a, i);
      FieldBit(s, p, a + b, i);
      FieldBit(s, p, a, i);
    }
    SameBitsSameWord(Low(ab, a), fa);
    forall i: nat ensures Bit(Shr(ab, a), i) == Bit(fb, i) {
      BitShr(ab, a, i);
      FieldBit(s, p, a + b, i + a);
      FieldBit(s, p + a, b, i);
    }
    SameBitsSameWord(Shr(ab, a), fb);
  }

  // Bit i of lo + 2^k * hi.
  lemma {:induction false} BitOfSum(lo: nat, k: nat, hi: nat, i: nat)
    requires lo < Pow2(k)
    ensures Bit(lo + Shl(hi, k), i) == if i < k then Bit(lo, i) else Bit(hi, i - k)
  {
    if k > 0 {
      assert Shl(hi, k) == 2 * Shl(hi, k - 1);
      assert (lo + Shl(hi, k)) / 2 == lo / 2 + Shl(hi, k - 1);
      if i > 0 { BitOfSum(lo / 2, k - 1, hi, i - 1); }
    }
  }

  lemma ByteBelow(b: Byte)
    ensures b < Pow2(8)
  {
    assert Pow2(8) == 2 * Pow2(7) == 4 * Pow2(6) == 8 * Pow2(5) == 16 * Pow2(4) == 32 * Pow2(3)
        == 64 * Pow2(2) == 128 * Pow2(1);
  }

  lemma Shl8(w: nat)
    ensures Shl(w, 8) == 0x100 * w
  {
    assert Shl(w, 2) == 2 * Shl(w, 1) == 4 * Shl(w, 0) == 4 * w;
    assert Shl(w, 4) == 2 * Shl(w, 3) == 16 * w;
    assert Shl(w, 6) == 2 * Shl(w, 5) == 64 * w;
    assert Shl(w, 8) == 2 * Shl(w, 7) == 256 * w;
  }

  lemma {:induction false} ValueBit(s: seq<Byte>, i: nat)
    ensures Bit(Value(s), i) == if i < 8 * |s| then StreamBit(s, i) else 0
    decreases |s|
  {
    if s == [] {
      ZeroBit(i);
    } else {
      ByteBelow(s[0]);
      Shl8(Value(s[1..]));
      BitOfSum(s[0], 8, Value(s[1..]), i);
      if i >= 8 {
        ValueBit(s[1..], i - 8);
        assert i / 8 == (i - 8) / 8 + 1 && i % 8 == (i - 8) % 8;
      }
    }
  }

  lemma {:induction false} FieldBelow(s: seq<Byte>, p: nat, n: nat)
    requires p + n <= 8 * |s|
    ensures Field(s, p, n) < Pow2(n)
    decreases n
  {
    if n > 0 { FieldBelow(s, p + 1, n - 1); }
  }

  // The low n bytes of a word, low byte first.
  function BytesOf(w: nat, n: nat): (s: seq<Byte>)
    ensures |s| == n
  {
    if n == 0 then [] else [w % 0x100] + BytesOf(w / 0x100, n - 1)
  }

  lemma {:induction false} BytesOfBit(w: nat, n: nat, i: nat)
    requires i < 8 * n
    ensures StreamBit(BytesOf(w, n), i) == Bit(w, i)
    decreases n
  {
    ByteBelow(w % 0x100);
    Shl8(w / 0x100);
    BitOfSum(w % 0x100, 8, w / 0x100, i);
    if i >= 8 {
      BytesOfBit(w / 0x100, n - 1, i - 8);
      assert i / 8 == (i - 8) / 8 + 1 && i % 8 == (i - 8) % 8;
    }
  }

  // Bytes are settled by their bits.
  lemma {:induction false} SameBitsSameBytes(s: seq<Byte>, t: seq<Byte>)
    requires |s| == |t|
    requires forall i: nat | i < 8 * |s| :: StreamBit(s, i) == StreamBit(t, i)
    ensures s == t
  {
    forall k | 0 <= k < |s| ensures s[k] == t[k] {
      forall i: nat ensures Bit(s[k], i) == Bit(t[k], i) {
        if i < 8 {
          assert StreamBit(s, 8 * k + i) == StreamBit(t, 8 * k + i);
          assert (8 * k + i) / 8 == k && (8 * k + i) % 8 == i;
        } else {
          ByteBelow(s[k]);
          ByteBelow(t[k]);
          NoHighBit(s[k], 8, i);
          NoHighBit(t[k], 8, i);
        }
      }
      SameBitsSameWord(s[k], t[k]);
    }
  }
}
