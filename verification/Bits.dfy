/** Words as natural numbers, least significant bit first, with the shifts and masks of the source. */
module Bits {
  predicate IsBit(b: nat) { b <= 1 }

  function Bit(w: nat, i: nat): (b: nat)
    ensures IsBit(b)
  {
    if i == 0 then w % 2 else Bit(w / 2, i - 1)
  }

  function Pow2(k: nat): (p: nat)
    ensures p >= 1
  {
    if k == 0 then 1 else 2 * Pow2(k - 1)
  }

  // w << k
  function Shl(w: nat, k: nat): nat {
    if k == 0 then w else 2 * Shl(w, k - 1)
  }

  // w >> k
  function Shr(w: nat, k: nat): nat {
    if k == 0 then w else Shr(w / 2, k - 1)
  }

  // w & m
  function And(w: nat, m: nat): nat {
    if w == 0 then 0 else (if w % 2 == 1 && m % 2 == 1 then 1 else 0) + 2 * And(w / 2, m / 2)
  }

  // w | m
  function Or(w: nat, m: nat): nat
    decreases w + m
  {
    if w == 0 && m == 0 then 0
    else (if w % 2 == 1 || m % 2 == 1 then 1 else 0) + 2 * Or(w / 2, m / 2)
  }

  // What a k-bit register keeps of w.
  function Low(w: nat, k: nat): nat {
    if k == 0 then 0 else w % 2 + 2 * Low(w / 2, k - 1)
  }

  // ~w in a k-bit register
  function Not(w: nat, k: nat): nat {
    if k == 0 then 0 else 1 - w % 2 + 2 * Not(w / 2, k - 1)
  }

  lemma {:induction false} BitNot(w: nat, k: nat, i: nat)
    ensures Bit(Not(w, k), i) == if i < k then 1 - Bit(w, i) else 0
  {
    if k == 0 { ZeroBit(i); }
    else if i > 0 { BitNot(w / 2, k - 1, i - 1); }
  }

  lemma {:induction false} ZeroBit(i: nat)
    ensures Bit(0, i) == 0
  {
    if i > 0 { ZeroBit(i - 1); }
  }

  lemma {:induction false} BitShr(w: nat, k: nat, i: nat)
    ensures Bit(Shr(w, k), i) == Bit(w, i + k)
  {
    if k > 0 { BitShr(w / 2, k - 1, i); }
  }

  lemma {:induction false} BitShl(w: nat, k: nat, i: nat)
    ensures Bit(Shl(w, k), i) == if i < k then 0 else Bit(w, i - k)
  {
    if k > 0 && i > 0 { BitShl(w, k - 1, i - 1); }
  }

  lemma {:induction false} BitAnd(w: nat, m: nat, i: nat)
    ensures Bit(And(w, m), i) == if Bit(w, i) == 1 && Bit(m, i) == 1 then 1 else 0
  {
    if w == 0 { ZeroBit(i); }
    else if i > 0 { BitAnd(w / 2, m / 2, i - 1); }
  }

  lemma {:induction false} BitOr(w: nat, m: nat, i: nat)
    ensures Bit(Or(w, m), i) == if Bit(w, i) == 1 || Bit(m, i) == 1 then 1 else 0
    decreases i
  {
    if w == 0 && m == 0 { ZeroBit(i); }
    else if i > 0 { BitOr(w / 2, m / 2, i - 1); }
  }

  lemma {:induction false} BitLow(w: nat, k: nat, i: nat)
    ensures Bit(Low(w, k), i) == if i < k then Bit(w, i) else 0
  {
    if k == 0 { ZeroBit(i); }
    else if i > 0 { BitLow(w / 2, k - 1, i - 1); }
  }

  lemma {:induction false} BitPow2Less1(k: nat, i: nat)
    ensures Bit(Pow2(k) - 1, i) == if i < k then 1 else 0
  {
    if k == 0 { ZeroBit(i); }
    else if i > 0 {
      assert (Pow2(k) - 1) / 2 == Pow2(k - 1) - 1;
      BitPow2Less1(k - 1, i - 1);
    }
  }

  ghost predicate SameBits(v: nat, w: nat) { forall i: nat :: Bit(v, i) == Bit(w, i) }

  lemma {:induction false} SameBitsSameWord(v: nat, w: nat)
    requires SameBits(v, w)
    ensures v == w
    decreases v + w
  {
    if v != 0 || w != 0 {
      assert Bit(v, 0) == Bit(w, 0);
      forall i: nat ensures Bit(v / 2, i) == Bit(w / 2, i) {
        assert Bit(v, i + 1) == Bit(w, i + 1);
      }
      SameBitsSameWord(v / 2, w / 2);
    }
  }

  // A word below 2^k has no bit from k on.
  lemma {:induction false} NoHighBit(w: nat, k: nat, i: nat)
    requires w < Pow2(k) && k <= i
    ensures Bit(w, i) == 0
  {
    if k == 0 { ZeroBit(i); } else { NoHighBit(w / 2, k - 1, i - 1); }
  }

  const U64 := 0x1_0000_0000_0000_0000

  lemma U64IsPow2()
    ensures Pow2(64) == U64
  {
    assert Pow2(2) == 2 * Pow2(1) == 4 * Pow2(0) == 4;
    assert Pow2(4) == 2 * Pow2(3) == 16;
    DoubledPow2(4, 4);
    DoubledPow2(8, 8);
    DoubledPow2(16, 16);
    DoubledPow2(32, 32);
  }

  lemma {:induction false} DoubledPow2(j: nat, k: nat)
    ensures Pow2(j + k) == Pow2(j) * Pow2(k)
  {
    if k > 0 { DoubledPow2(j, k - 1); }
  }

  lemma {:induction false} AndZero(v: nat)
    ensures And(v, 0) == 0
  {
    if v > 0 { AndZero(v / 2); }
  }

  // The low k bits and the rest make up the word.
  lemma {:induction false} LowAndRest(v: nat, k: nat)
    ensures And(v, Pow2(k) - 1) + Shl(Shr(v, k), k) == v
  {
    if k == 0 {
      AndZero(v);
    } else {
      assert (Pow2(k) - 1) / 2 == Pow2(k - 1) - 1;
      LowAndRest(v / 2, k - 1);
    }
  }

  lemma {:induction false} ShlIsProduct(w: nat, k: nat)
    ensures Shl(w, k) == w * Pow2(k)
  {
    if k > 0 {
      ShlIsProduct(w, k - 1);
      assert 2 * (w * Pow2(k - 1)) == w * (2 * Pow2(k - 1));
    }
  }

  lemma {:induction false} MaskedBelow(w: nat, k: nat)
    ensures And(w, Pow2(k) - 1) < Pow2(k)
  {
    if k == 0 {
      AndZero(w);
    } else {
      assert (Pow2(k) - 1) / 2 == Pow2(k - 1) - 1;
      MaskedBelow(w / 2, k - 1);
    }
  }

  lemma {:induction false} Pow2Rises(i: nat, j: nat)
    requires i < j
    ensures 2 * Pow2(i) <= Pow2(j)
    decreases j
  {
    if i < j - 1 {
      Pow2Rises(i, j - 1);
    }
  }
}
