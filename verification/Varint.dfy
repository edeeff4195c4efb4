/** Numbers as text, five bits a character (BeefySysLib/Common.cpp). */
module Varint {
  import opened Bits
  import opened TwosComplement
  import opened Base64
  import opened Groups
  import opened Options

  // What 64 bits keep of a number.
  function Low64(x: nat): nat { x % U64 }

  // ----- texts and their groups -----

  function Digits(s: string): (g: seq<Group>)
    ensures |g| == |s|
  {
    if s == "" then [] else [Digit(s[0])] + Digits(s[1..])
  }

  function Chars(g: seq<Group>): (s: string)
    ensures |s| == |g|
  {
    if g == [] then "" else [CharOf(g[0])] + Chars(g[1..])
  }

  function Encode(v: nat): string {
    Chars(GroupsOf(v))
  }

  lemma {:induction false} DigitsAt(s: string, i: nat)
    requires i < |s|
    ensures Digits(s)[i] == Digit(s[i])
  {
    if i > 0 { DigitsAt(s[1..], i - 1); }
  }

  lemma {:induction false} CharsAt(g: seq<Group>, i: nat)
    requires i < |g|
    ensures Chars(g)[i] == CharOf(g[i])
  {
    if i > 0 { CharsAt(g[1..], i - 1); }
  }

  lemma {:induction false} CharsDigits(g: seq<Group>)
    ensures Digits(Chars(g)) == g
  {
    if g != [] {
      TablesInvert(g[0]);
      CharsDigits(g[1..]);
    }
  }

  lemma {:induction false} DigitsOfSlice(s: string, p: nat, q: nat)
    requires p <= q <= |s|
    ensures Digits(s)[p..q] == Digits(s[p..q])
  {
    forall i | 0 <= i < q - p ensures Digits(s)[p..q][i] == Digits(s[p..q])[i] {
      DigitsAt(s, p + i);
      DigitsAt(s[p..q], i);
    }
  }

  // t stands at p, whatever comes before and after.
  predicate StandsAt(s: string, p: nat, t: string) {
    p + |t| <= |s| && s[p..p + |t|] == t
  }

  /** Decoding at an encoding gives the number back and stops right behind it. */
  lemma RoundTrip(s: string, p: nat, v: nat)
    requires StandsAt(s, p, Encode(v))
    ensures Decoded(Digits(s), p) == v
    ensures End(Digits(s), p) == p + |Encode(v)|
  {
    DigitsOfSlice(s, p, p + |Encode(v)|);
    CharsDigits(GroupsOf(v));
    GroupsRoundTrip(Digits(s), p, v);
  }

  /** No encoding is a proper prefix of another. */
  lemma PrefixFree(v: nat, w: nat)
    requires Encode(v) <= Encode(w)
    ensures v == w
  {
    RoundTrip(Encode(w), 0, v);
    RoundTrip(Encode(w), 0, w);
  }

  /** A 64-bit number takes one to thirteen characters; at most k for up to 5k bits. */
  lemma EncodedLength(v: nat, k: nat)
    requires v < U64 && k > 0
    ensures 1 <= |Encode(v)| <= 13
    ensures |Encode(v)| <= k <==> v < Pow2(5 * k)
  {
    U64IsPow2();
    assert Pow2(65) == 2 * Pow2(64);
    GroupCount(v, 13);
    GroupCount(v, k);
  }

  ghost predicate InAlphabet(c: char) { CharOf(Digit(c)) == c }

  // Only the alphabet, and no needless zero group at the end.
  ghost predicate Canonical(s: string, p: nat)
    requires p <= |s|
  {
    Minimal(Digits(s), p) && forall i :: p <= i < End(Digits(s), p) ==> InAlphabet(s[i])
  }

  // A thirteenth group does not reach beyond bit 63.
  ghost predicate NoWrap(s: string, p: nat)
    requires p <= |s|
  {
    End(Digits(s), p) - p == 13 && p + 13 <= |s| ==> Digit(s[p + 12]) < 16
  }

  /**
   * Encoding what 64 bits keep of a decoded number gives the text back exactly when it was canonical
   * and its thirteenth group, if it has one, does not reach beyond bit 63.
   */
  lemma ReEncoded(s: string, p: nat)
    requires p <= |s| && End(Digits(s), p) - p <= 13
    ensures StandsAt(s, p, Encode(Low64(Decoded(Digits(s), p))))
            <==> Canonical(s, p) && NoWrap(s, p)
  {
    var w := Low64(Decoded(Digits(s), p));
    if StandsAt(s, p, Encode(w)) { GivenBackFits(s, p, w); }
    if Canonical(s, p) && NoWrap(s, p) {
      FitsGivenBack(s, p);
    }
  }

  lemma GivenBackFits(s: string, p: nat, w: nat)
    requires p <= |s| && End(Digits(s), p) - p <= 13 && w < U64 && StandsAt(s, p, Encode(w))
    ensures Canonical(s, p) && NoWrap(s, p)
  {
    RoundTrip(s, p, w);
    EncodedIsCanonical(s, p, w);
    Fits64(Digits(s), p);
    if End(Digits(s), p) - p == 13 { DigitsAt(s, p + 12); }
  }

  lemma FitsGivenBack(s: string, p: nat)
    requires p <= |s| && End(Digits(s), p) - p <= 13 && Canonical(s, p)
    requires NoWrap(s, p)
    ensures Low64(Decoded(Digits(s), p)) == Decoded(Digits(s), p) && StandsAt(s, p, Encode(Decoded(Digits(s), p)))
  {
    if End(Digits(s), p) - p == 13 { DigitsAt(s, p + 12); }
    Fits64(Digits(s), p);
    SmallStays(Decoded(Digits(s), p));
    CanonicalIsEncoded(s, p);
  }

  lemma SmallStays(x: nat)
    requires x < U64
    ensures Low64(x) == x
  {
  }

  /** Canonical texts of 65-bit numbers, "GGGGGGGGGGGGq" the first of them, wrap and are not given back. */
  lemma WrappingText(v: nat)
    requires U64 <= v < 2 * U64
    ensures |Encode(v)| == End(Digits(Encode(v)), 0) == 13 && Canonical(Encode(v), 0)
    ensures Low64(Decoded(Digits(Encode(v)), 0)) == v - U64
    ensures Encode(v - U64) != Encode(v)
  {
    ThirteenCharacters(v);
    WrapsOnce(v);
    DifferentTexts(v - U64, v);
    EncodeStands(v);
    RoundTrip(Encode(v), 0, v);
    EncodedIsCanonical(Encode(v), 0, v);
  }

  lemma EncodeStands(v: nat)
    ensures StandsAt(Encode(v), 0, Encode(v))
  {
    assert Encode(v)[0..0 + |Encode(v)|] == Encode(v);
  }

  lemma DifferentTexts(v: nat, w: nat)
    requires v != w
    ensures Encode(v) != Encode(w)
  {
    if Encode(v) == Encode(w) { PrefixFree(v, w); }
  }

  lemma WrapsOnce(v: nat)
    requires U64 <= v < 2 * U64
    ensures Low64(v) == v - U64
  {
  }

  lemma ThirteenCharacters(v: nat)
    requires U64 <= v < 2 * U64
    ensures |Encode(v)| == 13
  {
    U64IsPow2();
    assert Pow2(65) == 2 * Pow2(64);
    assert Pow2(64) == 2 * Pow2(63) == 4 * Pow2(62) == 8 * Pow2(61) == 16 * Pow2(60);
    GroupCount(v, 13);
    GroupCount(v, 12);
  }

  /** Zero with a needless group is read, but not how zero is written. */
  lemma NeedlessGroup()
    ensures End(Digits("Ga"), 0) == 2 && Decoded(Digits("Ga"), 0) == 0
    ensures !Canonical("Ga", 0) && Encode(0) == "a"
  {
    LetterValues('G');
    LetterValues('a');
    LettersInOrder(0);
    DigitsAt("Ga", 0);
    DigitsAt("Ga", 1);
  }

  lemma EncodedIsCanonical(s: string, p: nat, v: nat)
    requires StandsAt(s, p, Encode(v))
    ensures p <= |s| && Canonical(s, p)
  {
    var e := p + |Encode(v)|;
    RoundTrip(s, p, v);
    DigitsOfSlice(s, p, e);
    CharsDigits(GroupsOf(v));
    GroupsAgain(Digits(s), p);
    forall i | p <= i < e ensures InAlphabet(s[i]) {
      assert s[i] == s[p..e][i - p];
      AlphabetAt(GroupsOf(v), s[p..e], i - p);
    }
  }

  lemma AlphabetAt(g: seq<Group>, t: string, i: nat)
    requires t == Chars(g) && i < |g|
    ensures i < |t| && InAlphabet(t[i])
  {
    CharsAt(g, i);
    FromAlphabet(g[i], t[i]);
  }

  lemma FromAlphabet(d: Group, c: char)
    requires c == CharOf(d)
    ensures InAlphabet(c)
  {
    TablesInvert(d);
  }

  lemma CanonicalIsEncoded(s: string, p: nat)
    requires p <= |s| && Canonical(s, p)
    ensures StandsAt(s, p, Encode(Decoded(Digits(s), p)))
  {
    var g := Digits(s);
    var v, e := Decoded(g, p), End(g, p);
    GroupsAgain(g, p);
    GroupsRoundTrip(g, p, v);
    DigitsOfSlice(s, p, e);
    SliceInAlphabet(s, p, e);
    CharsOfDigits(s[p..e]);
    assert g[p..e] == GroupsOf(v);
    assert s[p..e] == Encode(v);
  }

  lemma SliceInAlphabet(s: string, p: nat, e: nat)
    requires p <= e <= |s| && forall i :: p <= i < e ==> InAlphabet(s[i])
    ensures forall c | c in s[p..e] :: InAlphabet(c)
  {
  }

  lemma {:induction false} CharsOfDigits(s: string)
    requires forall c | c in s :: InAlphabet(c)
    ensures Chars(Digits(s)) == s
  {
    if s != "" {
      assert InAlphabet(s[0]);
      CharsOfDigits(s[1..]);
    }
  }

  // ----- lists -----

  function EncodeAll(vs: seq<nat>): string {
    Chars(AllGroups(vs))
  }

  lemma {:induction false} CharsOfSum(g: seq<Group>, h: seq<Group>)
    ensures Chars(g + h) == Chars(g) + Chars(h)
  {
    if g == [] {
      assert g + h == h;
    } else {
      assert (g + h)[1..] == g[1..] + h && (g + h)[0] == g[0];
      CharsOfSum(g[1..], h);
      assert Chars(g + h) == [CharOf(g[0])] + Chars(g[1..] + h);
    }
  }

  /** The encodings one after the other. */
  lemma EncodeAllJoins(vs: seq<nat>)
    ensures EncodeAll([]) == ""
    ensures vs != [] ==> EncodeAll(vs) == Encode(vs[0]) + EncodeAll(vs[1..])
  {
    if vs != [] {
      CharsOfSum(GroupsOf(vs[0]), AllGroups(vs[1..]));
    }
  }

  // n numbers read from a place in a text.
  function DecodeText(s: string, p: nat, n: nat): Option<(seq<nat>, nat)> {
    if p <= |s| then Some(DecodeAll(Digits(s), p, n)) else None
  }

  /** Every list comes back, and the reading stops at its end. */
  lemma ListRoundTrip(s: string, p: nat, vs: seq<nat>)
    requires StandsAt(s, p, EncodeAll(vs))
    ensures DecodeText(s, p, |vs|) == Some((vs, p + |EncodeAll(vs)|))
  {
    AllDigits(s, p, vs);
    AllGroupsRoundTrip(Digits(s), p, vs);
  }

  lemma AllDigits(s: string, p: nat, vs: seq<nat>)
    requires StandsAt(s, p, EncodeAll(vs))
    ensures |EncodeAll(vs)| == |AllGroups(vs)| && AllStand(Digits(s), p, vs)
  {
    var e := p + |EncodeAll(vs)|;
    assert s[p..e] == EncodeAll(vs);
    DigitsOfSlice(s, p, e);
    CharsDigits(AllGroups(vs));
    assert Digits(s)[p..e] == AllGroups(vs);
  }

  // ----- the loops -----

  class StringBuffer {
    var mText: string

    method EncodeULEB32(value: nat)
      requires value < U64
      modifies this
      ensures mText == old(mText) + Encode(value)
    {
      var rest := value;
      while true
        invariant mText + Encode(rest) == old(mText) + Encode(value)
        decreases rest
      {
        ghost var was := rest;
        var byteVal;
        byteVal, rest := NextGroup(rest);
        EncodeStep(mText, was, byteVal);
        mText := mText + [CharOf(byteVal)];
        if rest == 0 { break; }
      }
    }
  }

  // Takes the low five bits off, and marks them if more will follow.
  method NextGroup(value: nat) returns (byteVal: Group, rest: nat)
    ensures rest == value / 32
    ensures byteVal == if value < 32 then value else value % 32 + 32
  {
    LowFive(value);
    byteVal := And(value, 0x1f);
    BitFive(byteVal);
    rest := Shr(value, 5);
    if rest != 0 { byteVal := Or(byteVal, 0x20); }
  }

  // One character of the encoding.
  lemma EncodeStep(text: string, v: nat, byteVal: Group)
    requires byteVal == if v < 32 then v else v % 32 + 32
    ensures text + Encode(v) == text + [CharOf(byteVal)] + if v / 32 == 0 then "" else Encode(v / 32)
  {
    if v >= 32 { assert GroupsOf(v)[1..] == GroupsOf(v / 32); }
    assert Encode(v) == [CharOf(byteVal)] + if v / 32 == 0 then "" else Encode(v / 32);
  }

  // The sum so far is what the groups still to come leave of the whole number.
  ghost predicate SumSoFar(g: seq<Group>, p: nat, q: nat, shift: nat, val: nat)
  {
    p <= q <= |g| && End(g, q) == End(g, p)
    && Shl(Decoded(g, q), shift) <= Decoded(g, p)
    && val == Low64(Decoded(g, p) - Shl(Decoded(g, q), shift))
  }

  // The number at p ends at q, and val is what 64 bits keep of it.
  ghost predicate Summed(g: seq<Group>, p: nat, q: nat, val: nat) {
    p <= |g| && End(g, p) == q && val == Low64(Decoded(g, p))
  }

  lemma SumStep(g: seq<Group>, p: nat, q: nat, shift: nat, val: nat)
    requires SumSoFar(g, p, q, shift, val)
    ensures var v := Low64(val + Shl(And(GroupAt(g, q), 0x1f), shift));
      if And(GroupAt(g, q), 0x20) != 0 then SumSoFar(g, p, q + 1, shift + 5, v)
      else Summed(g, p, q + 1, v)
  {
    var d := GroupAt(g, q);
    LowFive(d);
    BitFive(d);
    var rest := if d >= 32 then Decoded(g, q + 1) else 0;
    assert Decoded(g, q) == d % 32 + 32 * rest;
    ShlGroup(d % 32, rest, shift);
    if d < 32 { ShlZero(shift + 5); }
    AddWraps(Decoded(g, p), Shl(d % 32, shift), Shl(rest, shift + 5));
  }

  // Taking the next part from what is still to come keeps the sum, wrapped or not.
  lemma AddWraps(whole: nat, next: nat, rest: nat)
    requires next + rest <= whole
    ensures Low64(Low64(whole - (next + rest)) + next) == Low64(whole - rest)
  {
    var x := whole - (next + rest);
    assert x == U64 * (x / U64) + x % U64;
    assert x + next == U64 * (x / U64 + (x % U64 + next) / U64) + (x % U64 + next) % U64;
  }

  lemma {:induction false} ShlZero(k: nat)
    ensures Shl(0, k) == 0
  {
    if k > 0 { ShlZero(k - 1); }
  }

  // The value of the character at q, the zero terminator's behind the text.
  function CharValue(s: string, q: nat): Group {
    if q < |s| then Digit(s[q]) else 0
  }

  lemma CharValueIs(s: string, q: nat)
    requires q <= |s|
    ensures CharValue(s, q) == GroupAt(Digits(s), q)
  {
    if q < |s| { DigitsAt(s, q); }
  }

  // One turn: adds the low five bits, and reports whether bit 5 announces another group.
  method AddGroup(val: nat, charVal: Group, shift: nat, ghost g: seq<Group>, ghost p: nat, ghost q: nat)
    returns (v: nat, more: bool)
    requires SumSoFar(g, p, q, shift, val) && charVal == GroupAt(g, q)
    ensures if more then SumSoFar(g, p, q + 1, shift + 5, v) else Summed(g, p, q + 1, v)
  {
    SumStep(g, p, q, shift, val);
    v := Low64(val + Shl(And(charVal, 0x1f), shift));
    more := And(charVal, 0x20) != 0;
  }

  /** What is returned for a number: the one in the range of the signed type that differs from it by a multiple of 2^64. */
  lemma SignedRest(x: nat)
    ensures var r := ToInt64(Low64(x));
      -0x8000_0000_0000_0000 <= r < 0x8000_0000_0000_0000 && (r - x) % U64 == 0
  {
  }

  // Reads one number at p, wrapping at 64 bits, and moves past it. No shift leaves the width.
  method DecodeULEB32(s: string, p: nat) returns (r: int, q: nat)
    requires p <= |s| && forall c :: c in s ==> c as int < 255
    requires End(Digits(s), p) - p <= 13
    ensures q == End(Digits(s), p)
    ensures r == ToInt64(Low64(Decoded(Digits(s), p)))
  {
    ghost var g := Digits(s);
    var val: nat, shift: nat := 0, 0;
    q := p;
    while true
      invariant SumSoFar(g, p, q, shift, val) && shift == 5 * (q - p)
      decreases |s| - q
    {
      var charVal := CharValue(s, q);
      CharValueIs(s, q);
      assert q < End(g, p) && shift < 64;
      var more;
      val, more := AddGroup(val, charVal, shift, g, p, q);
      q := q + 1;
      shift := shift + 5;
      if !more { break; }
    }
    assert Summed(g, p, q, val);
    r := ToInt64(val);
  }

  /** Any list of 64-bit numbers, decoded one after the other, comes back as signed numbers; the reading stops at its end. */
  method DecodeList(s: string, p: nat, count: nat, ghost us: seq<nat>) returns (vs: seq<int>, q: nat)
    requires forall c :: c in s ==> c as int < 255
    requires All64(us) && StandsAt(s, p, EncodeAll(us)) && count == |us|
    ensures vs == Signed(us) && q == p + |EncodeAll(us)|
  {
    vs, q := [], p;
    ghost var rest: seq<nat> := us;
    while |vs| < count
      invariant All64(rest) && Signed(us) == vs + Signed(rest) && |vs| + |rest| == |us|
      invariant StandsAt(s, q, EncodeAll(rest)) && q + |EncodeAll(rest)| == p + |EncodeAll(us)|
    {
      var v;
      v, q := DecodeNext(s, q, rest);
      SignedStep(us, vs, rest);
      vs, rest := vs + [v], rest[1..];
    }
    assert rest == [];
  }

  lemma SignedStep(us: seq<nat>, vs: seq<int>, rest: seq<nat>)
    requires rest != [] && Signed(us) == vs + Signed(rest)
    ensures Signed(us) == vs + [ToInt64(rest[0])] + Signed(rest[1..])
  {
  }

  predicate All64(us: seq<nat>) {
    us == [] || (us[0] < U64 && All64(us[1..]))
  }

  function Signed(us: seq<nat>): (vs: seq<int>)
    ensures |vs| == |us|
  {
    if us == [] then [] else [ToInt64(us[0])] + Signed(us[1..])
  }

  method DecodeNext(s: string, p: nat, ghost us: seq<nat>) returns (v: int, q: nat)
    requires forall c :: c in s ==> c as int < 255
    requires us != [] && us[0] < U64 && StandsAt(s, p, EncodeAll(us))
    ensures v == ToInt64(us[0]) && q == p + |Encode(us[0])| && StandsAt(s, q, EncodeAll(us[1..]))
    ensures |EncodeAll(us)| == |Encode(us[0])| + |EncodeAll(us[1..])|
  {
    NextFits(s, p, us);
    v, q := DecodeULEB32(s, p);
  }

  // What stands first is a number that decoding gives back.
  lemma NextFits(s: string, p: nat, us: seq<nat>)
    requires us != [] && us[0] < U64 && StandsAt(s, p, EncodeAll(us))
    ensures var e := p + |Encode(us[0])|;
      && p <= |s| && End(Digits(s), p) == e <= p + 13 && Low64(Decoded(Digits(s), p)) == us[0]
      && StandsAt(s, e, EncodeAll(us[1..])) && |EncodeAll(us)| == |Encode(us[0])| + |EncodeAll(us[1..])|
  {
    FirstStands(s, p, us);
    RoundTrip(s, p, us[0]);
    EncodedLength(us[0], 13);
    SmallStays(us[0]);
  }

  lemma FirstStands(s: string, p: nat, us: seq<nat>)
    requires us != [] && StandsAt(s, p, EncodeAll(us))
    ensures StandsAt(s, p, Encode(us[0])) && StandsAt(s, p + |Encode(us[0])|, EncodeAll(us[1..]))
    ensures |EncodeAll(us)| == |Encode(us[0])| + |EncodeAll(us[1..])|
  {
    EncodeAllJoins(us);
    StandInARow(s, p, Encode(us[0]), EncodeAll(us[1..]));
  }

  lemma StandInARow(s: string, p: nat, t: string, u: string)
    requires StandsAt(s, p, t + u)
    ensures StandsAt(s, p, t) && StandsAt(s, p + |t|, u)
  {
    assert s[p..p + |t|] == (t + u)[..|t|] == t;
    assert s[p + |t|..p + |t| + |u|] == (t + u)[|t|..] == u;
  }
}
