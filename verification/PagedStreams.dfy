/** Streams stored as scattered pages of a mapped file, and the readers that must agree on their contents. */
module PagedStreams {
  import opened TempBuffers
  import opened Bits
  import opened Options

  // ----- page arithmetic -----

  /** The page that byte k is on; -1 for the byte before the first. */
  function PageOf(k: int, pageSize: nat): (page: int)
    requires pageSize > 0 && k >= -1
    ensures -1 <= page && (k >= 0 ==> page >= 0)
  {
    if k < 0 then -1 else if k < pageSize then 0 else 1 + PageOf(k - pageSize, pageSize)
  }

  /** The place of byte k on its page. */
  function InPage(k: nat, pageSize: nat): (at: nat)
    requires pageSize > 0
    ensures at < pageSize
  {
    if k < pageSize then k else InPage(k - pageSize, pageSize)
  }

  lemma DivUnique(n: int, d: int, q: int, r: int)
    requires 0 <= r < d && n == q * d + r
    ensures n / d == q && n % d == r
  {
    var q', r' := n / d, n % d;
    assert n == q' * d + r';
    assert (q - q') * d == r' - r && (q' - q) * d == r - r';
    if q' < q {
      AtLeastOne(q - q', d);
    } else if q < q' {
      AtLeastOne(q' - q, d);
    }
  }

  lemma AtLeastOne(x: int, d: int)
    requires x >= 1 && d >= 0
    ensures x * d >= d
  {
  }

  /** Page number and place on the page are quotient and remainder. */
  lemma {:induction false} PageIsQuotient(k: nat, pageSize: nat)
    requires pageSize > 0
    ensures k == PageOf(k, pageSize) * pageSize + InPage(k, pageSize)
    ensures PageOf(k, pageSize) == k / pageSize && InPage(k, pageSize) == k % pageSize
  {
    if k >= pageSize {
      PageIsQuotient(k - pageSize, pageSize);
      assert (1 + PageOf(k - pageSize, pageSize)) * pageSize == pageSize + PageOf(k - pageSize, pageSize) * pageSize;
    }
    DivUnique(k, pageSize, PageOf(k, pageSize), InPage(k, pageSize));
  }

  lemma {:induction false} PagesRise(pageSize: nat, k: int, l: int)
    requires pageSize > 0 && -1 <= k <= l
    ensures PageOf(k, pageSize) <= PageOf(l, pageSize)
    decreases l
  {
    if k >= pageSize {
      PagesRise(pageSize, k - pageSize, l - pageSize);
    }
  }

  lemma {:induction false} SamePage(pageSize: nat, offset: nat, i: nat)
    requires pageSize > 0 && InPage(offset, pageSize) + i < pageSize
    ensures PageOf(offset + i, pageSize) == PageOf(offset, pageSize)
    ensures InPage(offset + i, pageSize) == InPage(offset, pageSize) + i
    decreases offset
  {
    if offset >= pageSize {
      SamePage(pageSize, offset - pageSize, i);
    }
  }

  /** Reading up to the end of a page, the next byte is the first of the next page. */
  lemma {:induction false} NextPage(pageSize: nat, at: nat)
    requires pageSize > 0
    ensures var next := at + (pageSize - InPage(at, pageSize));
            InPage(next, pageSize) == 0 && PageOf(next, pageSize) == PageOf(at, pageSize) + 1
    decreases at
  {
    if at >= pageSize {
      NextPage(pageSize, at - pageSize);
    }
  }

  /** First and last byte on the same page: the range stays on it. */
  lemma {:induction false} StaysOnPage(pageSize: nat, offset: nat, size: nat)
    requires pageSize > 0
    requires PageOf(offset, pageSize) >= PageOf(offset + size - 1, pageSize)
    ensures InPage(offset, pageSize) + size <= pageSize
    decreases offset
  {
    if offset >= pageSize {
      StaysOnPage(pageSize, offset - pageSize, size);
    }
  }

  /** The file offset of a page: its number times the page size. */
  function PageAddr(page: nat, pageSize: nat): nat {
    if page == 0 then 0 else PageAddr(page - 1, pageSize) + pageSize
  }

  lemma {:induction false} PageAddrIsProduct(page: nat, pageSize: nat)
    ensures PageAddr(page, pageSize) == page * pageSize
  {
    if page > 0 {
      PageAddrIsProduct(page - 1, pageSize);
      OneMorePage(page - 1, pageSize);
    }
  }

  lemma OneMorePage(page: int, pageSize: int)
    ensures (page + 1) * pageSize == page * pageSize + pageSize
  {
  }

  /** The number of pages that hold `size` bytes; none for an absent stream. */
  function PageCount(size: int, pageSize: nat): nat
    requires pageSize > 0
  {
    if size <= 0 then 0 else PageOf(size + pageSize - 1, pageSize)
  }

  lemma PageCountHolds(size: int, pageSize: nat, k: nat)
    requires pageSize > 0 && k < size
    ensures PageOf(k, pageSize) < PageCount(size, pageSize)
  {
    PagesRise(pageSize, k, size - 1);
  }

  // ----- shifts and masks -----

  /** k >> pageBits, which is -1 for k == -1. */
  function PageNo(k: int, pageBits: nat): (page: int)
    requires k >= -1
    ensures k >= 0 ==> page >= 0
  {
    if k < 0 then -1 else Shr(k, pageBits)
  }

  /** k & ((1 << pageBits) - 1) */
  function PageOffset(k: nat, pageBits: nat): nat {
    And(k, Pow2(pageBits) - 1)
  }

  /** Shifting and masking divide by 2^pageBits. */
  lemma ShiftDivides(k: nat, pageBits: nat)
    ensures PageNo(k, pageBits) == PageOf(k, Pow2(pageBits))
    ensures PageOffset(k, pageBits) == InPage(k, Pow2(pageBits))
  {
    var size := Pow2(pageBits);
    LowAndRest(k, pageBits);
    ShlIsProduct(Shr(k, pageBits), pageBits);
    MaskedBelow(k, pageBits);
    DivUnique(k, size, Shr(k, pageBits), And(k, size - 1));
    PageIsQuotient(k, size);
  }

  /** Shifting and masking agree with dividing by the page size exactly when that is a power of two. */
  lemma PageBitsExact(pageSize: nat, pageBits: nat)
    requires Pow2(pageBits) <= pageSize < 2 * Pow2(pageBits)
    ensures (forall k: nat :: PageNo(k, pageBits) == k / pageSize && PageOffset(k, pageBits) == k % pageSize)
            <==> exists n: nat :: pageSize == Pow2(n)
  {
    OnlyPowerBetween(pageSize, pageBits);
    if pageSize == Pow2(pageBits) {
      forall k: nat ensures PageNo(k, pageBits) == k / pageSize && PageOffset(k, pageBits) == k % pageSize {
        ShiftDivides(k, pageBits);
        PageIsQuotient(k, pageSize);
      }
    } else {
      SecondPage(pageBits);
      SmallQuotient(Pow2(pageBits), pageSize);
      assert PageNo(Pow2(pageBits), pageBits) != Pow2(pageBits) / pageSize;
    }
  }

  lemma SmallQuotient(k: nat, pageSize: nat)
    requires k < pageSize
    ensures k / pageSize == 0
  {
    PageIsQuotient(k, pageSize);
  }

  lemma OnlyPowerBetween(pageSize: nat, pageBits: nat)
    requires Pow2(pageBits) <= pageSize < 2 * Pow2(pageBits)
    ensures pageSize == Pow2(pageBits) <==> exists n: nat :: pageSize == Pow2(n)
  {
    if n: nat :| pageSize == Pow2(n) {
      if n < pageBits {
        Pow2Rises(n, pageBits);
      } else if pageBits < n {
        Pow2Rises(pageBits, n);
      }
    }
  }

  // ----- contents -----

  /** Byte k of a stream whose pages start at the file offsets `ptrs`. */
  function StreamByte(view: seq<Byte>, ptrs: seq<nat>, pageSize: nat, k: nat): Byte
    requires pageSize > 0
  {
    var page, at := PageOf(k, pageSize), InPage(k, pageSize);
    if page < |ptrs| && ptrs[page] + at < |view| then view[ptrs[page] + at] else 0
  }

  /** The logical contents of a stream range: what every reader must deliver. */
  function Slice(view: seq<Byte>, ptrs: seq<nat>, pageSize: nat, offset: nat, size: nat): (s: seq<Byte>)
    requires pageSize > 0
    ensures |s| == size
  {
    seq(size, i requires 0 <= i < size => StreamByte(view, ptrs, pageSize, offset + i))
  }

  /** All pages lie inside the file. */
  ghost predicate PagesMapped(view: seq<Byte>, ptrs: seq<nat>, pageSize: nat) {
    forall i | 0 <= i < |ptrs| :: ptrs[i] + pageSize <= |view|
  }

  /** Every byte of the range is on a page of the stream. */
  predicate RangeInPages(ptrs: seq<nat>, pageSize: nat, offset: nat, size: nat)
    requires pageSize > 0
  {
    size > 0 ==> PageOf(offset + size - 1, pageSize) < |ptrs|
  }

  /** A range that stays on one page is a range of the file. */
  lemma SliceOnePage(view: seq<Byte>, ptrs: seq<nat>, pageSize: nat, offset: nat, size: nat, page: nat, at: nat)
    requires pageSize > 0 && PagesMapped(view, ptrs, pageSize)
    requires page == PageOf(offset, pageSize) < |ptrs| && at == ptrs[page] + InPage(offset, pageSize)
    requires InPage(offset, pageSize) + size <= pageSize
    ensures at + size <= |view| && Slice(view, ptrs, pageSize, offset, size) == view[at..at + size]
  {
    assert ptrs[page] + pageSize <= |view|;
    var s := Slice(view, ptrs, pageSize, offset, size);
    forall i | 0 <= i < size ensures s[i] == view[at + i] {
      SamePage(pageSize, offset, i);
      assert PageOf(offset + i, pageSize) == page && ptrs[page] + InPage(offset + i, pageSize) == at + i;
      assert s[i] == StreamByte(view, ptrs, pageSize, offset + i);
    }
  }

  lemma SliceConcat(view: seq<Byte>, ptrs: seq<nat>, pageSize: nat, offset: nat, n: nat, m: nat)
    requires pageSize > 0
    ensures Slice(view, ptrs, pageSize, offset, n) + Slice(view, ptrs, pageSize, offset + n, m) ==
              Slice(view, ptrs, pageSize, offset, n + m)
  {
  }

  /** A segment is the same range of the whole stream. */
  lemma SliceOfWhole(view: seq<Byte>, ptrs: seq<nat>, pageSize: nat, offset: nat, size: nat, total: nat)
    requires pageSize > 0 && offset + size <= total
    ensures Slice(view, ptrs, pageSize, offset, size) == Slice(view, ptrs, pageSize, 0, total)[offset..offset + size]
  {
  }

  // ----- what the page-wise reader finds -----

  /** `n` bytes of the file from place `pageOffset` of the page; none when they are not all there. */
  function OnPage(view: seq<Byte>, ptrs: seq<nat>, page: nat, pageOffset: nat, n: nat): (r: Option<seq<Byte>>)
    ensures r.Some? ==> |r.value| == n
  {
    if page < |ptrs| && ptrs[page] + pageOffset + n <= |view|
    then Some(view[ptrs[page] + pageOffset..ptrs[page] + pageOffset + n]) else None
  }

  /** The copy loop: each step finds its page by shifting, and takes what the page size leaves of it. */
  function Gathered(view: seq<Byte>, ptrs: seq<nat>, pageSize: nat, pageBits: nat, offset: nat, size: nat)
    : (r: Option<seq<Byte>>)
    ensures r.Some? ==> |r.value| == size
    decreases size
  {
    if size == 0 then Some([])
    else
      var pageOffset := PageOffset(offset, pageBits);
      if pageOffset >= pageSize then None
      else
        var n := Min(pageSize - pageOffset, size);
        var here := OnPage(view, ptrs, PageNo(offset, pageBits), pageOffset, n);
        var rest := Gathered(view, ptrs, pageSize, pageBits, offset + n, size - n);
        if here.Some? && rest.Some? then Some(here.value + rest.value) else None
  }

  /** A range in place or copied; none when an access would leave the page table or the file. */
  function Found(inPlace: bool, view: seq<Byte>, ptrs: seq<nat>, pageSize: nat, pageBits: nat, offset: nat, size: nat)
    : (r: Option<seq<Byte>>)
    ensures r.Some? ==> |r.value| == size
  {
    if inPlace then OnPage(view, ptrs, PageNo(offset, pageBits), PageOffset(offset, pageBits), size)
    else Gathered(view, ptrs, pageSize, pageBits, offset, size)
  }

  /** One step of the loop, from its result and to it. */
  lemma GatheredStep(view: seq<Byte>, ptrs: seq<nat>, pageSize: nat, pageBits: nat, offset: nat, size: nat, all: seq<Byte>)
    requires size > 0 && Gathered(view, ptrs, pageSize, pageBits, offset, size) == Some(all)
    ensures var page, at := PageNo(offset, pageBits), PageOffset(offset, pageBits);
            var n := Min(pageSize - at, size);
            && n > 0 && page < |ptrs| && ptrs[page] + at + n <= |view|
            && all[..n] == view[ptrs[page] + at..ptrs[page] + at + n]
            && Gathered(view, ptrs, pageSize, pageBits, offset + n, size - n) == Some(all[n..])
  {
  }

  lemma GatheredFrom(view: seq<Byte>, ptrs: seq<nat>, pageSize: nat, pageBits: nat, offset: nat, size: nat, n: nat,
                     head: seq<Byte>, tail: seq<Byte>)
    requires size > 0 && PageOffset(offset, pageBits) < pageSize && n == Min(pageSize - PageOffset(offset, pageBits), size)
    requires OnPage(view, ptrs, PageNo(offset, pageBits), PageOffset(offset, pageBits), n) == Some(head)
    requires Gathered(view, ptrs, pageSize, pageBits, offset + n, size - n) == Some(tail)
    ensures Gathered(view, ptrs, pageSize, pageBits, offset, size) == Some(head + tail)
  {
  }

  /** For a power of two, one step takes what the logical range has on its first page. */
  lemma FirstPiece(view: seq<Byte>, ptrs: seq<nat>, pageBits: nat, offset: nat, size: nat)
    requires PagesMapped(view, ptrs, Pow2(pageBits)) && RangeInPages(ptrs, Pow2(pageBits), offset, size) && size > 0
    ensures PageOffset(offset, pageBits) < Pow2(pageBits)
    ensures var n := Min(Pow2(pageBits) - PageOffset(offset, pageBits), size);
            && n > 0 && RangeInPages(ptrs, Pow2(pageBits), offset + n, size - n)
            && OnPage(view, ptrs, PageNo(offset, pageBits), PageOffset(offset, pageBits), n)
               == Some(Slice(view, ptrs, Pow2(pageBits), offset, n))
  {
    var pageSize := Pow2(pageBits);
    var page, at := PageOf(offset, pageSize), InPage(offset, pageSize);
    ShiftDivides(offset, pageBits);
    PagesRise(pageSize, offset, offset + size - 1);
    SliceOnePage(view, ptrs, pageSize, offset, Min(pageSize - at, size), page, ptrs[page] + at);
  }

  /** For a power of two, copying yields the logical range. */
  lemma {:induction false} GatheredIsSlice(view: seq<Byte>, ptrs: seq<nat>, pageBits: nat, offset: nat, size: nat)
    requires PagesMapped(view, ptrs, Pow2(pageBits)) && RangeInPages(ptrs, Pow2(pageBits), offset, size)
    ensures Gathered(view, ptrs, Pow2(pageBits), pageBits, offset, size)
         == Some(Slice(view, ptrs, Pow2(pageBits), offset, size))
    decreases size
  {
    var pageSize := Pow2(pageBits);
    if size == 0 {
      assert Slice(view, ptrs, pageSize, offset, 0) == [];
    } else {
      FirstPiece(view, ptrs, pageBits, offset, size);
      var n := Min(pageSize - PageOffset(offset, pageBits), size);
      GatheredIsSlice(view, ptrs, pageBits, offset + n, size - n);
      SliceConcat(view, ptrs, pageSize, offset, n, size - n);
      GatheredFrom(view, ptrs, pageSize, pageBits, offset, size, n,
                   Slice(view, ptrs, pageSize, offset, n), Slice(view, ptrs, pageSize, offset + n, size - n));
    }
  }

  /** For a power of two, a range that starts and ends on the same page is the logical range in place. */
  lemma OnPageIsSlice(view: seq<Byte>, ptrs: seq<nat>, pageBits: nat, offset: nat, size: nat)
    requires PagesMapped(view, ptrs, Pow2(pageBits)) && PageOf(offset, Pow2(pageBits)) < |ptrs|
    requires PageNo(offset, pageBits) >= PageNo(offset + size - 1, pageBits)
    ensures OnPage(view, ptrs, PageNo(offset, pageBits), PageOffset(offset, pageBits), size)
         == Some(Slice(view, ptrs, Pow2(pageBits), offset, size))
  {
    var pageSize := Pow2(pageBits);
    ShiftDivides(offset, pageBits);
    if offset + size > 0 { ShiftDivides(offset + size - 1, pageBits); }
    StaysOnPage(pageSize, offset, size);
    SliceOnePage(view, ptrs, pageSize, offset, size, PageOf(offset, pageSize),
                 ptrs[PageOf(offset, pageSize)] + InPage(offset, pageSize));
  }

  predicate SamePageNo(offset: nat, size: nat, pageBits: nat) {
    PageNo(offset, pageBits) == PageNo(offset + size - 1, pageBits)
  }

  /** Every range of a page table yields the bytes of the logical stream. */
  ghost predicate FindsRanges(pageSize: nat, pageBits: nat)
    requires pageSize > 0
  {
    forall view: seq<Byte>, ptrs: seq<nat>, offset: nat, size: nat
      | size > 0 && PagesMapped(view, ptrs, pageSize) && RangeInPages(ptrs, pageSize, offset, size) ::
      Found(SamePageNo(offset, size, pageBits), view, ptrs, pageSize, pageBits, offset, size)
      == Some(Slice(view, ptrs, pageSize, offset, size))
  }

  lemma FoundIsSlice(view: seq<Byte>, ptrs: seq<nat>, pageBits: nat, offset: nat, size: nat)
    requires size > 0 && PagesMapped(view, ptrs, Pow2(pageBits)) && RangeInPages(ptrs, Pow2(pageBits), offset, size)
    ensures Found(SamePageNo(offset, size, pageBits), view, ptrs, Pow2(pageBits), pageBits, offset, size)
         == Some(Slice(view, ptrs, Pow2(pageBits), offset, size))
  {
    PagesRise(Pow2(pageBits), offset, offset + size - 1);
    if SamePageNo(offset, size, pageBits) {
      OnPageIsSlice(view, ptrs, pageBits, offset, size);
    } else {
      GatheredIsSlice(view, ptrs, pageBits, offset, size);
    }
  }

  /** Two pages in order, a one at the start of the second. */
  function TwoPages(pageSize: nat): (view: seq<Byte>)
    ensures |view| == 2 * pageSize
  {
    seq(2 * pageSize, i => if i == pageSize then 1 else 0)
  }

  /** When 2^pageBits falls short of the page size, that byte of the first page is looked for on the second. */
  lemma ShortPageBits(pageSize: nat, pageBits: nat)
    requires Pow2(pageBits) < pageSize
    ensures var view, ptrs, offset := TwoPages(pageSize), [0, pageSize], Pow2(pageBits);
            PagesMapped(view, ptrs, pageSize) && RangeInPages(ptrs, pageSize, offset, 1)
            && Found(SamePageNo(offset, 1, pageBits), view, ptrs, pageSize, pageBits, offset, 1) == Some([1])
            && Slice(view, ptrs, pageSize, offset, 1) == [0]
  {
    var view, ptrs, offset := TwoPages(pageSize), [0, pageSize], Pow2(pageBits);
    SecondPage(pageBits);
    SecondPageByte(view, ptrs, pageSize);
    SliceOnePage(view, ptrs, pageSize, offset, 1, 0, offset);
    assert view[offset..offset + 1] == [0];
  }

  lemma SecondPage(pageBits: nat)
    ensures PageNo(Pow2(pageBits), pageBits) == 1 && PageOffset(Pow2(pageBits), pageBits) == 0
  {
    ShiftDivides(Pow2(pageBits), pageBits);
  }

  lemma SecondPageByte(view: seq<Byte>, ptrs: seq<nat>, pageSize: nat)
    requires pageSize > 0 && view == TwoPages(pageSize) && ptrs == [0, pageSize]
    ensures OnPage(view, ptrs, 1, 0, 1) == Some([1])
  {
    assert view[pageSize..pageSize + 1] == [view[pageSize]] == [1];
  }

  /** The page-wise reader finds every range exactly when the page size is a power of two. */
  lemma FindsRangesExact(pageSize: nat, pageBits: nat)
    requires Pow2(pageBits) <= pageSize < 2 * Pow2(pageBits)
    ensures FindsRanges(pageSize, pageBits) <==> exists n: nat :: pageSize == Pow2(n)
  {
    OnlyPowerBetween(pageSize, pageBits);
    if pageSize == Pow2(pageBits) {
      forall view: seq<Byte>, ptrs: seq<nat>, offset: nat, size: nat
        | size > 0 && PagesMapped(view, ptrs, pageSize) && RangeInPages(ptrs, pageSize, offset, size)
        ensures Found(SamePageNo(offset, size, pageBits), view, ptrs, pageSize, pageBits, offset, size)
             == Some(Slice(view, ptrs, pageSize, offset, size))
      {
        FoundIsSlice(view, ptrs, pageBits, offset, size);
      }
    } else {
      ShortPageBits(pageSize, pageBits);
    }
  }

  /** Pages of three bytes get one page bit, and byte 2 is read as byte 3. */
  lemma PagesOfThree()
    ensures Pow2(1) <= 3 < 2 * Pow2(1) && !FindsRanges(3, 1)
  {
    assert Pow2(1) == 2 * Pow2(0) == 2;
    ShortPageBits(3, 1);
  }

  // ----- copying -----

  function Min(x: int, y: int): int {
    if x < y then x else y
  }

  /** Copies `n` bytes found on one page behind the `done` bytes already delivered. */
  method CopyPage(view: seq<Byte>, pageSize: nat, ghost ptrs: seq<nat>, dest: array<Byte>, ghost offset: nat, done: nat,
                  at: nat, n: nat) returns (newDone: nat)
    requires pageSize > 0 && PagesMapped(view, ptrs, pageSize) && done + n <= dest.Length
    requires PageOf(offset + done, pageSize) < |ptrs| && InPage(offset + done, pageSize) + n <= pageSize
    requires at == ptrs[PageOf(offset + done, pageSize)] + InPage(offset + done, pageSize)
    requires dest[..done] == Slice(view, ptrs, pageSize, offset, done)
    modifies dest
    ensures newDone == done + n && dest[..newDone] == Slice(view, ptrs, pageSize, offset, newDone)
  {
    SliceOnePage(view, ptrs, pageSize, offset + done, n, PageOf(offset + done, pageSize), at);
    SliceConcat(view, ptrs, pageSize, offset, done, n);
    newDone := CopyBytes(view, dest, done, at, n);
  }

  method CopyBytes(view: seq<Byte>, dest: array<Byte>, done: nat, at: nat, n: nat) returns (newDone: nat)
    requires done + n <= dest.Length && at + n <= |view|
    modifies dest
    ensures newDone == done + n && dest[..newDone] == old(dest[..done]) + view[at..at + n]
  {
    ghost var head, piece := dest[..done], view[at..at + n];
    forall i | 0 <= i < n {
      dest[done + i] := view[at + i];
    }
    newDone := done + n;
    assert dest[..done] == head && dest[done..newDone] == piece;
    assert dest[..newDone] == head + piece;
  }

  lemma SplitFurther(all: seq<Byte>, done: nat, n: nat)
    requires done + n <= |all|
    ensures all[..done] + all[done..][..n] == all[..done + n] && all[done..][n..] == all[done + n..]
  {
  }

  // ----- the page-wise reader -----

  class CvStreamReader {
    const mView: seq<Byte>
    const mCvPageSize: nat
    const mPageBits: nat
    const mStreamPtrs: seq<nat>
    const mSize: int
    var mTempData: array<Byte>

    constructor (view: seq<Byte>, pageSize: nat, pageBits: nat, ptrs: seq<nat>, size: int)
      ensures mView == view && mCvPageSize == pageSize && mPageBits == pageBits
      ensures mStreamPtrs == ptrs && mSize == size && fresh(mTempData)
    {
      mView, mCvPageSize, mPageBits, mStreamPtrs, mSize := view, pageSize, pageBits, ptrs, size;
      mTempData := new Byte[0];
    }

    /** The bytes at a pointer. */
    ghost predicate Holds(p: Pointer, bytes: seq<Byte>)
      reads if p.InBuffer? then {p.buf} else {}
    {
      match p
      case Null => false
      case Mapped(addr) => 0 <= addr && addr + |bytes| <= |mView| && mView[addr..addr + |bytes|] == bytes
      case InBuffer(buf, ofs) => ofs + |bytes| <= buf.Length && buf[ofs..ofs + |bytes|] == bytes
    }

    /** What a range holds for a short time, and for good: they differ only in where an empty range is in place. */
    function TempRange(offset: nat, size: nat): (r: Option<seq<Byte>>)
      ensures r.Some? ==> |r.value| == size
    {
      Found(PageNo(offset, mPageBits) >= PageNo(offset + size - 1, mPageBits),
            mView, mStreamPtrs, mCvPageSize, mPageBits, offset, size)
    }

    function PermanentRange(offset: nat, size: nat): (r: Option<seq<Byte>>)
      ensures r.Some? ==> |r.value| == size
    {
      Found(SamePageNo(offset, size, mPageBits), mView, mStreamPtrs, mCvPageSize, mPageBits, offset, size)
    }

    /** For a power of two, both are the logical range. */
    lemma RangesAgree(offset: nat, size: nat)
      requires mCvPageSize == Pow2(mPageBits) && PagesMapped(mView, mStreamPtrs, mCvPageSize)
      requires PageOf(offset, mCvPageSize) < |mStreamPtrs| && RangeInPages(mStreamPtrs, mCvPageSize, offset, size)
      ensures TempRange(offset, size) == Some(Slice(mView, mStreamPtrs, mCvPageSize, offset, size))
      ensures PermanentRange(offset, size) == Some(Slice(mView, mStreamPtrs, mCvPageSize, offset, size))
    {
      if PageNo(offset, mPageBits) >= PageNo(offset + size - 1, mPageBits) {
        OnPageIsSlice(mView, mStreamPtrs, mPageBits, offset, size);
      }
      GatheredIsSlice(mView, mStreamPtrs, mPageBits, offset, size);
    }

    /** Copies a range page by page into a buffer. */
    method CopyRange(dest: array<Byte>, offset: nat, size: nat, ghost all: seq<Byte>)
      requires size <= dest.Length && Gathered(mView, mStreamPtrs, mCvPageSize, mPageBits, offset, size) == Some(all)
      modifies dest
      ensures dest[..size] == all
    {
      var done: nat, cur: nat, left: nat := 0, offset, size;
      ghost var rest := all;
      assert all[0..] == all;
      while left > 0
        invariant done + left == size && |rest| == left && dest[..done] == all[..done] && rest == all[done..]
        invariant Gathered(mView, mStreamPtrs, mCvPageSize, mPageBits, cur, left) == Some(rest)
      {
        var n;
        n, rest := CopyStep(dest, cur, left, done, rest);
        SplitFurther(all, done, n);
        done, cur, left := done + n, cur + n, left - n;
      }
      assert all[..done] == all;
    }

    /** Copies what the range has on its first page behind the `done` bytes already there. */
    method CopyStep(dest: array<Byte>, offset: nat, size: nat, done: nat, ghost rest: seq<Byte>)
      returns (n: nat, ghost newRest: seq<Byte>)
      requires size > 0 && done + size <= dest.Length
      requires Gathered(mView, mStreamPtrs, mCvPageSize, mPageBits, offset, size) == Some(rest)
      modifies dest
      ensures 0 < n <= size == |rest| && newRest == rest[n..] && dest[..done + n] == old(dest[..done]) + rest[..n]
      ensures Gathered(mView, mStreamPtrs, mCvPageSize, mPageBits, offset + n, size - n) == Some(newRest)
    {
      GatheredStep(mView, mStreamPtrs, mCvPageSize, mPageBits, offset, size, rest);
      var copyPage, pageOffset := PageNo(offset, mPageBits), PageOffset(offset, mPageBits);
      n := Min(mCvPageSize - pageOffset, size);
      newRest := rest[n..];
      var _ := CopyBytes(mView, dest, done, mStreamPtrs[copyPage] + pageOffset, n);
    }

    /** A buffer for a copy: the next one of the stack, or the reader's own. */
    method TempBuffer(size: nat, mayRecurse: bool, stack: TempBufStack) returns (buf: array<Byte>)
      requires stack.Valid() && size > 0 && mTempData !in stack.mTempBufs
      modifies this, stack
      ensures stack.Valid() && buf.Length >= size && mTempData !in stack.mTempBufs
      ensures stack.Live() == old(stack.Live()) + (if mayRecurse then [buf] else [])
      ensures fresh(buf) || (mayRecurse && buf in old(stack.Free())) || (!mayRecurse && buf == old(mTempData))
      ensures buf !in old(stack.Live())
    {
      if mayRecurse {
        buf := stack.Take(size);
      } else {
        if mTempData.Length < size {
          mTempData := new Byte[size](_ => 0);
        }
        buf := mTempData;
      }
    }

    /** A range for a short time: in place, in a buffer of the stack, or in the reader's own buffer. */
    method GetTempPtr(offset: nat, size: nat, mayRecurse: bool, stack: TempBufStack) returns (p: Pointer, madeCopy: bool)
      requires TempRange(offset, size).Some? && stack.Valid() && mTempData !in stack.mTempBufs
      modifies this, stack, stack.Free(), mTempData
      ensures Holds(p, TempRange(offset, size).value) && stack.Valid() && mTempData !in stack.mTempBufs
      ensures madeCopy == p.InBuffer? == (PageNo(offset, mPageBits) < PageNo(offset + size - 1, mPageBits))
      ensures stack.Live() == old(stack.Live()) + (if p.InBuffer? && mayRecurse then [p.buf] else [])
      ensures p.InBuffer? ==> p.ofs == 0 && p.buf !in old(stack.Live())
    {
      var pageStart, pageEnd := PageNo(offset, mPageBits), PageNo(offset + size - 1, mPageBits);
      if pageStart >= pageEnd {
        p := Mapped(mStreamPtrs[pageStart] + PageOffset(offset, mPageBits));
        return p, false;
      }
      EmptyInPlace(offset, size);
      var buf := TempBuffer(size, mayRecurse, stack);
      CopyRange(buf, offset, size, TempRange(offset, size).value);
      p, madeCopy := InBuffer(buf, 0), true;
    }

    lemma EmptyInPlace(offset: nat, size: nat)
      requires PageNo(offset, mPageBits) < PageNo(offset + size - 1, mPageBits)
      ensures size > 0
    {
      if size == 0 && offset > 0 {
        ShiftDivides(offset - 1, mPageBits);
        ShiftDivides(offset, mPageBits);
        PagesRise(Pow2(mPageBits), offset - 1, offset);
      }
    }

    /** A range for good: in place or in memory of its own. */
    method GetPermanentPtr(offset: nat, size: nat) returns (p: Pointer, madeCopy: bool)
      requires PermanentRange(offset, size).Some?
      ensures Holds(p, PermanentRange(offset, size).value)
      ensures madeCopy == p.InBuffer? && (p.InBuffer? ==> fresh(p.buf))
    {
      var pageStart, pageEnd := PageNo(offset, mPageBits), PageNo(offset + size - 1, mPageBits);
      if pageStart == pageEnd {
        p := Mapped(mStreamPtrs[pageStart] + PageOffset(offset, mPageBits));
        return p, false;
      }
      var destData := new Byte[size](_ => 0);
      CopyRange(destData, offset, size, PermanentRange(offset, size).value);
      p, madeCopy := InBuffer(destData, 0), true;
    }
  }

  // ----- a stream that is not paged -----

  /** Data of its own is one page of 2^31 bytes. */
  method InitStreamRaw(data: seq<Byte>, pageSize: nat) returns (reader: CvStreamReader)
    ensures fresh(reader) && reader.mView == data && reader.mPageBits == 31 && reader.mStreamPtrs == [0]
    ensures reader.mCvPageSize == pageSize && reader.mSize == |data|
  {
    reader := new CvStreamReader(data, pageSize, 31, [0], |data|);
  }

  /** Its ranges are those of the data, whatever the page size. */
  lemma RawRanges(reader: CvStreamReader, offset: nat, size: nat)
    requires reader.mPageBits == 31 && reader.mStreamPtrs == [0] && |reader.mView| < 0x8000_0000
    requires offset + size <= |reader.mView|
    ensures reader.TempRange(offset, size) == Some(reader.mView[offset..offset + size])
    ensures reader.PermanentRange(offset, size) == Some(reader.mView[offset..offset + size])
  {
    Pow2At31();
    ShiftDivides(offset, 31);
    if offset + size > 0 { ShiftDivides(offset + size - 1, 31); }
  }

  // ----- the stream tables -----

  /** The pages of the streams before stream n. */
  function PagesBefore(sizes: seq<int>, pageSize: nat, n: nat): nat
    requires pageSize > 0 && n <= |sizes|
  {
    if n == 0 then 0 else PagesBefore(sizes, pageSize, n - 1) + PageCount(sizes[n - 1], pageSize)
  }

  /** A stream takes as many pages as its size divided by that of a page, rounded up, and starts behind those before it. */
  lemma PagesOfStreams(sizes: seq<int>, pageSize: nat, n: nat)
    requires pageSize > 0 && n < |sizes|
    ensures PagesBefore(sizes, pageSize, 0) == 0
    ensures PagesBefore(sizes, pageSize, n + 1) == PagesBefore(sizes, pageSize, n)
              + if sizes[n] <= 0 then 0 else (sizes[n] + pageSize - 1) / pageSize
  {
    if sizes[n] > 0 { PageIsQuotient(sizes[n] + pageSize - 1, pageSize); }
  }

  /** Byte k of a stream that starts at a slot of the page list: k / pageSize pages further on, at its place on that page. */
  ghost predicate IsByte(view: seq<Byte>, pages: seq<nat>, start: nat, pageSize: nat, k: nat, b: Byte)
    requires pageSize > 0
  {
    var slot := start + k / pageSize;
    && slot < |pages|
    && var place := pages[slot] * pageSize + k % pageSize;
       place < |view| && view[place] == b
  }

  lemma ByteOnPage(view: seq<Byte>, ptrs: seq<nat>, pages: seq<nat>, start: nat, pageSize: nat, k: nat)
    requires pageSize > 0 && PagesMapped(view, ptrs, pageSize) && PageOf(k, pageSize) < |ptrs|
    requires start + |ptrs| <= |pages|
    requires forall i | 0 <= i < |ptrs| :: ptrs[i] == PageAddr(pages[start + i], pageSize)
    ensures IsByte(view, pages, start, pageSize, k, StreamByte(view, ptrs, pageSize, k))
  {
    var page, at := PageOf(k, pageSize), InPage(k, pageSize);
    PageIsQuotient(k, pageSize);
    PageAddrIsProduct(pages[start + page], pageSize);
    assert ptrs[page] + pageSize <= |view| && ptrs[page] == PageAddr(pages[start + page], pageSize);
  }

  /** Streams are laid out one after the other: no page slot belongs to two of them. */
  lemma {:induction false} StreamsDisjoint(sizes: seq<int>, pageSize: nat, i: nat, j: nat)
    requires pageSize > 0 && i < j <= |sizes|
    ensures PagesBefore(sizes, pageSize, i) + PageCount(sizes[i], pageSize) <= PagesBefore(sizes, pageSize, j)
    decreases j
  {
    if i < j - 1 {
      StreamsDisjoint(sizes, pageSize, i, j - 1);
    }
  }

  /** Stream i starts where the pages of those before it end. */
  ghost predicate Starts(sizes: seq<int>, pageSize: nat, idxs: seq<nat>, i: nat)
    requires pageSize > 0 && i < |idxs| && i <= |sizes|
  {
    idxs[i] == PagesBefore(sizes, pageSize, i)
  }

  /** Where each stream starts in the page list. */
  method StartIdxs(sizes: seq<int>, pageSize: nat) returns (idxs: seq<nat>)
    requires pageSize > 0
    ensures |idxs| == |sizes| && forall i | 0 <= i < |sizes| :: Starts(sizes, pageSize, idxs, i)
  {
    idxs := [];
    var streamPages := 0;
    for streamIdx := 0 to |sizes|
      invariant |idxs| == streamIdx && streamPages == PagesBefore(sizes, pageSize, streamIdx)
      invariant forall i | 0 <= i < streamIdx :: Starts(sizes, pageSize, idxs, i)
    {
      ghost var before := idxs;
      idxs := idxs + [streamPages];
      forall i | 0 <= i < streamIdx + 1 ensures Starts(sizes, pageSize, idxs, i) {
        if i < streamIdx { assert Starts(sizes, pageSize, before, i); }
      }
      if sizes[streamIdx] > 0 {
        streamPages := streamPages + PageOf(sizes[streamIdx] + pageSize - 1, pageSize);
      }
    }
  }

  class Streams {
    const mView: seq<Byte>
    const mCvPageSize: nat
    const mCvPageBits: nat
    const mCvStreamSizes: seq<int>
    const mCvStreamPtrs: seq<nat>
    var mCvStreamPtrStartIdxs: seq<nat>

    ghost predicate Valid()
      reads this
    {
      && Pow2(mCvPageBits) <= mCvPageSize < 2 * Pow2(mCvPageBits)
      && |mCvStreamPtrStartIdxs| == |mCvStreamSizes|
      && (forall i | 0 <= i < |mCvStreamSizes| :: Starts(mCvStreamSizes, mCvPageSize, mCvStreamPtrStartIdxs, i))
      && |mCvStreamPtrs| == PagesBefore(mCvStreamSizes, mCvPageSize, |mCvStreamSizes|)
      && (forall i | 0 <= i < |mCvStreamPtrs| :: PageAddr(mCvStreamPtrs[i], mCvPageSize) + mCvPageSize <= |mView|)
    }

    /** Lays the streams out over the page list: each starts where the pages of those before it end. */
    constructor (view: seq<Byte>, pageSize: nat, sizes: seq<int>, pages: seq<nat>)
      requires 0 < pageSize < 0x8000_0000 && |pages| == PagesBefore(sizes, pageSize, |sizes|)
      requires forall i | 0 <= i < |pages| :: PageAddr(pages[i], pageSize) + pageSize <= |view|
      ensures Valid() && mView == view && mCvPageSize == pageSize && mCvStreamSizes == sizes && mCvStreamPtrs == pages
    {
      var pageBits := ComputePageBits(pageSize);
      var idxs := StartIdxs(sizes, pageSize);
      mView, mCvPageSize, mCvStreamSizes, mCvStreamPtrs := view, pageSize, sizes, pages;
      mCvPageBits := pageBits;
      mCvStreamPtrStartIdxs := idxs;
    }

    ghost function PtrAt(streamIdx: nat, i: nat): (p: nat)
      reads this
      requires Valid() && streamIdx < |mCvStreamSizes| && i < PageCount(mCvStreamSizes[streamIdx], mCvPageSize)
      ensures p + mCvPageSize <= |mView|
    {
      assert Starts(mCvStreamSizes, mCvPageSize, mCvStreamPtrStartIdxs, streamIdx);
      StreamsDisjoint(mCvStreamSizes, mCvPageSize, streamIdx, |mCvStreamSizes|);
      PageAddr(mCvStreamPtrs[mCvStreamPtrStartIdxs[streamIdx] + i], mCvPageSize)
    }

    /** The file offsets of a stream's pages. */
    ghost function PtrsOf(streamIdx: nat): (ptrs: seq<nat>)
      reads this
      requires Valid() && streamIdx < |mCvStreamSizes|
      ensures |ptrs| == PageCount(mCvStreamSizes[streamIdx], mCvPageSize)
      ensures forall i | 0 <= i < |ptrs| :: ptrs[i] == PtrAt(streamIdx, i)
      ensures PagesMapped(mView, ptrs, mCvPageSize)
    {
      seq(PageCount(mCvStreamSizes[streamIdx], mCvPageSize), i reads this
        requires Valid() && 0 <= i < PageCount(mCvStreamSizes[streamIdx], mCvPageSize) => PtrAt(streamIdx, i))
    }

    /** The slot of the page list at which a stream starts. */
    ghost function StartOf(streamIdx: nat): nat
      requires mCvPageSize > 0 && streamIdx <= |mCvStreamSizes|
    {
      PagesBefore(mCvStreamSizes, mCvPageSize, streamIdx)
    }

    /** The pages of a stream are those of its slots, at their number times the page size. */
    lemma PtrsAreProducts(streamIdx: nat)
      requires Valid() && streamIdx < |mCvStreamSizes|
      ensures StartOf(streamIdx) + |PtrsOf(streamIdx)| <= |mCvStreamPtrs|
      ensures forall i | 0 <= i < |PtrsOf(streamIdx)| ::
                PtrsOf(streamIdx)[i] == PageAddr(mCvStreamPtrs[StartOf(streamIdx) + i], mCvPageSize)
                                     == mCvStreamPtrs[StartOf(streamIdx) + i] * mCvPageSize
    {
      assert Starts(mCvStreamSizes, mCvPageSize, mCvStreamPtrStartIdxs, streamIdx);
      StreamsDisjoint(mCvStreamSizes, mCvPageSize, streamIdx, |mCvStreamSizes|);
      forall i | 0 <= i < |PtrsOf(streamIdx)|
        ensures PtrsOf(streamIdx)[i] == PageAddr(mCvStreamPtrs[StartOf(streamIdx) + i], mCvPageSize)
                                     == mCvStreamPtrs[StartOf(streamIdx) + i] * mCvPageSize
      {
        assert PtrsOf(streamIdx)[i] == PtrAt(streamIdx, i);
        PageAddrIsProduct(mCvStreamPtrs[StartOf(streamIdx) + i], mCvPageSize);
      }
    }

    /** `data` holds the bytes of a stream from `offset` on, each from where the page list puts it in the file. */
    ghost predicate HoldsBytes(data: seq<Byte>, streamIdx: nat, offset: nat)
      requires mCvPageSize > 0 && streamIdx <= |mCvStreamSizes|
    {
      forall k: nat | k < |data| :: IsByte(mView, mCvStreamPtrs, StartOf(streamIdx), mCvPageSize, offset + k, data[k])
    }

    lemma SliceHolds(streamIdx: nat, offset: nat, size: nat, data: seq<Byte>)
      requires Valid() && streamIdx < |mCvStreamSizes| && RangeInPages(PtrsOf(streamIdx), mCvPageSize, offset, size)
      requires data == Slice(mView, PtrsOf(streamIdx), mCvPageSize, offset, size)
      ensures HoldsBytes(data, streamIdx, offset)
    {
      PtrsAreProducts(streamIdx);
      forall k: nat | k < size
        ensures IsByte(mView, mCvStreamPtrs, StartOf(streamIdx), mCvPageSize, offset + k, data[k])
      {
        PagesRise(mCvPageSize, offset + k, offset + size - 1);
        ByteOnPage(mView, PtrsOf(streamIdx), mCvStreamPtrs, StartOf(streamIdx), mCvPageSize, offset + k);
      }
    }

    /** Sets up a page-wise reader over a stream. */
    method OpenReader(streamIdx: nat) returns (reader: CvStreamReader)
      requires Valid() && streamIdx < |mCvStreamSizes|
      ensures fresh(reader) && reader.mView == mView && reader.mCvPageSize == mCvPageSize
      ensures reader.mPageBits == mCvPageBits
      ensures reader.mStreamPtrs == PtrsOf(streamIdx) && reader.mSize == mCvStreamSizes[streamIdx]
      ensures StartOf(streamIdx) + |reader.mStreamPtrs| <= |mCvStreamPtrs|
      ensures forall i | 0 <= i < |reader.mStreamPtrs| ::
                reader.mStreamPtrs[i] == mCvStreamPtrs[StartOf(streamIdx) + i] * mCvPageSize
    {
      assert Starts(mCvStreamSizes, mCvPageSize, mCvStreamPtrStartIdxs, streamIdx);
      StreamsDisjoint(mCvStreamSizes, mCvPageSize, streamIdx, |mCvStreamSizes|);
      var streamSize := mCvStreamSizes[streamIdx];
      var streamPageCount := PageCount(streamSize, mCvPageSize);
      var streamPtrIdx := mCvStreamPtrStartIdxs[streamIdx];
      var ptrs: seq<nat> := [];
      for streamPageIdx := 0 to streamPageCount
        invariant |ptrs| == streamPageIdx && streamPtrIdx == mCvStreamPtrStartIdxs[streamIdx] + streamPageIdx
        invariant forall i | 0 <= i < streamPageIdx :: ptrs[i] == PtrAt(streamIdx, i)
      {
        ptrs := ptrs + [PageAddr(mCvStreamPtrs[streamPtrIdx], mCvPageSize)];
        streamPtrIdx := streamPtrIdx + 1;
      }
      assert ptrs == PtrsOf(streamIdx);
      PtrsAreProducts(streamIdx);
      reader := new CvStreamReader(mView, mCvPageSize, mCvPageBits, ptrs, streamSize);
    }

    /** Any range of a stream that lies on its pages is the same for the page-wise readers as for a segment read. */
    lemma ReadersAgree(streamIdx: nat, reader: CvStreamReader, offset: nat, size: nat)
      requires Valid() && streamIdx < |mCvStreamSizes| && (exists n: nat :: mCvPageSize == Pow2(n))
      requires reader.mView == mView && reader.mCvPageSize == mCvPageSize && reader.mPageBits == mCvPageBits
      requires reader.mStreamPtrs == PtrsOf(streamIdx) && 0 <= offset && offset + size <= mCvStreamSizes[streamIdx]
      requires offset < mCvStreamSizes[streamIdx]
      ensures RangeInPages(PtrsOf(streamIdx), mCvPageSize, offset, size)
      ensures HoldsBytes(Slice(mView, PtrsOf(streamIdx), mCvPageSize, offset, size), streamIdx, offset)
      ensures reader.TempRange(offset, size) == Some(Slice(mView, PtrsOf(streamIdx), mCvPageSize, offset, size))
      ensures reader.PermanentRange(offset, size) == Some(Slice(mView, PtrsOf(streamIdx), mCvPageSize, offset, size))
    {
      OnlyPowerBetween(mCvPageSize, mCvPageBits);
      PageCountHolds(mCvStreamSizes[streamIdx], mCvPageSize, offset);
      if size > 0 { PageCountHolds(mCvStreamSizes[streamIdx], mCvPageSize, offset + size - 1); }
      reader.RangesAgree(offset, size);
      SliceHolds(streamIdx, offset, size, Slice(mView, PtrsOf(streamIdx), mCvPageSize, offset, size));
    }

    /** Reads a whole stream; nothing for an unknown, absent or empty one. */
    method ReadStream(streamIdx: int) returns (sectionData: array?<Byte>)
      requires Valid()
      ensures sectionData == null <==> !(0 <= streamIdx < |mCvStreamSizes| && mCvStreamSizes[streamIdx] > 0)
      ensures sectionData != null ==>
                fresh(sectionData) &&
                sectionData[..] == Slice(mView, PtrsOf(streamIdx), mCvPageSize, 0, mCvStreamSizes[streamIdx])
      ensures sectionData != null ==> HoldsBytes(sectionData[..], streamIdx, 0)
    {
      if streamIdx >= |mCvStreamSizes| || streamIdx < 0 || mCvStreamSizes[streamIdx] <= 0 {
        return null;
      }
      var streamSize := mCvStreamSizes[streamIdx];
      assert Starts(mCvStreamSizes, mCvPageSize, mCvStreamPtrStartIdxs, streamIdx);
      StreamsDisjoint(mCvStreamSizes, mCvPageSize, streamIdx, |mCvStreamSizes|);
      var streamPageCount := PageOf(streamSize + mCvPageSize - 1, mCvPageSize);
      var data := new Byte[streamSize](_ => 0);
      var streamPtrIdx := mCvStreamPtrStartIdxs[streamIdx];
      var pos: nat := 0;
      for streamPageIdx := 0 to streamPageCount
        invariant streamPtrIdx == mCvStreamPtrStartIdxs[streamIdx] + streamPageIdx && pos <= streamSize
        invariant pos < streamSize ==> PageOf(pos, mCvPageSize) == streamPageIdx && InPage(pos, mCvPageSize) == 0
        invariant streamPageIdx < streamPageCount ==> pos < streamSize
        invariant data[..pos] == Slice(mView, PtrsOf(streamIdx), mCvPageSize, 0, pos)
      {
        LastPage(mCvPageSize, streamSize, pos);
        pos := ReadWholePage(streamIdx, data, pos, streamPtrIdx);
        streamPtrIdx := streamPtrIdx + 1;
      }
      if pos < streamSize {
        PageCountHolds(streamSize, mCvPageSize, pos);
      }
      assert pos == streamSize;
      assert data[..] == data[..pos];
      PageCountHolds(streamSize, mCvPageSize, streamSize - 1);
      SliceHolds(streamIdx, 0, streamSize, data[..]);
      sectionData := data;
    }

    /** One page of a whole-stream read: all of it, or what the stream has on its last one. */
    method ReadWholePage(streamIdx: nat, data: array<Byte>, pos: nat, streamPtrIdx: nat) returns (newPos: nat)
      requires Valid() && streamIdx < |mCvStreamSizes| && pos < mCvStreamSizes[streamIdx] == data.Length
      requires InPage(pos, mCvPageSize) == 0
      requires streamPtrIdx == mCvStreamPtrStartIdxs[streamIdx] + PageOf(pos, mCvPageSize)
      requires data[..pos] == Slice(mView, PtrsOf(streamIdx), mCvPageSize, 0, pos)
      modifies data
      ensures newPos == pos + Min(mCvStreamSizes[streamIdx] - pos, mCvPageSize)
      ensures newPos < mCvStreamSizes[streamIdx] ==>
        InPage(newPos, mCvPageSize) == 0 && PageOf(newPos, mCvPageSize) == PageOf(pos, mCvPageSize) + 1
      ensures data[..newPos] == Slice(mView, PtrsOf(streamIdx), mCvPageSize, 0, newPos)
    {
      assert Starts(mCvStreamSizes, mCvPageSize, mCvStreamPtrStartIdxs, streamIdx);
      StreamsDisjoint(mCvStreamSizes, mCvPageSize, streamIdx, |mCvStreamSizes|);
      var readSize := Min(mCvStreamSizes[streamIdx] - pos, mCvPageSize);
      NextPage(mCvPageSize, pos);
      PageCountHolds(mCvStreamSizes[streamIdx], mCvPageSize, pos);
      newPos := CopyPage(mView, mCvPageSize, PtrsOf(streamIdx), data, 0, pos,
                         PageAddr(mCvStreamPtrs[streamPtrIdx], mCvPageSize), readSize);
    }

    /** One page of a segment read. */
    method ReadPage(streamIdx: nat, offset: nat, size: nat, dest: array<Byte>, done: nat, streamPtrIdx: nat, curOffset: nat)
      returns (readSize: nat)
      requires Valid() && streamIdx < |mCvStreamSizes| && done < size == dest.Length
      requires RangeInPages(PtrsOf(streamIdx), mCvPageSize, offset, size)
      requires curOffset == InPage(offset + done, mCvPageSize)
      requires streamPtrIdx == mCvStreamPtrStartIdxs[streamIdx] + PageOf(offset + done, mCvPageSize)
      requires dest[..done] == Slice(mView, PtrsOf(streamIdx), mCvPageSize, offset, done)
      modifies dest
      ensures 0 < readSize && done + readSize <= size
      ensures dest[..done + readSize] == Slice(mView, PtrsOf(streamIdx), mCvPageSize, offset, done + readSize)
      ensures done + readSize < size ==>
                && InPage(offset + done + readSize, mCvPageSize) == 0
                && PageOf(offset + done + readSize, mCvPageSize) == PageOf(offset + done, mCvPageSize) + 1
    {
      assert Starts(mCvStreamSizes, mCvPageSize, mCvStreamPtrStartIdxs, streamIdx);
      StreamsDisjoint(mCvStreamSizes, mCvPageSize, streamIdx, |mCvStreamSizes|);
      PagesRise(mCvPageSize, offset + done, offset + size - 1);
      readSize := Min(mCvPageSize - curOffset, size - done);
      NextPage(mCvPageSize, offset + done);
      var _ := CopyPage(mView, mCvPageSize, PtrsOf(streamIdx), dest, offset, done,
                        PageAddr(mCvStreamPtrs[streamPtrIdx], mCvPageSize) + curOffset, readSize);
    }

    /** Reads a range of a stream. */
    method ReadStreamSegment(streamIdx: nat, offset: nat, size: nat) returns (sectionData: array<Byte>)
      requires Valid() && streamIdx < |mCvStreamSizes|
      requires RangeInPages(PtrsOf(streamIdx), mCvPageSize, offset, size)
      ensures fresh(sectionData)
      ensures sectionData[..] == Slice(mView, PtrsOf(streamIdx), mCvPageSize, offset, size)
      ensures HoldsBytes(sectionData[..], streamIdx, offset)
    {
      sectionData := new Byte[size](_ => 0);
      var sizeLeft := size;
      var streamPtrIdx := mCvStreamPtrStartIdxs[streamIdx] + PageOf(offset, mCvPageSize);
      var curOffset := InPage(offset, mCvPageSize);
      var done := 0;
      while sizeLeft > 0
        invariant 0 <= done && 0 <= sizeLeft && done + sizeLeft == size
        invariant sizeLeft > 0 ==> curOffset == InPage(offset + done, mCvPageSize)
        invariant sizeLeft > 0 ==> streamPtrIdx == mCvStreamPtrStartIdxs[streamIdx] + PageOf(offset + done, mCvPageSize)
        invariant sectionData[..done] == Slice(mView, PtrsOf(streamIdx), mCvPageSize, offset, done)
      {
        var readSize := ReadPage(streamIdx, offset, size, sectionData, done, streamPtrIdx, curOffset);
        done := done + readSize;
        sizeLeft := sizeLeft - readSize;
        curOffset := 0;
        streamPtrIdx := streamPtrIdx + 1;
      }
      assert sectionData[..] == sectionData[..done];
      SliceHolds(streamIdx, offset, size, sectionData[..]);
    }
  }

  /** On the last page of a stream, what is left fits on it; before, a whole page is left. */
  lemma LastPage(pageSize: nat, size: nat, pos: nat)
    requires pageSize > 0 && pos < size && InPage(pos, pageSize) == 0
    ensures size <= pos + pageSize <==> PageOf(pos, pageSize) + 1 == PageOf(size + pageSize - 1, pageSize)
  {
    NextPage(pageSize, pos);
    if size <= pos + pageSize {
      SamePage(pageSize, pos, size - 1 - pos);
    } else {
      PagesRise(pageSize, pos + pageSize, size - 1);
    }
  }

  // ----- the page bits -----

  /** The bit count kept for a page size is that of the largest power of two not above it. */
  method ComputePageBits(pageSize: nat) returns (bits: nat)
    requires 1 <= pageSize < 0x8000_0000
    ensures Pow2(bits) <= pageSize < 2 * Pow2(bits)
  {
    bits := 31;
    Pow2At31();
    var i := 0;
    while i < 31
      invariant 0 <= i <= 31
      invariant i > 0 ==> bits == i - 1 && Pow2(bits) <= pageSize
    {
      if pageSize < Pow2(i) {
        break;
      }
      bits := i;
      i := i + 1;
    }
  }

  lemma Pow2At31()
    ensures Pow2(31) == 0x8000_0000
  {
    assert Pow2(8) == 256;
    assert Pow2(16) == 65536;
    assert Pow2(24) == 16777216;
  }
}
