/** Reference counts of locked memory pages: `LockedPageManagerBase` in `src/allocators.h`.

    Addresses are natural numbers below 2^64; for a page size that is a power of two, masking an
    address rounds it down to a multiple of the page size.  Every call of the system is taken to
    succeed. */
module LockedPages {
  import opened Arithmetic

  const ADDRESS_END: nat := 0x1_0000_0000_0000_0000

  /** `size` bytes from address `base` on. */
  datatype Range = Range(base: nat, size: nat)

  predicate Aligned(page: int, pageSize: nat)
    requires pageSize > 0
  {
    page >= 0 && page % pageSize == 0
  }

  function PageOf(address: nat, pageSize: nat): int
    requires pageSize > 0
  {
    address - address % pageSize
  }

  /** The page and the range have an address in common. */
  predicate Overlaps(page: int, pageSize: nat, r: Range) {
    r.size > 0 && page < r.base + r.size && r.base < page + pageSize
  }

  /** How many ranges overlap the page. */
  function Count(live: seq<Range>, page: int, pageSize: nat): nat {
    if live == [] then 0
    else Count(live[..|live| - 1], page, pageSize) + if Overlaps(page, pageSize, live[|live| - 1]) then 1 else 0
  }

  function Without(live: seq<Range>, i: nat): seq<Range>
    requires i < |live|
  {
    live[..i] + live[i + 1..]
  }

  lemma CountMore(live: seq<Range>, r: Range, page: int, pageSize: nat)
    ensures Count(live + [r], page, pageSize) == Count(live, page, pageSize) + if Overlaps(page, pageSize, r) then 1
            else 0
  {
    assert (live + [r])[..|live|] == live;
  }

  lemma {:induction false} CountWithout(live: seq<Range>, i: nat, page: int, pageSize: nat)
    requires i < |live|
    ensures Count(live, page, pageSize) ==
            Count(Without(live, i), page, pageSize) + if Overlaps(page, pageSize, live[i]) then 1 else 0
    decreases |live|
  {
    var n := |live| - 1;
    if i == n {
      assert Without(live, i) == live[..n];
    } else {
      CountWithout(live[..n], i, page, pageSize);
      assert Without(live, i) == Without(live[..n], i) + [live[n]];
      CountMore(Without(live[..n], i), live[n], page, pageSize);
    }
  }

  lemma AlignedGap(p: int, q: int, pageSize: nat)
    requires pageSize > 0 && Aligned(p, pageSize) && Aligned(q, pageSize) && p < q
    ensures p + pageSize <= q
  {
    var a, b := p / pageSize, q / pageSize;
    assert p == a * pageSize && q == b * pageSize;
    if b <= a { MulMonotone(b, a, pageSize); }
    MulMonotone(a + 1, b, pageSize);
    assert (a + 1) * pageSize == a * pageSize + pageSize;
  }

  lemma PageIsAligned(address: nat, pageSize: nat)
    requires pageSize > 0
    ensures Aligned(PageOf(address, pageSize), pageSize)
    ensures PageOf(address, pageSize) <= address < PageOf(address, pageSize) + pageSize
  {
    DivModEquation(address, pageSize);
    DivModUnique(PageOf(address, pageSize), pageSize, address / pageSize, 0);
  }

  lemma NextIsAligned(page: int, pageSize: nat)
    requires pageSize > 0 && Aligned(page, pageSize)
    ensures Aligned(page + pageSize, pageSize)
  {
    DivModEquation(page, pageSize);
    assert (page / pageSize + 1) * pageSize == page / pageSize * pageSize + pageSize;
    DivModUnique(page + pageSize, pageSize, page / pageSize + 1, 0);
  }

  /** The pages from that of the first byte to that of the last are those that overlap the range. */
  lemma PagesOfRange(page: int, pageSize: nat, r: Range)
    requires pageSize > 0 && Aligned(page, pageSize) && r.size > 0
    ensures Overlaps(page, pageSize, r) <==> PageOf(r.base, pageSize) <= page <= PageOf(r.base + r.size - 1, pageSize)
  {
    var first, last := PageOf(r.base, pageSize), PageOf(r.base + r.size - 1, pageSize);
    PageIsAligned(r.base, pageSize);
    PageIsAligned(r.base + r.size - 1, pageSize);
    if page < first { AlignedGap(page, first, pageSize); }
    if last < page { AlignedGap(last, page, pageSize); }
  }

  /** The stored count of a page; a page that is not stored has none. */
  function Stored(histogram: map<int, int>, page: int): int {
    if page in histogram then histogram[page] else 0
  }

  /** The counts, and the pages that the system holds in memory. */
  datatype Pages = Pages(histogram: map<int, int>, pinned: set<int>)

  /** The page has `more` counts than live ranges, and is held exactly if it has any. */
  predicate PageOkBut(s: Pages, live: seq<Range>, pageSize: nat, page: int, more: int)
    requires pageSize > 0
  {
    && (page in s.histogram ==> s.histogram[page] > 0)
    && (page in s.pinned <==> page in s.histogram)
    && Stored(s.histogram, page) == if Aligned(page, pageSize) then Count(live, page, pageSize) + more else 0
  }

  predicate PageOk(s: Pages, live: seq<Range>, pageSize: nat, page: int)
    requires pageSize > 0
  {
    PageOkBut(s, live, pageSize, page, 0)
  }

  /** Exactly the pages that overlap a live range are stored, with the number of these ranges, and
      exactly these are held in memory. */
  ghost predicate Exact(s: Pages, live: seq<Range>, pageSize: nat) {
    pageSize > 0 && forall page {:trigger PageOk(s, live, pageSize, page)} :: PageOk(s, live, pageSize, page)
  }

  /** The pages from `first` to below `end` have `more` counts than live ranges. */
  predicate PartOk(s: Pages, live: seq<Range>, pageSize: nat, first: int, end: int, more: int, page: int)
    requires pageSize > 0
  {
    PageOkBut(s, live, pageSize, page, if first <= page < end then more else 0)
  }

  ghost predicate Partly(s: Pages, live: seq<Range>, pageSize: nat, first: int, end: int, more: int) {
    pageSize > 0 && forall page {:trigger PartOk(s, live, pageSize, first, end, more, page)} ::
      PartOk(s, live, pageSize, first, end, more, page)
  }

  lemma PartlyStarts(s: Pages, live: seq<Range>, pageSize: nat, first: int, more: int)
    requires Exact(s, live, pageSize)
    ensures Partly(s, live, pageSize, first, first, more)
  {
    forall p ensures PartOk(s, live, pageSize, first, first, more, p) { assert PageOk(s, live, pageSize, p); }
  }

  function Locked(s: Pages, page: int): Pages {
    Pages(s.histogram[page := Stored(s.histogram, page) + 1], s.pinned + {page})
  }

  function Unlocked(s: Pages, page: int): Pages
    requires page in s.histogram
  {
    if s.histogram[page] == 1 then Pages(s.histogram - {page}, s.pinned - {page})
    else s.(histogram := s.histogram[page := s.histogram[page] - 1])
  }

  /** Counting one page more moves the end of the counted part on. */
  lemma LockedStep(s: Pages, live: seq<Range>, pageSize: nat, first: int, page: int, next: int)
    requires pageSize > 0 && Partly(s, live, pageSize, first, page, 1) && Aligned(page, pageSize) && first <= page
             && next == page + pageSize
    ensures Partly(Locked(s, page), live, pageSize, first, next, 1)
  {
    assert PartOk(s, live, pageSize, first, page, 1, page);
    forall p ensures PartOk(Locked(s, page), live, pageSize, first, next, 1, p) {
      assert PartOk(s, live, pageSize, first, page, 1, p);
      if page < p && Aligned(p, pageSize) { AlignedGap(page, p, pageSize); }
    }
  }

  /** A page that overlaps a live range has a count to take away. */
  lemma UnlockedStep(s: Pages, live: seq<Range>, pageSize: nat, first: int, page: int, next: int)
    requires pageSize > 0 && Partly(s, live, pageSize, first, page, -1) && Aligned(page, pageSize) && first <= page
             && next == page + pageSize
    requires Count(live, page, pageSize) > 0
    ensures page in s.histogram && Partly(Unlocked(s, page), live, pageSize, first, next, -1)
  {
    assert PartOk(s, live, pageSize, first, page, -1, page);
    forall p ensures PartOk(Unlocked(s, page), live, pageSize, first, next, -1, p) {
      assert PartOk(s, live, pageSize, first, page, -1, p);
      if page < p && Aligned(p, pageSize) { AlignedGap(page, p, pageSize); }
    }
  }

  /** When all pages of the range are done, a page has been counted exactly if it overlaps the range. */
  lemma PartIsRange(pageSize: nat, r: Range, end: int, page: int)
    requires pageSize > 0 && r.size > 0 && Aligned(end, pageSize) && Aligned(page, pageSize)
    requires PageOf(r.base + r.size - 1, pageSize) < end <= PageOf(r.base + r.size - 1, pageSize) + pageSize
    ensures PageOf(r.base, pageSize) <= page < end <==> Overlaps(page, pageSize, r)
  {
    var last := PageOf(r.base + r.size - 1, pageSize);
    PageIsAligned(r.base + r.size - 1, pageSize);
    PagesOfRange(page, pageSize, r);
    if last < page { AlignedGap(last, page, pageSize); }
  }

  lemma LockedAll(s: Pages, live: seq<Range>, pageSize: nat, r: Range, end: int)
    requires pageSize > 0 && r.size > 0 && Aligned(end, pageSize)
             && Partly(s, live, pageSize, PageOf(r.base, pageSize), end, 1)
    requires PageOf(r.base + r.size - 1, pageSize) < end <= PageOf(r.base + r.size - 1, pageSize) + pageSize
    ensures Exact(s, live + [r], pageSize)
  {
    forall p ensures PageOk(s, live + [r], pageSize, p) {
      assert PartOk(s, live, pageSize, PageOf(r.base, pageSize), end, 1, p);
      CountMore(live, r, p, pageSize);
      if Aligned(p, pageSize) { PartIsRange(pageSize, r, end, p); }
    }
  }

  lemma UnlockedAll(s: Pages, live: seq<Range>, pageSize: nat, i: nat, end: int)
    requires pageSize > 0 && i < |live| && live[i].size > 0 && Aligned(end, pageSize)
    requires Partly(s, live, pageSize, PageOf(live[i].base, pageSize), end, -1)
    requires PageOf(live[i].base + live[i].size - 1, pageSize) < end <= PageOf(live[i].base + live[i].size - 1,
             pageSize) + pageSize
    ensures Exact(s, Without(live, i), pageSize)
  {
    forall p ensures PageOk(s, Without(live, i), pageSize, p) {
      assert PartOk(s, live, pageSize, PageOf(live[i].base, pageSize), end, -1, p);
      CountWithout(live, i, p, pageSize);
      if Aligned(p, pageSize) { PartIsRange(pageSize, live[i], end, p); }
    }
  }

  /** An empty range overlaps nothing. */
  lemma EmptyRange(s: Pages, live: seq<Range>, pageSize: nat, r: Range, i: nat)
    requires Exact(s, live, pageSize)
    ensures r.size == 0 ==> Exact(s, live + [r], pageSize)
    ensures i < |live| && live[i].size == 0 ==> Exact(s, Without(live, i), pageSize)
  {
    if r.size == 0 {
      forall p ensures PageOk(s, live + [r], pageSize, p) {
        assert PageOk(s, live, pageSize, p); CountMore(live, r, p, pageSize);
      }
    }
    if i < |live| && live[i].size == 0 {
      forall p ensures PageOk(s, Without(live, i), pageSize, p) {
        assert PageOk(s, live, pageSize, p); CountWithout(live, i, p, pageSize);
      }
    }
  }

  /** The address behind the last page of the range can be represented. */
  predicate NoWrap(r: Range, pageSize: nat)
    requires pageSize > 0
  {
    r.size > 0 ==> PageOf(r.base + r.size - 1, pageSize) + pageSize < ADDRESS_END
  }

  lemma NoWrapMeans(r: Range, pageSize: nat)
    requires pageSize > 0 && r.size > 0
    ensures NoWrap(r, pageSize) <==>
            r.base + r.size - 1 - (r.base + r.size - 1) % pageSize + pageSize < 0x1_0000_0000_0000_0000
  {
    DivModEquation(r.base + r.size - 1, pageSize);
  }

  /** `page += page_size` on addresses of 64 bits. */
  function NextPage(page: nat, pageSize: nat): nat {
    (page + pageSize) % ADDRESS_END
  }

  /** The value of the loop variable after `n` rounds. */
  function PageAfter(page: nat, pageSize: nat, n: nat): nat
    decreases n
  {
    if n == 0 then page else PageAfter(NextPage(page, pageSize), pageSize, n - 1)
  }

  lemma NextPageStays(page: nat, pageSize: nat)
    requires pageSize > 0 && ADDRESS_END % pageSize == 0 && Aligned(page, pageSize) && page < ADDRESS_END
    ensures Aligned(NextPage(page, pageSize), pageSize) && NextPage(page, pageSize) < ADDRESS_END
    ensures page + pageSize < ADDRESS_END ==> NextPage(page, pageSize) == page + pageSize
  {
    AlignedGap(page, ADDRESS_END, pageSize);
    NextIsAligned(page, pageSize);
    WrapAround(page, pageSize);
    DivModUnique(0, pageSize, 0, 0);
  }

  lemma WrapAround(page: nat, pageSize: nat)
    requires page + pageSize <= ADDRESS_END
    ensures NextPage(page, pageSize) == if page + pageSize == ADDRESS_END then 0 else page + pageSize
  {
  }

  /** If the last page of the range is the last of all, no address is beyond it. */
  lemma {:induction false} NeverPast(page: nat, last: int, pageSize: nat, n: nat)
    requires pageSize > 0 && ADDRESS_END % pageSize == 0 && Aligned(page, pageSize) && page < ADDRESS_END
    requires Aligned(last, pageSize) && last + pageSize >= ADDRESS_END
    ensures PageAfter(page, pageSize, n) <= last
    decreases n
  {
    NextPageStays(page, pageSize);
    if n > 0 {
      NeverPast(NextPage(page, pageSize), last, pageSize, n - 1);
    } else if last < page {
      AlignedGap(last, page, pageSize);
    }
  }

  lemma {:induction false} GetsPast(page: nat, last: int, pageSize: nat) returns (n: nat)
    requires pageSize > 0 && ADDRESS_END % pageSize == 0 && Aligned(page, pageSize) && page < ADDRESS_END
    requires last + pageSize < ADDRESS_END
    ensures PageAfter(page, pageSize, n) > last
    decreases last - page
  {
    if page > last {
      n := 0;
    } else {
      NextPageStays(page, pageSize);
      var m := GetsPast(page + pageSize, last, pageSize);
      n := m + 1;
    }
  }

  /** With addresses that wrap around, the loops over the pages of a range end exactly if the address behind
      its last page can be represented. */
  lemma LoopEnds(r: Range, pageSize: nat)
    requires pageSize > 0 && ADDRESS_END % pageSize == 0 && r.size > 0 && r.base + r.size <= ADDRESS_END
    ensures NoWrap(r, pageSize) <==>
              exists n :: PageAfter(PageOf(r.base, pageSize), pageSize, n) > PageOf(r.base + r.size - 1, pageSize)
  {
    var first, last := PageOf(r.base, pageSize), PageOf(r.base + r.size - 1, pageSize);
    PageIsAligned(r.base, pageSize);
    PageIsAligned(r.base + r.size - 1, pageSize);
    if NoWrap(r, pageSize) {
      var n := GetsPast(first, last, pageSize);
    } else {
      forall n ensures PageAfter(first, pageSize, n) <= last { NeverPast(first, last, pageSize, n); }
    }
  }

  class LockedPageManager {
    const pageSize: nat
    var histogram: map<int, int>
    var pinned: set<int>

    function Abs(): Pages
      reads this
    {
      Pages(histogram, pinned)
    }

    ghost predicate Valid(live: seq<Range>)
      reads this
    {
      Exact(Abs(), live, pageSize)
    }

    constructor (pageSize: nat)
      requires pageSize > 0
      ensures Valid([]) && this.pageSize == pageSize
    {
      this.pageSize := pageSize;
      histogram, pinned := map[], {};
    }

    method LockPage(page: int)
      requires page in histogram ==> page in pinned
      modifies this
      ensures Abs() == Locked(old(Abs()), page)
    {
      if page !in histogram {
        pinned := pinned + {page};
        histogram := histogram[page := 1];
      } else {
        histogram := histogram[page := histogram[page] + 1];
        assert pinned == pinned + {page};
      }
    }

    method UnlockPage(page: int)
      requires page in histogram
      modifies this
      ensures Abs() == Unlocked(old(Abs()), page)
    {
      histogram := histogram[page := histogram[page] - 1];
      if histogram[page] == 0 {
        pinned := pinned - {page};
        histogram := histogram - {page};
      }
    }

    /** The last page must not be the last of all addresses, or the loop would not end. */
    method LockRange(r: Range, ghost live: seq<Range>)
      requires Valid(live) && NoWrap(r, pageSize)
      modifies this
      ensures Valid(live + [r])
    {
      if r.size == 0 {
        EmptyRange(Abs(), live, pageSize, r, 0);
        return;
      }
      var page, last := PageOf(r.base, pageSize), PageOf(r.base + r.size - 1, pageSize);
      PageIsAligned(r.base, pageSize);
      PageIsAligned(r.base + r.size - 1, pageSize);
      PagesOfRange(page, pageSize, r);
      ghost var first := page;
      PartlyStarts(Abs(), live, pageSize, first, 1);
      while page <= last
        invariant Aligned(page, pageSize) && first <= page <= last + pageSize && page < ADDRESS_END
        invariant Partly(Abs(), live, pageSize, first, page, 1)
        decreases last - page
      {
        assert PartOk(Abs(), live, pageSize, first, page, 1, page);
        LockedStep(Abs(), live, pageSize, first, page, page + pageSize);
        LockPage(page);
        NextIsAligned(page, pageSize);
        page := page + pageSize;
      }
      LockedAll(Abs(), live, pageSize, r, page);
    }

    /** Unlocking a live range never meets a page without a count. */
    method UnlockRange(r: Range, ghost live: seq<Range>, ghost i: nat)
      requires Valid(live) && i < |live| && live[i] == r && NoWrap(r, pageSize)
      modifies this
      ensures Valid(Without(live, i))
    {
      if r.size == 0 {
        EmptyRange(Abs(), live, pageSize, r, i);
        return;
      }
      var page, last := PageOf(r.base, pageSize), PageOf(r.base + r.size - 1, pageSize);
      PageIsAligned(r.base, pageSize);
      PageIsAligned(r.base + r.size - 1, pageSize);
      PagesOfRange(page, pageSize, r);
      ghost var first := page;
      PartlyStarts(Abs(), live, pageSize, first, -1);
      while page <= last
        invariant Aligned(page, pageSize) && first <= page <= last + pageSize && page < ADDRESS_END
        invariant Partly(Abs(), live, pageSize, first, page, -1)
        decreases last - page
      {
        PagesOfRange(page, pageSize, r);
        CountWithout(live, i, page, pageSize);
        UnlockedStep(Abs(), live, pageSize, first, page, page + pageSize);
        assert page in histogram;
        UnlockPage(page);
        NextIsAligned(page, pageSize);
        page := page + pageSize;
      }
      UnlockedAll(Abs(), live, pageSize, i, page);
    }
  }

  /** When no range is live, no page is held. */
  lemma NothingLeft(s: Pages, pageSize: nat)
    requires Exact(s, [], pageSize)
    ensures s == Pages(map[], {})
  {
    forall p ensures p !in s.histogram && p !in s.pinned { assert PageOk(s, [], pageSize, p); }
    assert s.histogram == map[];
  }

  /** A page is held in memory exactly while some live range has an address on it. */
  lemma HeldWhileInUse(s: Pages, live: seq<Range>, pageSize: nat, page: int)
    requires pageSize > 0 && Exact(s, live, pageSize) && Aligned(page, pageSize)
    ensures page in s.pinned <==> exists i :: 0 <= i < |live| && Overlaps(page, pageSize, live[i])
  {
    assert PageOk(s, live, pageSize, page);
    CountPositive(live, page, pageSize);
  }

  lemma {:induction false} CountPositive(live: seq<Range>, page: int, pageSize: nat)
    ensures Count(live, page, pageSize) > 0 <==> exists i :: 0 <= i < |live| && Overlaps(page, pageSize, live[i])
  {
    if live != [] {
      var n := |live| - 1;
      CountPositive(live[..n], page, pageSize);
      if Count(live[..n], page, pageSize) > 0 {
        var i :| 0 <= i < n && Overlaps(page, pageSize, live[..n][i]);
        assert Overlaps(page, pageSize, live[i]);
      }
      forall i | 0 <= i < n && Overlaps(page, pageSize, live[i]) ensures Count(live[..n], page, pageSize) > 0 {
        assert live[..n][i] == live[i];
      }
    }
  }
}
