/**
 Pagination helper of the incident tracker's index views.

 A `PaginatedList<T>` holds one page of a larger, ordered source together
 with the page metadata the views render: the 1-based page index, the number
 of pages, and whether a previous or a next page exists. The source is an
 in-memory sequence here; the page is cut out of it with LINQ's Skip/Take.
 */
module Pagination {

  // ---------------------------------------------------------------------------
  // 32-bit integers, as C# evaluates `int` arithmetic (unchecked by default)
  // ---------------------------------------------------------------------------

  const Int32Min: int := -0x8000_0000
  const Int32Max: int := 0x7fff_ffff

  predicate IsInt32(x: int) {
    Int32Min <= x <= Int32Max
  }

  /** Two's-complement wrap-around of an unchecked `int` operation. */
  function Wrap32(x: int): (r: int)
    ensures IsInt32(r)
    ensures (x - r) % 0x1_0000_0000 == 0
    ensures IsInt32(x) ==> r == x
  {
    (x - Int32Min) % 0x1_0000_0000 + Int32Min
  }

  /** Wrapping subtracts a whole multiple of 2^32. */
  lemma WrapQuotient(x: int)
    ensures x - Wrap32(x) == 0x1_0000_0000 * ((x - Int32Min) / 0x1_0000_0000)
  {
  }

  /** Wrapping a factor before multiplying and then the product gives the wrapped product. */
  lemma WrapProductCongruent(a: int, b: int)
    ensures (a * b - Wrap32(Wrap32(a) * b)) % 0x1_0000_0000 == 0
  {
    var w := Wrap32(a);
    var i := (a - Int32Min) / 0x1_0000_0000;
    var j := (w * b - Int32Min) / 0x1_0000_0000;
    WrapQuotient(a);
    WrapQuotient(w * b);
    assert a * b - w * b == 0x1_0000_0000 * (i * b);
    assert a * b - Wrap32(w * b) == 0x1_0000_0000 * (i * b + j);
  }

  // ---------------------------------------------------------------------------
  // Small arithmetic helpers
  // ---------------------------------------------------------------------------

  function Min(a: int, b: int): (r: int) {
    if a <= b then a else b
  }

  /** `x` forced into the range 0..n. */
  function Clamp(x: int, n: nat): (r: nat)
    ensures r <= n
    ensures 0 <= x <= n ==> r == x
  {
    if x < 0 then 0 else if x > n then n else x
  }

  lemma MulMonotone(a: int, b: int, c: int)
    requires a <= b && c >= 0
    ensures a * c <= b * c
  {
    assert b * c - a * c == (b - a) * c;
  }

  lemma MulSucc(a: int, b: int)
    ensures (a + 1) * b == a * b + b
  {
  }

  /** A product with a positive factor in 32-bit range has its other factor in range too. */
  lemma FactorInRange(a: int, b: int)
    requires b >= 1
    ensures IsInt32(a * b) ==> IsInt32(a)
  {
    if a < 0 {
      assert a * b - a == a * (b - 1);
      MulMonotone(0, b - 1, -a);
    } else {
      MulMonotone(1, b, a);
    }
  }

  // ---------------------------------------------------------------------------
  // Page count
  // ---------------------------------------------------------------------------

  /**
   The number of pages needed for `count` items, `pageSize` to a page: the
   ceiling of count / pageSize, i.e. the least `pages` with
   `pages * pageSize >= count`. Floor division by a positive divisor gives the
   ceiling through negation.
   */
  function PageCount(count: int, pageSize: int): (pages: int)
    requires pageSize >= 1
    ensures pages * pageSize >= count
    ensures (pages - 1) * pageSize < count
    ensures count >= 0 ==> pages >= 0
  {
    var q := (-count) / pageSize;
    var r := (-count) % pageSize;
    assert -count == q * pageSize + r && 0 <= r < pageSize;
    assert (-q) * pageSize == count + r;
    assert (-q - 1) * pageSize == count + r - pageSize;
    -q
  }

  /** The two bounds of PageCount's contract determine it. */
  lemma PageCountUnique(count: int, pageSize: int, k: int)
    requires pageSize >= 1
    requires k * pageSize >= count && (k - 1) * pageSize < count
    ensures PageCount(count, pageSize) == k
  {
    var p := PageCount(count, pageSize);
    if p < k {
      MulMonotone(p, k - 1, pageSize);
    } else if p > k {
      MulMonotone(k, p - 1, pageSize);
    }
  }

  /**
   A count that is an exact multiple of the page size gives exactly that many
   pages; a partial last page adds one.
   */
  lemma PageCountOfRemainder(k: int, r: int, pageSize: int)
    requires k >= 0 && pageSize >= 1 && 0 <= r < pageSize
    ensures PageCount(k * pageSize + r, pageSize) == if r == 0 then k else k + 1
  {
    var c := k * pageSize;
    MulSucc(k - 1, pageSize);
    MulSucc(k, pageSize);
    if r == 0 {
      PageCountUnique(c, pageSize, k);
    } else {
      PageCountUnique(c + r, pageSize, k + 1);
    }
  }

  // ---------------------------------------------------------------------------
  // Skip / Take and the page slice
  // ---------------------------------------------------------------------------

  /** LINQ Skip: a count at or below zero skips nothing, one past the end leaves nothing. */
  function Skip<T>(s: seq<T>, n: int): (r: seq<T>)
    ensures |r| == |s| - Clamp(n, |s|)
    ensures r == s[|s| - |r|..]
  {
    if n <= 0 then s else if n >= |s| then [] else s[n..]
  }

  /** LINQ Take: a count at or below zero takes nothing, one past the end takes all. */
  function Take<T>(s: seq<T>, n: int): (r: seq<T>)
    ensures |r| == Clamp(n, |s|)
    ensures r == s[..|r|]
  {
    if n <= 0 then [] else if n >= |s| then s else s[..n]
  }

  /** Where page `pageIndex` starts in the source: `(pageIndex - 1) * pageSize`. */
  function SkipOffset(pageIndex: int, pageSize: int): (offset: int) {
    (pageIndex - 1) * pageSize
  }

  /**
   The items of page `pageIndex`: skip `(pageIndex - 1) * pageSize` items of
   the source and take `pageSize`. The result is the contiguous window of the
   source starting at that offset (clamped into the source), at most one page
   long, in source order.
   */
  function PageSlice<T>(source: seq<T>, pageIndex: int, pageSize: int): (items: seq<T>)
    requires pageSize >= 1
    ensures |items| <= pageSize
    ensures var lo := Clamp(SkipOffset(pageIndex, pageSize), |source|);
            items == source[lo..Min(lo + pageSize, |source|)]
  {
    Take(Skip(source, SkipOffset(pageIndex, pageSize)), pageSize)
  }

  /**
   For a page index from 1 on, the page is empty exactly when it lies past the
   last page: every page 1..PageCount has items, every later page has none,
   and a later page is not an error.
   */
  lemma PageEmptyIff<T>(source: seq<T>, pageIndex: int, pageSize: int)
    requires pageSize >= 1 && pageIndex >= 1
    ensures PageSlice(source, pageIndex, pageSize) == [] <==> pageIndex > PageCount(|source|, pageSize)
  {
    var k := PageCount(|source|, pageSize);
    var lo := Clamp(SkipOffset(pageIndex, pageSize), |source|);
    MulMonotone(0, pageIndex - 1, pageSize);
    if pageIndex > k {
      MulMonotone(k, pageIndex - 1, pageSize);
      assert lo == |source|;
    } else {
      MulMonotone(pageIndex - 1, k - 1, pageSize);
      assert lo < |source|;
      assert source[lo] == PageSlice(source, pageIndex, pageSize)[0];
    }
  }

  /**
   A page index below 1 is not rejected: its offset is not positive, Skip then
   skips nothing, and the page shows the first page's items.
   */
  lemma LowPageIndexShowsFirstPage<T>(source: seq<T>, pageIndex: int, pageSize: int)
    requires pageSize >= 1 && pageIndex < 1
    ensures PageSlice(source, pageIndex, pageSize) == PageSlice(source, 1, pageSize)
  {
    MulMonotone(pageIndex - 1, 0, pageSize);
  }

  /** Every page before the last one is full. */
  lemma FullPage<T>(source: seq<T>, pageIndex: int, pageSize: int)
    requires pageSize >= 1 && 1 <= pageIndex < PageCount(|source|, pageSize)
    ensures |PageSlice(source, pageIndex, pageSize)| == pageSize
  {
    var k := PageCount(|source|, pageSize);
    MulMonotone(pageIndex, k - 1, pageSize);
    MulMonotone(0, pageIndex - 1, pageSize);
    assert (pageIndex - 1) * pageSize + pageSize == pageIndex * pageSize;
  }

  /** Pages 1..n of the source, concatenated. */
  function PagesUpTo<T>(source: seq<T>, pageSize: int, n: nat): (pages: seq<T>)
    requires pageSize >= 1
  {
    if n == 0 then [] else PagesUpTo(source, pageSize, n - 1) + PageSlice(source, n, pageSize)
  }

  lemma AppendPage<T>(source: seq<T>, pageSize: int, n: nat, a: int, b: int)
    requires pageSize >= 1 && n >= 1 && 0 <= a <= b <= |source|
    requires PagesUpTo(source, pageSize, n - 1) == source[..a]
    requires PageSlice(source, n, pageSize) == source[a..b]
    ensures PagesUpTo(source, pageSize, n) == source[..b]
  {
    assert source[..a] + source[a..b] == source[..b];
  }

  /** Page n covers the source positions from where page n starts up to where page n + 1 starts. */
  lemma PageBounds<T>(source: seq<T>, pageSize: int, n: int)
    requires pageSize >= 1 && n >= 1
    ensures Clamp(SkipOffset(n, pageSize), |source|) <= Clamp(SkipOffset(n + 1, pageSize), |source|)
    ensures PageSlice(source, n, pageSize)
         == source[Clamp(SkipOffset(n, pageSize), |source|)..Clamp(SkipOffset(n + 1, pageSize), |source|)]
  {
    MulSucc(n - 1, pageSize);
    MulMonotone(0, n - 1, pageSize);
  }

  /** The first n pages are the source up to where page n + 1 starts. */
  lemma {:induction false} PagesUpToIsPrefix<T>(source: seq<T>, pageSize: int, n: nat)
    requires pageSize >= 1
    ensures PagesUpTo(source, pageSize, n) == source[..Clamp(SkipOffset(n + 1, pageSize), |source|)]
  {
    if n > 0 {
      PagesUpToIsPrefix(source, pageSize, n - 1);
      PageBounds(source, pageSize, n);
      AppendPage(source, pageSize, n, Clamp(SkipOffset(n, pageSize), |source|), Clamp(SkipOffset(n + 1, pageSize), |source|));
    }
  }

  /** Concatenating pages 1..PageCount reproduces the source exactly. */
  lemma PagesReassemble<T>(source: seq<T>, pageSize: int)
    requires pageSize >= 1
    ensures PagesUpTo(source, pageSize, PageCount(|source|, pageSize)) == source
  {
    var k := PageCount(|source|, pageSize);
    PagesUpToIsPrefix(source, pageSize, k);
    assert Clamp(SkipOffset(k + 1, pageSize), |source|) == |source|;
  }

  // ---------------------------------------------------------------------------
  // The skip offset as written: 32-bit arithmetic
  // ---------------------------------------------------------------------------

  /**
   `(pageIndex - 1) * pageSize` evaluated with unchecked 32-bit `int` operations:
   the 32-bit value congruent to the exact offset modulo 2^32.
   */
  function SkipOffset32(pageIndex: int, pageSize: int): (offset: int)
    requires IsInt32(pageIndex) && 1 <= pageSize <= Int32Max
    ensures IsInt32(offset)
    ensures (SkipOffset(pageIndex, pageSize) - offset) % 0x1_0000_0000 == 0
    ensures IsInt32(SkipOffset(pageIndex, pageSize)) ==> offset == SkipOffset(pageIndex, pageSize)
  {
    FactorInRange(pageIndex - 1, pageSize);
    WrapProductCongruent(pageIndex - 1, pageSize);
    Wrap32(Wrap32(pageIndex - 1) * pageSize)
  }

  /** The page slice with the 32-bit skip offset the C# code computes. */
  function PageSliceAsWritten<T>(source: seq<T>, pageIndex: int, pageSize: int): (items: seq<T>)
    requires IsInt32(pageIndex) && 1 <= pageSize <= Int32Max
    ensures var lo := Clamp(SkipOffset32(pageIndex, pageSize), |source|);
            items == source[lo..Min(lo + pageSize, |source|)]
    ensures IsInt32(SkipOffset(pageIndex, pageSize)) ==> items == PageSlice(source, pageIndex, pageSize)
  {
    Take(Skip(source, SkipOffset32(pageIndex, pageSize)), pageSize)
  }

  /**
   A page index far past the last page whose offset wraps around: with 25 items
   and 10 to a page there are 3 pages, page 429496731 ought to be empty, but
   its offset 4294967300 wraps to 4 and the page shows items 5 to 14.
   */
  lemma OffsetWrapShowsItemsPastLastPage()
    ensures var source := seq(25, i => i);
            PageCount(|source|, 10) == 3 &&
            PageSlice(source, 429496731, 10) == [] &&
            PageSliceAsWritten(source, 429496731, 10) == source[4..14]
  {
    var source := seq(25, i => i);
    PageCountUnique(25, 10, 3);
    PageEmptyIff(source, 429496731, 10);
    assert SkipOffset32(429496731, 10) == 4;
  }

  // ---------------------------------------------------------------------------
  // The paginated list
  // ---------------------------------------------------------------------------

  class PaginatedList<T> {
    /** The 1-based index of this page, as supplied by the caller. */
    const PageIndex: int
    /** The number of pages of the whole source. */
    const TotalPages: int
    /** The items of this page, in source order. */
    var Items: seq<T>

    predicate HasPreviousPage() {
      PageIndex > 1
    }

    predicate HasNextPage() {
      PageIndex < TotalPages
    }

    /** Builds the page from the already sliced `items` and the source's total `count`. */
    constructor (items: seq<T>, count: int, pageIndex: int, pageSize: int)
      requires pageSize >= 1
      ensures PageIndex == pageIndex
      ensures TotalPages == PageCount(count, pageSize)
      ensures Items == items
    {
      PageIndex := pageIndex;
      TotalPages := PageCount(count, pageSize);
      Items := [];
      new;
      AddRange(items);
    }

    /** Appends `xs` to the items, in order. */
    method AddRange(xs: seq<T>)
      modifies this
      ensures Items == old(Items) + xs
    {
      Items := Items + xs;
    }

    /**
     Counts the source, cuts page `pageIndex` out of it and builds the list
     from the two.
     */
    static method CreateAsync(source: seq<T>, pageIndex: int, pageSize: int)
      returns (page: PaginatedList<T>)
      requires pageSize >= 1
      ensures fresh(page)
      ensures page.PageIndex == pageIndex
      ensures page.TotalPages == PageCount(|source|, pageSize)
      ensures page.Items == PageSlice(source, pageIndex, pageSize)
    {
      var count := |source|;
      var items := PageSlice(source, pageIndex, pageSize);
      page := new PaginatedList(items, count, pageIndex, pageSize);
    }
  }

  // ---------------------------------------------------------------------------
  // What the navigation flags mean for a page of a source
  // ---------------------------------------------------------------------------

  /** An empty source has no pages, and no next page from any index 0 on. */
  lemma EmptySourceHasNoNextPage<T>(list: PaginatedList<T>, pageSize: int)
    requires pageSize >= 1 && list.TotalPages == PageCount(0, pageSize)
    requires list.PageIndex >= 0
    ensures list.TotalPages == 0
    ensures !list.HasNextPage()
  {
    PageCountUnique(0, pageSize, 0);
  }

  /**
   A next page is announced exactly when the next page has items. The one
   exception is a negative index on an empty source, where the flag is set.
   */
  lemma NextPageFlag<T>(list: PaginatedList<T>, source: seq<T>, pageSize: int)
    requires pageSize >= 1 && list.TotalPages == PageCount(|source|, pageSize)
    requires list.PageIndex >= 0 || |source| > 0
    ensures list.HasNextPage() <==> PageSlice(source, list.PageIndex + 1, pageSize) != []
  {
    if list.PageIndex >= 0 {
      PageEmptyIff(source, list.PageIndex + 1, pageSize);
    } else {
      // The page after a negative index is page 1, which has items.
      LowPageIndexShowsFirstPage(source, list.PageIndex + 1, pageSize);
      assert SkipOffset(1, pageSize) == 0;
      assert PageSlice(source, 1, pageSize)[0] == source[0];
      PageEmptyIff(source, 1, pageSize);
      assert list.PageIndex < 1 <= list.TotalPages;
    }
  }

  /**
   A previous page is announced exactly when some items of the source come
   before this page. The one exception is an empty source with an index from
   2 on, where the flag is set although nothing precedes the page.
   */
  lemma PreviousPageFlag<T>(list: PaginatedList<T>, source: seq<T>, pageSize: int)
    requires pageSize >= 1
    requires |source| > 0 || list.PageIndex <= 1
    ensures list.HasPreviousPage() <==> Clamp(SkipOffset(list.PageIndex, pageSize), |source|) > 0
  {
    var p := list.PageIndex;
    if p > 1 {
      MulMonotone(1, p - 1, pageSize);
    } else {
      MulMonotone(p - 1, 0, pageSize);
    }
  }
}
