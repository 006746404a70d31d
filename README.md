# Pagination helper of the incident tracker

This project models `PaginatedList<T>`, the helper that the incident tracker's
index views use to page through database query results. One page is cut out of
an ordered source with LINQ's `Skip`/`Take`. The list then holds that page's
items together with the metadata the views render:

- the 1-based `PageIndex` the caller asked for;
- `TotalPages`, the ceiling of the total item count divided by the page size;
- `HasPreviousPage` (`PageIndex > 1`) and `HasNextPage` (`PageIndex < TotalPages`).

Everything lives in one module, `Pagination`, in `paginated_list.dfy`:

- The page count is the integer ceiling `PageCount`. Its contract states that it
  is the least `k` with `k * pageSize >= count`.
- LINQ's `Skip` and `Take` are written out with their clamping of negative and
  too-large counts.
- `PageSlice` is the page that `CreateAsync` cuts out. Its contract gives it as
  an explicit window `source[lo..hi]`.
- `PagesUpTo` concatenates pages 1..n. The lemmas prove that pages 1..TotalPages
  reassemble the source exactly, and that a page is empty exactly when it lies
  past the last page.
- `PaginatedList<T>` is a class. `PageIndex` and `TotalPages` are constant fields
  assigned by the constructor. The items are a `seq<T>` field that the
  constructor fills with `AddRange`, held by composition rather than by
  inheriting `List<T>`. `CreateAsync` is a static method. It counts the
  source, slices it and constructs the list.
- The lemmas `NextPageFlag`, `PreviousPageFlag` and `EmptySourceHasNoNextPage`
  relate the two navigation flags to the pages of the source.

A page index below 1 is not rejected. Its offset `(pageIndex - 1) * pageSize`
is not positive. With LINQ-to-Objects' `Skip`, a non-positive offset skips
nothing, so page 0 or a negative page shows page 1's items
(`LowPageIndexShowsFirstPage`).

## Model

| member | source | states |
|---|---|---|
| `Pagination.PageCount` | PaginatedList.cs:46 | the page count is the ceiling of count / pageSize: the least `pages` with `pages * pageSize >= count`, and it is never negative for a non-negative count |
| `Pagination.PageCountUnique` | PaginatedList.cs:46 | any `k` with `k * pageSize >= count > (k - 1) * pageSize` is the page count, so the count is determined by those bounds |
| `Pagination.PageCountOfRemainder` | PaginatedList.cs:46 | `k * pageSize` items give exactly `k` pages (no extra page for an exact multiple); `k * pageSize + r` with `0 < r < pageSize` gives `k + 1` |
| `Pagination.Skip` | PaginatedList.cs:61 | Skip returns the suffix of the source that drops `n` items, with `n` clamped to 0..length (a non-positive count skips nothing) |
| `Pagination.Take` | PaginatedList.cs:61 | Take returns the prefix of `n` items, with `n` clamped to 0..length |
| `Pagination.PageSlice` | PaginatedList.cs:60-61 | the page is `source[lo..min(lo + pageSize, length)]` with `lo` the offset `(pageIndex - 1) * pageSize` clamped into the source: at most `pageSize` items, contiguous, in source order |
| `Pagination.PageEmptyIff` | PaginatedList.cs:59-62 | for `pageIndex >= 1`, the page is empty exactly when `pageIndex > TotalPages`: pages 1..TotalPages have items, later pages are empty and not rejected |
| `Pagination.LowPageIndexShowsFirstPage` | PaginatedList.cs:61 | a page index below 1 is not rejected and yields the same items as page 1 |
| `Pagination.FullPage` | PaginatedList.cs:59-62 | every page before the last one holds exactly `pageSize` items |
| `Pagination.PageBounds` | PaginatedList.cs:61 | page n spans the source from where page n starts to where page n + 1 starts |
| `Pagination.PagesUpToIsPrefix` | PaginatedList.cs:61 | pages 1..n concatenated are the source's prefix up to where page n + 1 starts |
| `Pagination.PagesReassemble` | PaginatedList.cs:46-61 | concatenating pages 1..TotalPages reproduces the source exactly: nothing lost, duplicated or reordered |
| `Pagination.Wrap32` | PaginatedList.cs:61 | C#'s unchecked `int` result is in 32-bit range, congruent to the exact value modulo 2^32, and equal to it when it fits |
| `Pagination.SkipOffset32` | PaginatedList.cs:61 | the offset as C# computes it is the 32-bit value congruent to the exact `(pageIndex - 1) * pageSize` modulo 2^32, hence equal to it whenever that fits in 32 bits |
| `Pagination.PageSliceAsWritten` | PaginatedList.cs:61 | the page cut with the 32-bit offset is the window `source[lo..min(lo + pageSize, length)]` at the wrapped offset clamped into the source, for every input; it equals the exact page whenever the offset fits in 32 bits |
| `Pagination.OffsetWrapShowsItemsPastLastPage` | PaginatedList.cs:61 | for 25 items, 10 to a page, page 429496731 should be empty but the wrapped offset shows items 5 to 14 |
| `Pagination.PaginatedList.constructor` | PaginatedList.cs:43-49 | after construction `PageIndex` is the supplied index, `TotalPages` is `PageCount(count, pageSize)` and the items are exactly the supplied items, in order |
| `Pagination.PaginatedList.AddRange` | PaginatedList.cs:48 | appending keeps the existing items and adds the new ones after them, in order |
| `Pagination.PaginatedList.CreateAsync` | PaginatedList.cs:56-63 | the result is a new list with the supplied page index, the page count of the whole source and the page's slice of the source |
| `Pagination.EmptySourceHasNoNextPage` | PaginatedList.cs:36-46 | a count of 0 gives 0 pages, and then no next page for any page index from 0 on |
| `Pagination.NextPageFlag` | PaginatedList.cs:36 | `HasNextPage` holds exactly when the following page has items, for every page index except a negative one on an empty source (where the flag is set but the following page is empty) |
| `Pagination.PreviousPageFlag` | PaginatedList.cs:33 | `HasPreviousPage` holds exactly when some items of the source come before this page, for every page index except one from 2 on over an empty source (where the flag is set but nothing precedes the page) |

## Left out

- Program.cs is not part of this model. It holds configuration loading, log sink setup and the web host bootstrap: I/O and framework plumbing.
- Asynchrony and the database are not modelled. `CountAsync`, `ToListAsync` and the translation of `IQueryable` to SQL are foreign library calls. The source is an in-memory `seq<T>` that counts and slices without failing. Fetch failures and their propagation are therefore not modelled.
- `Skip` with a negative count follows LINQ-to-Objects, which skips nothing. How a particular database provider treats a negative offset is not modelled.
- Pagination.PageCount: uses exact integer ceiling division instead of `Math.Ceiling` over `double`. The two agree for all 32-bit operands, because both convert to `double` exactly and the quotient's rounding error is below `1 / pageSize`.
- A page size of 0 or less is excluded by `requires pageSize >= 1`. The `double` division would give an infinite or NaN page count, whose `(int)` cast is unspecified.
- Only the item sequence of the `List<T>` base class is modelled, plus the `AddRange` the constructor uses. The rest of the inherited list API, and the callers' ability to mutate the list afterwards, are not modelled.
- A source of more than 2^31 - 1 items, for which `CountAsync` would throw, is not modelled. The count is the unbounded `|source|`.
- Pagination.PaginatedList.CreateAsync: uses the exact offset `(pageIndex - 1) * pageSize`, i.e. the corrected behaviour of the finding below. The 32-bit wrap-around of the code as written is modelled separately by `PageSliceAsWritten`.

## Findings

| source | as written | input that shows it | evidently intended | confidence | as-written member | corrected member |
|---|---|---|---|---|---|---|
| PaginatedList.cs:61 | `(pageIndex - 1) * pageSize` is unchecked 32-bit `int` arithmetic, so a large page index wraps to a small offset | 25 items, pageSize 10, pageIndex 429496731: the offset 4294967300 wraps to 4, and the page shows items 5 to 14 although only 3 pages exist | a page past the last one is empty (`PageEmptyIff`) | not executed; medium (assumes the default unchecked arithmetic) | `Pagination.OffsetWrapShowsItemsPastLastPage` | `Pagination.PageSlice` |
