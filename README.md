# Book catalog service: a verified model

This project models `BookServiceImpl`, the book service of an online bookstore backend. The
service is an in-memory query engine over the rows of the book table. It offers:

- a free-text search, `listAllBooks`;
- a structured search with one page of results, `advancedSearch`;
- a detail lookup that fills in presentation defaults, `getBookDetail`;
- two rankings by favorite count, `searchAndSortByFavoriteCount` (paged) and
  `listAllBooksAndSortByFavoriteCount`;
- a favorite counter capped at 1000 and floored at 0, `incrementFavoriteCount` and
  `decrementFavoriteCount`.

The modules follow the parts of that class:

- `Catalog` (catalog.dfy) holds the `Book` record and the lookup by primary key. It also
  holds the detail normalisation.
- `Text` (text.dfy) holds `StringUtils.hasText`, `toLowerCase`, `contains`,
  `startsWith` and `equalsIgnoreCase`.
- `Matching` (matching.dfy) holds the free-text and structured predicates and the filtering
  loop as a function.
- `Ordering` (ordering.dfy) holds the comparators. They are proved to be valid comparators
  against independent sort keys.
- `Sorting` (sorting.dfy) models `List.sort` and `Stream.sorted` as a stable insertion sort.
  It proves the sort orders and permutes its input, keeps ties in input order, and is the
  only result with those properties.
- `Paging` (paging.dfy) is the manual pager, with its 32-bit index arithmetic and both
  clamp policies.
- `Counter` (counter.dfy) holds the increment and decrement decisions.
- `JavaInt` (java_int.dfy) holds the Java `int` arithmetic; `Wrappers` (wrappers.dfy)
  holds `Option` and `Result`.
- `Service` (service.dfy) is the class `BookService`. Its field `books` holds the rows in
  the order `list()` returns them.
  - The searches are methods with the source's loops. Each is proved equal to the
    specification functions above.
  - The two counter methods rewrite a row. `updateById`'s outcome is their `persisted`
    parameter, and the row changes only when it is true.
  - `listAllBooksAndSortByFavoriteCount` is a stream pipeline in the source, so it is a
    function.

## Model

| member | source | states |
|---|---|---|
| Text.ContainsIffOccurs | backend/bookstore-backend/src/main/java/com/bookstore/service/impl/BookServiceImpl.java:49 | `contains` holds exactly when the part occurs at some position of the string |
| Text.IsWhitespace | backend/bookstore-backend/src/main/java/com/bookstore/service/impl/BookServiceImpl.java:36 | `Character.isWhitespace` by code point: the separators the blank-query test skips |
| Text.HasText | backend/bookstore-backend/src/main/java/com/bookstore/service/impl/BookServiceImpl.java:36 | `StringUtils.hasText`: not null and holding a character that is not whitespace |
| Text.StartsWith | backend/bookstore-backend/src/main/java/com/bookstore/service/impl/BookServiceImpl.java:123 | `startsWith`: the prefix is the initial segment of the string |
| Text.Contains | backend/bookstore-backend/src/main/java/com/bookstore/service/impl/BookServiceImpl.java:49 | `contains`: the part is a prefix of some suffix (see ContainsIffOccurs) |
| Text.EqualsIgnoreCase | backend/bookstore-backend/src/main/java/com/bookstore/service/impl/BookServiceImpl.java:120 | `equalsIgnoreCase`: equal after case mapping |
| Text.ToLower | backend/bookstore-backend/src/main/java/com/bookstore/service/impl/BookServiceImpl.java:49 | lower-casing keeps the length and maps every character through the ASCII case mapping |
| Catalog.CountOrZero | backend/bookstore-backend/src/main/java/com/bookstore/service/impl/BookServiceImpl.java:315 | a null favorite count reads as 0, a present one as itself |
| Catalog.FavoriteCount | backend/bookstore-backend/src/main/java/com/bookstore/service/impl/BookServiceImpl.java:255-256 | the favorite count of a book with null read as 0, as at lines 255-256, 267-268 and 390-391 |
| Catalog.ValidId | backend/bookstore-backend/src/main/java/com/bookstore/service/impl/BookServiceImpl.java:198 | an id is usable exactly when it is not null and positive |
| Catalog.NonEmpty | backend/bookstore-backend/src/main/java/com/bookstore/service/impl/BookServiceImpl.java:207-212 | a field is non-empty exactly when it is not null and not the empty string (lines 207, 212) |
| Catalog.FindIndex | backend/bookstore-backend/src/main/java/com/bookstore/service/impl/BookServiceImpl.java:202 | the row found carries the requested primary key; nothing is found exactly when no row carries it |
| Catalog.Lookup | backend/bookstore-backend/src/main/java/com/bookstore/service/impl/BookServiceImpl.java:198-202 | a row is found only for a non-null, positive id that some row carries; null, non-positive and unknown ids find nothing |
| Catalog.FindIndexUnique | backend/bookstore-backend/src/main/java/com/bookstore/service/impl/BookServiceImpl.java:202 | with distinct primary keys the row found is the only one with that key |
| Catalog.NormalizeDetail | backend/bookstore-backend/src/main/java/com/bookstore/service/impl/BookServiceImpl.java:205-220 | the detail always has a non-empty author and category and a price of at least 0; a non-empty author or category is kept, otherwise it becomes "未知作者" or "未分类"; a price of 0 or more is kept and a null or negative price becomes 0; no other field changes |
| Catalog.NormalizeIdempotent | backend/bookstore-backend/src/main/java/com/bookstore/service/impl/BookServiceImpl.java:205-220 | normalising a normalised record changes nothing |
| Matching.FieldContains | backend/bookstore-backend/src/main/java/com/bookstore/service/impl/BookServiceImpl.java:49 | the per-field test: the field is not null and its lower-case form contains the lower-cased query (also lines 240-243, 381-384) |
| Matching.TextMatches | backend/bookstore-backend/src/main/java/com/bookstore/service/impl/BookServiceImpl.java:49-61 | the free-text predicate: the lower-cased query occurs in the lower-cased name, author or category, and in the description when that is searched (lines 240-243, 381-384); null fields never match |
| Matching.TitleMatches | backend/bookstore-backend/src/main/java/com/bookstore/service/impl/BookServiceImpl.java:113-129 | title filter: null name fails; at most 2 characters exact ignoring case, 3 to 5 a lower-case prefix, longer a lower-case substring |
| Matching.AuthorMatches | backend/bookstore-backend/src/main/java/com/bookstore/service/impl/BookServiceImpl.java:132-138 | author filter: null author fails; otherwise a lower-case substring |
| Matching.CategoryMatches | backend/bookstore-backend/src/main/java/com/bookstore/service/impl/BookServiceImpl.java:141-152 | category filter: null category fails; at most 3 characters exact ignoring case, longer a lower-case substring |
| Matching.AdvancedMatches | backend/bookstore-backend/src/main/java/com/bookstore/service/impl/BookServiceImpl.java:109-157 | a book is included exactly when every filter that has text holds |
| Matching.Select | backend/bookstore-backend/src/main/java/com/bookstore/service/impl/BookServiceImpl.java:42-67 | every book the loop keeps satisfies the predicate, and there are no more of them than input rows |
| Matching.SubsequenceOfItself | backend/bookstore-backend/src/main/java/com/bookstore/service/impl/BookServiceImpl.java:35-38 | every sequence is a subsequence of itself: a blank query keeps `list()` in order |
| Matching.SelectCounts | backend/bookstore-backend/src/main/java/com/bookstore/service/impl/BookServiceImpl.java:42-67 | a book occurs in the filtered list exactly as often as in the input when it matches, and not at all otherwise |
| Matching.SelectIsSubsequence | backend/bookstore-backend/src/main/java/com/bookstore/service/impl/BookServiceImpl.java:42-67 | the filtered list keeps the input's relative order |
| Matching.Candidates | backend/bookstore-backend/src/main/java/com/bookstore/service/impl/BookServiceImpl.java:235-249 | a blank query keeps every row unchanged; otherwise the candidates are exactly the rows matching in name, author, category (or description), each as often as stored, in their stored order |
| Matching.NullFieldsNeverMatch | backend/bookstore-backend/src/main/java/com/bookstore/service/impl/BookServiceImpl.java:49-61 | null fields never match, so a book with all text fields null matches no query |
| Matching.DescriptionWidens | backend/bookstore-backend/src/main/java/com/bookstore/service/impl/BookServiceImpl.java:240-245 | searching the description as well can only keep more books |
| Matching.BlankFiltersKeepAll | backend/bookstore-backend/src/main/java/com/bookstore/service/impl/BookServiceImpl.java:113-152 | with every filter blank, `advancedSearch` keeps every book |
| Matching.ShortTitleIsExact | backend/bookstore-backend/src/main/java/com/bookstore/service/impl/BookServiceImpl.java:118-120 | a title filter of at most 2 characters is an exact match ignoring case: "Py" does not select "Python" |
| Matching.MediumTitleIsPrefix | backend/bookstore-backend/src/main/java/com/bookstore/service/impl/BookServiceImpl.java:121-123 | a title filter of 3 to 5 characters is a prefix match: "Pyt" selects "Python", "yth" does not |
| Matching.LongTitleIsSubstring | backend/bookstore-backend/src/main/java/com/bookstore/service/impl/BookServiceImpl.java:124-126 | a longer title filter is a substring match ignoring case |
| Matching.TitleStrategiesNest | backend/bookstore-backend/src/main/java/com/bookstore/service/impl/BookServiceImpl.java:117-127 | an exact match is a prefix match, and a prefix match is a substring match |
| Ordering.CompareInt | backend/bookstore-backend/src/main/java/com/bookstore/service/impl/BookServiceImpl.java:262 | `Integer.compare`: negative exactly when less, zero exactly when equal |
| Ordering.CompareIgnoreCase | backend/bookstore-backend/src/main/java/com/bookstore/service/impl/BookServiceImpl.java:260 | the sign of `compareToIgnoreCase`: first differing character after case mapping, then length |
| Ordering.CompareUpdateTime | backend/bookstore-backend/src/main/java/com/bookstore/service/impl/BookServiceImpl.java:161-164 | two null times tie, a null time sorts after a present one, later times first |
| Ordering.Compare | backend/bookstore-backend/src/main/java/com/bookstore/service/impl/BookServiceImpl.java:254-276 | the comparator of each sort: update time (lines 71, 160-165), count with name or update-time tie-break (254-276), count only (389-399) |
| Ordering.CompareAgreesWithKey | backend/bookstore-backend/src/main/java/com/bookstore/service/impl/BookServiceImpl.java:160-165 | every comparator agrees with the lexicographic comparison of independent sort keys |
| Ordering.CompareAntisymmetric | backend/bookstore-backend/src/main/java/com/bookstore/service/impl/BookServiceImpl.java:254-276 | swapping the arguments negates every comparator |
| Ordering.CompareTransitive | backend/bookstore-backend/src/main/java/com/bookstore/service/impl/BookServiceImpl.java:254-276 | every comparator is transitive |
| Ordering.CompareTieIffSameKey | backend/bookstore-backend/src/main/java/com/bookstore/service/impl/BookServiceImpl.java:389-399 | two books tie exactly when their sort keys are equal |
| Ordering.CompareFavoriteDescAsWritten | backend/bookstore-backend/src/main/java/com/bookstore/service/impl/BookServiceImpl.java:266-277 | the descending comparator exactly as written, returning 1 whenever the first book lacks an update time on a count tie |
| Ordering.AsWrittenComparatorNotAntisymmetric | backend/bookstore-backend/src/main/java/com/bookstore/service/impl/BookServiceImpl.java:270-274 | as written, a book without an update time compares greater than itself, and two such books with equal counts each compare greater than the other |
| Ordering.AsWrittenAgreesElsewhere | backend/bookstore-backend/src/main/java/com/bookstore/service/impl/BookServiceImpl.java:266-277 | the corrected comparator differs from the written one only when both update times are null |
| Sorting.StableSort | backend/bookstore-backend/src/main/java/com/bookstore/service/impl/BookServiceImpl.java:160-165 | the sorted list is a permutation of its input and in order under the comparator |
| Sorting.SortStable | backend/bookstore-backend/src/main/java/com/bookstore/service/impl/BookServiceImpl.java:389-399 | books that tie keep their input order |
| Sorting.StableSortIsUnique | backend/bookstore-backend/src/main/java/com/bookstore/service/impl/BookServiceImpl.java:389-399 | every sorted permutation that keeps ties in input order equals the result: the order is fully determined |
| Sorting.SortedByUpdateTime | backend/bookstore-backend/src/main/java/com/bookstore/service/impl/BookServiceImpl.java:70-72 | sorted by update time: present times come first in non-increasing order, null times last |
| Sorting.SortedByFavoriteAscThenName | backend/bookstore-backend/src/main/java/com/bookstore/service/impl/BookServiceImpl.java:254-263 | counts never decrease, and books with equal counts are in case-insensitive name order |
| Sorting.SortedByFavoriteDescThenUpdateTime | backend/bookstore-backend/src/main/java/com/bookstore/service/impl/BookServiceImpl.java:266-277 | counts never increase, and among equal counts the newest come first and null update times last |
| Sorting.SortedByFavorite | backend/bookstore-backend/src/main/java/com/bookstore/service/impl/BookServiceImpl.java:389-399 | the count-only sort is non-decreasing for "asc" and non-increasing otherwise |
| Sorting.SortKeepsCountGroups | backend/bookstore-backend/src/main/java/com/bookstore/service/impl/BookServiceImpl.java:389-399 | the books of each favorite count keep their input order |
| Paging.CurrentPage | backend/bookstore-backend/src/main/java/com/bookstore/service/impl/BookServiceImpl.java:179 | the current page the result reports: the requested page whenever that is 1 or more, and exactly 1 otherwise |
| Paging.StartIndex | backend/bookstore-backend/src/main/java/com/bookstore/service/impl/BookServiceImpl.java:169-174 | `fromIndex`: (page-1)*size in 32-bit arithmetic, reset to max(0, total-size) or to 0 (lines 283-285) when at or past the end |
| Paging.EndIndex | backend/bookstore-backend/src/main/java/com/bookstore/service/impl/BookServiceImpl.java:176 | `toIndex`: min(fromIndex + size, total) in 32-bit arithmetic |
| Paging.Paginate | backend/bookstore-backend/src/main/java/com/bookstore/service/impl/BookServiceImpl.java:168-188 | the page carries the current page as `new Page<>(page, size, total)` stores it (the page when above 1, else 1), the size and the filtered count; its records are a contiguous slice of at most size items |
| Paging.PageOf | backend/bookstore-backend/src/main/java/com/bookstore/service/impl/BookServiceImpl.java:168-188 | the index arithmetic as the source writes it computes exactly `Paginate` |
| Paging.PageInRange | backend/bookstore-backend/src/main/java/com/bookstore/service/impl/BookServiceImpl.java:169-183 | for page >= 1, size >= 1 and page*size <= 2^31-1 (no wrap-around), a page starting inside the list is the slice from (page-1)*size to min(page*size, total) |
| Paging.PagePastEndShowsLastItems | backend/bookstore-backend/src/main/java/com/bookstore/service/impl/BookServiceImpl.java:172-174 | for page >= 1, size >= 1 and (page-1)*size <= 2^31-1, in `advancedSearch` a page past the end shows the last min(size, total) items |
| Paging.PagePastEndShowsFirstItems | backend/bookstore-backend/src/main/java/com/bookstore/service/impl/BookServiceImpl.java:283-285 | for page >= 1, size >= 1 and (page-1)*size <= 2^31-1, in `searchAndSortByFavoriteCount` a page past the end shows the first min(size, total) items |
| Paging.PageLength | backend/bookstore-backend/src/main/java/com/bookstore/service/impl/BookServiceImpl.java:169-186 | for page >= 1, size >= 1 and page*size <= 2^31-1, 0 <= from <= total and the page holds min(size, total - from) items |
| Paging.NonPositivePageFails | backend/bookstore-backend/src/main/java/com/bookstore/service/impl/BookServiceImpl.java:169-183 | for size >= 1 and no wrap-around of (page-1)*size, page 0 or less makes the start index negative, and `subList` throws |
| Paging.ZeroSizeGivesEmptyPage | backend/bookstore-backend/src/main/java/com/bookstore/service/impl/BookServiceImpl.java:176-186 | a size of 0 gives an empty page whose current page is the page when above 1, else 1 |
| Paging.OverflowingPageFails | backend/bookstore-backend/src/main/java/com/bookstore/service/impl/BookServiceImpl.java:169 | (page-1)*size wraps around in 32 bits: page 65537 with size 32768 starts at -2^31 and throws |
| Counter.IncrementUpdate | backend/bookstore-backend/src/main/java/com/bookstore/service/impl/BookServiceImpl.java:315-325 | a count (null as 0) of 1000 or more is refused; otherwise it becomes count + 1, which is at most 1000 |
| Counter.DecrementUpdate | backend/bookstore-backend/src/main/java/com/bookstore/service/impl/BookServiceImpl.java:345-359 | a null count becomes 0, a positive count goes down by one, and 0 or less is left alone |
| Counter.Apply | backend/bookstore-backend/src/main/java/com/bookstore/service/impl/BookServiceImpl.java:325-355 | the count stored after a successful write of an update; refused and unchanged updates keep it |
| Counter.UpdatesKeepRange | backend/bookstore-backend/src/main/java/com/bookstore/service/impl/BookServiceImpl.java:315-359 | a count in [0, 1000] stays in [0, 1000] under either update |
| Counter.CeilingBoundary | backend/bookstore-backend/src/main/java/com/bookstore/service/impl/BookServiceImpl.java:319-325 | 999 becomes 1000; 1000 is refused |
| Counter.DecrementUndoesIncrement | backend/bookstore-backend/src/main/java/com/bookstore/service/impl/BookServiceImpl.java:325-355 | below the ceiling, a decrement undoes an increment |
| Counter.IncrementUndoesDecrement | backend/bookstore-backend/src/main/java/com/bookstore/service/impl/BookServiceImpl.java:325-355 | above the floor, an increment undoes a decrement |
| Counter.IncrementsSaturate | backend/bookstore-backend/src/main/java/com/bookstore/service/impl/BookServiceImpl.java:315-325 | n successful increments from c in [0, 1000] give min(c + n, 1000) |
| Counter.DecrementsStopAtZero | backend/bookstore-backend/src/main/java/com/bookstore/service/impl/BookServiceImpl.java:352-359 | n successful decrements from c >= 0 give max(c - n, 0); repeating at 0 is idempotent |
| Counter.DecrementsRepairNull | backend/bookstore-backend/src/main/java/com/bookstore/service/impl/BookServiceImpl.java:348-351 | decrementing a null count leaves 0 |
| JavaInt.Min | backend/bookstore-backend/src/main/java/com/bookstore/service/impl/BookServiceImpl.java:176 | `Math.min`: no greater than either argument and equal to one of them |
| JavaInt.Max | backend/bookstore-backend/src/main/java/com/bookstore/service/impl/BookServiceImpl.java:173 | `Math.max`: no less than either argument and equal to one of them |
| JavaInt.Wrap | backend/bookstore-backend/src/main/java/com/bookstore/service/impl/BookServiceImpl.java:169 | two's-complement wrap-around of `int` arithmetic: the result is in the `int` range and congruent to the exact value modulo 2^32 at any magnitude; in-range values are kept, values one period out are shifted by 2^32 |
| Service.IsAscending | backend/bookstore-backend/src/main/java/com/bookstore/service/impl/BookServiceImpl.java:252 | `"asc".equalsIgnoreCase(sortType)`: a null sort type is not ascending |
| Service.SearchOrder | backend/bookstore-backend/src/main/java/com/bookstore/service/impl/BookServiceImpl.java:252-277 | "asc" in any case selects count ascending then name; anything else count descending then update time |
| Service.CountOrder | backend/bookstore-backend/src/main/java/com/bookstore/service/impl/BookServiceImpl.java:394-398 | "asc" in any case selects count ascending; anything else count descending |
| Service.SortTypeExamples | backend/bookstore-backend/src/main/java/com/bookstore/service/impl/BookServiceImpl.java:252 | "asc" in any case is ascending; null, "", "up" and "desc" are descending |
| Service.Ranked | backend/bookstore-backend/src/main/java/com/bookstore/service/impl/BookServiceImpl.java:252-277 | the ranking is a permutation of the candidates, counts non-decreasing for "asc" and non-increasing otherwise |
| Service.RankedTieBreaks | backend/bookstore-backend/src/main/java/com/bookstore/service/impl/BookServiceImpl.java:258-274 | ties on count are broken by case-insensitive name for "asc" and by update time, newest first and null last, otherwise |
| Service.SortKeepsAllCountGroups | backend/bookstore-backend/src/main/java/com/bookstore/service/impl/BookServiceImpl.java:389-399 | the count-only sort keeps every group of equal count in input order |
| Service.ApplyToRow | backend/bookstore-backend/src/main/java/com/bookstore/service/impl/BookServiceImpl.java:325-358 | an update rewrites at most the favorite count of the one row it targets |
| Service.IncrementEffect | backend/bookstore-backend/src/main/java/com/bookstore/service/impl/BookServiceImpl.java:304-328 | the rows after `incrementFavoriteCount` and its result; its properties are IncrementSpec |
| Service.DecrementEffect | backend/bookstore-backend/src/main/java/com/bookstore/service/impl/BookServiceImpl.java:335-360 | the rows after `decrementFavoriteCount` and its result; its properties are DecrementSpec |
| Service.IncrementSpec | backend/bookstore-backend/src/main/java/com/bookstore/service/impl/BookServiceImpl.java:304-328 | an invalid or unknown id or a count of 1000 or more gives false with no change; otherwise the count becomes count + 1 when the write succeeds, and the result is the write's outcome; nothing else changes |
| Service.DecrementSpec | backend/bookstore-backend/src/main/java/com/bookstore/service/impl/BookServiceImpl.java:335-360 | an invalid or unknown id gives false; a null count becomes 0 and a positive count goes down by one, both returning the write's outcome; a count of 0 or less gives true with no change |
| Service.UpdatesPreserveCountRange | backend/bookstore-backend/src/main/java/com/bookstore/service/impl/BookServiceImpl.java:304-360 | neither update takes a stored count out of [0, 1000] |
| Service.DecrementAtZeroIdempotent | backend/bookstore-backend/src/main/java/com/bookstore/service/impl/BookServiceImpl.java:356-359 | decrementing at 0, once or twice, changes nothing and returns true |
| Service.OnlyCountKeepsIds | backend/bookstore-backend/src/main/java/com/bookstore/service/impl/BookServiceImpl.java:325-355 | rewriting only a favorite count keeps primary keys distinct |
| Service.BookService.constructor | backend/bookstore-backend/src/main/java/com/bookstore/service/impl/BookServiceImpl.java:23 | the service starts over the given rows |
| Service.BookService.ListAllBooks | backend/bookstore-backend/src/main/java/com/bookstore/service/impl/BookServiceImpl.java:31-73 | a blank query returns `list()` unchanged and unsorted; otherwise the result holds exactly the rows whose name, author or category contains the query ignoring case, each as often as stored, newest update first and null update times last |
| Service.BookService.AdvancedSearch | backend/bookstore-backend/src/main/java/com/bookstore/service/impl/BookServiceImpl.java:102-189 | the result is the page, clamped to the last page, of the rows passing every non-blank filter, sorted newest first |
| Service.BookService.GetBookDetail | backend/bookstore-backend/src/main/java/com/bookstore/service/impl/BookServiceImpl.java:196-223 | null exactly for a null, non-positive or unknown id; otherwise the stored row normalised; the rows are not changed |
| Service.BookService.SearchAndSortByFavoriteCount | backend/bookstore-backend/src/main/java/com/bookstore/service/impl/BookServiceImpl.java:230-297 | the result is the page, clamped to the first page, of the ranked candidates (description included) |
| Service.BookService.IncrementFavoriteCount | backend/bookstore-backend/src/main/java/com/bookstore/service/impl/BookServiceImpl.java:304-328 | the new rows and the result are those `IncrementEffect` gives for the old rows, and primary keys stay distinct |
| Service.BookService.DecrementFavoriteCount | backend/bookstore-backend/src/main/java/com/bookstore/service/impl/BookServiceImpl.java:335-360 | the new rows and the result are those `DecrementEffect` gives for the old rows, and primary keys stay distinct |
| Service.BookService.ListAllBooksAndSortByFavoriteCount | backend/bookstore-backend/src/main/java/com/bookstore/service/impl/BookServiceImpl.java:367-401 | the result is a permutation of the candidates, with counts non-decreasing for "asc" in any case and non-increasing otherwise; the books of each count keep the order of `list()` |

## Left out

- `listBooks` (lines 80-94) builds a MyBatis-Plus query wrapper and delegates to the database's `page()`. Its semantics live in the library, which is not part of this model.
- The inherited persistence methods `list`, `getById` and `updateById` are not modelled as code. The table is the `books` field; `getById` is `FindIndex` on it. `updateById`'s boolean is the `persisted` parameter, because the database is not part of this model. The table is a sequence rather than a map because the queries depend on the order of `list()`.
- Concurrency, Spring transactions and caching are not modelled: the service is single-threaded here.
- Input-length validation and the exception messages, such as an over-long title or an invalid sort type, are not implemented by the class, so they are not modelled.
- `FavoriteService`, `UserService`, the controllers, the frontend and the application bootstrap are not part of this model.
- Text.ToLower: maps ASCII letters only. Java's full Unicode case mapping, its dependence on the default locale (under a Turkish locale `toLowerCase()` maps 'I' to dotless 'ı'), and `equalsIgnoreCase` on non-ASCII letters, are not modelled. String lengths count characters, not UTF-16 code units, so titles outside the Basic Multilingual Plane are measured differently.
- The price of a book is an integer, for example in cents. `BigDecimal` scale, and the "0.00" spelling of a repaired price, are not modelled. Update times are integers ordered like the timestamps. The entity class `Book` is not part of this model; the record holds the columns the service reads.
- Favorite counts and ids are unbounded integers. The service's count arithmetic never leaves the 32-bit range (it adds 1 below 1000 and subtracts 1 above 0), so nothing is lost.
- Service.BookService.SearchAndSortByFavoriteCount: requires that no nameless candidate ties another candidate on count when the sort type is "asc". The source throws `NullPointerException` there (line 260); that exception is not modelled.
- Service.BookService.SearchAndSortByFavoriteCount: sorts with the corrected descending comparator. As written, it returns 1 for two null update times, which breaks the comparator contract; see Findings.
- Sorting.StableSort: `List.sort` sorts in place, but the model sorts a sequence value, which is equivalent because the list is local to each query. Java's merge sort is replaced by insertion sort; `StableSortIsUnique` shows any stable sort gives the same result.
- Paging.Paginate: MyBatis-Plus's `Page` object is reduced to records, current page, size and total; the current-page rule of its constructor (kept only when above 1) follows the library's published behaviour, since the library is not part of this model. `Page` also derives a page count, which is not modelled.

## Findings

| source | as written | input that shows it | evidently intended | confidence | as-written member | corrected member |
|---|---|---|---|---|---|---|
| backend/bookstore-backend/src/main/java/com/bookstore/service/impl/BookServiceImpl.java:270-274 | on equal favorite counts, the descending comparator returns 1 whenever the first book has no update time, even when the second has none either | two books with equal counts and both update times null: each compares greater than the other, and a book compares greater than itself | two absent update times compare equal, as in `advancedSearch` (line 161) | not executed | Ordering.CompareFavoriteDescAsWritten, Ordering.AsWrittenComparatorNotAntisymmetric | Ordering.Compare (ByFavoriteDescThenUpdateTime), Ordering.CompareAntisymmetric, Ordering.CompareTransitive |
