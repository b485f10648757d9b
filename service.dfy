/**
 * `BookServiceImpl`: the catalog queries over the rows `list()` returns, and the two
 * favorite-count updates. The row store is the `books` field; `getById` is `FindIndex`
 * on it; the outcome of `updateById` is the `persisted` parameter of the updates.
 */
module Service {
  import opened Wrappers
  import opened JavaInt
  import opened Text
  import opened Catalog
  import opened Matching
  import opened Ordering
  import opened Sorting
  import opened Paging
  import opened Counter

  /** `"asc".equalsIgnoreCase(sortType)`; a null sort type is not "asc". */
  predicate IsAscending(sortType: Option<string>) {
    sortType.Some? && EqualsIgnoreCase("asc", sortType.value)
  }

  /** "asc" in any case selects ascending; null, "" and any other word, such as "up", descending. */
  lemma SortTypeExamples()
    ensures IsAscending(Some("asc")) && IsAscending(Some("ASC")) && IsAscending(Some("aSc"))
    ensures !IsAscending(None) && !IsAscending(Some("")) && !IsAscending(Some("up")) && !IsAscending(Some("desc"))
  {
    assert ToLower("ASC") == "asc" && ToLower("aSc") == "asc";
    assert ToLower("up") == "up" && ToLower("desc") == "desc";
  }

  /** The order of `searchAndSortByFavoriteCount`. */
  function SearchOrder(sortType: Option<string>): Order {
    if IsAscending(sortType) then ByFavoriteAscThenName else ByFavoriteDescThenUpdateTime
  }

  /** The order of `listAllBooksAndSortByFavoriteCount`. */
  function CountOrder(sortType: Option<string>): Order {
    if IsAscending(sortType) then ByFavoriteAsc else ByFavoriteDesc
  }

  /**
   * The ascending comparator reads the names of two books with equal counts and throws
   * on a null one; no such pair may be among the candidates.
   */
  ghost predicate NoNamelessTies(s: seq<Book>) {
    forall i, j :: 0 <= i < |s| && 0 <= j < |s| && i != j && FavoriteCount(s[i]) == FavoriteCount(s[j]) ==>
      s[i].name.Some?
  }

  /** The candidates of `searchAndSortByFavoriteCount` in ranking order, before paging. */
  function Ranked(books: seq<Book>, query: Option<string>, sortType: Option<string>): (r: seq<Book>)
    ensures multiset(r) == multiset(Candidates(books, query, true))
    ensures IsAscending(sortType) ==> CountsAscending(r)
    ensures !IsAscending(sortType) ==> CountsDescending(r)
  {
    var s := StableSort(Candidates(books, query, true), SearchOrder(sortType));
    if IsAscending(sortType) then SortedByFavoriteAscThenName(s); s
    else SortedByFavoriteDescThenUpdateTime(s); s
  }

  /**
   * The tie-breaks of the ranking: with "asc", books of equal count are in case-insensitive
   * name order; otherwise the newest come first and books without update time last.
   */
  lemma RankedTieBreaks(books: seq<Book>, query: Option<string>, sortType: Option<string>)
    ensures var r := Ranked(books, query, sortType);
      forall i, j :: 0 <= i < j < |r| && FavoriteCount(r[i]) == FavoriteCount(r[j]) ==>
        if IsAscending(sortType) then CompareIgnoreCase(NameOrEmpty(r[i]), NameOrEmpty(r[j])) <= 0
        else CompareUpdateTime(r[i].updateTime, r[j].updateTime) <= 0
  {
    var s := StableSort(Candidates(books, query, true), SearchOrder(sortType));
    if IsAscending(sortType) {
      SortedByFavoriteAscThenName(s);
    } else {
      SortedByFavoriteDescThenUpdateTime(s);
    }
  }

  /** Sorting by count alone keeps every group of equal count in input order. */
  lemma SortKeepsAllCountGroups(s: seq<Book>, o: Order)
    requires o == ByFavoriteAsc || o == ByFavoriteDesc
    ensures forall c :: WithCount(StableSort(s, o), c) == WithCount(s, c)
  {
    forall c ensures WithCount(StableSort(s, o), c) == WithCount(s, c) {
      SortKeepsCountGroups(s, o, c);
    }
  }

  /** Every stored favorite count is null or in [0, 1000]. */
  ghost predicate CountsInRange(books: seq<Book>) {
    forall i :: 0 <= i < |books| ==> books[i].favoriteCount.Some? ==> 0 <= books[i].favoriteCount.value <= Ceiling
  }

  /** The rows after a counter update, and the boolean the service returns. */
  datatype Effect = Effect(books: seq<Book>, result: bool)

  /** Only the favorite count of the row at `k` may differ between `before` and `after`. */
  ghost predicate OnlyCountAt(before: seq<Book>, after: seq<Book>, k: int) {
    |after| == |before| &&
    forall i :: 0 <= i < |before| ==>
      after[i] == before[i].(favoriteCount := after[i].favoriteCount) && (i != k ==> after[i] == before[i])
  }

  /** Applies a counter decision to the row `Lookup` finds, if any, writing only when persisted. */
  function ApplyToRow(books: seq<Book>, k: nat, u: Update, persisted: bool): (e: Effect)
    requires k < |books|
    ensures OnlyCountAt(books, e.books, k)
  {
    match u
    case Refused => Effect(books, false)
    case Unchanged => Effect(books, true)
    case Write(n) =>
      if persisted then Effect(books[k := books[k].(favoriteCount := Some(n))], true)
      else Effect(books, false)
  }

  /** What `incrementFavoriteCount` does to the rows and returns. */
  function IncrementEffect(books: seq<Book>, bookId: Option<int>, persisted: bool): (e: Effect)
  {
    var k := Lookup(books, bookId);
    if k.None? then Effect(books, false)
    else ApplyToRow(books, k.value, IncrementUpdate(books[k.value].favoriteCount), persisted)
  }

  /** What `decrementFavoriteCount` does to the rows and returns. */
  function DecrementEffect(books: seq<Book>, bookId: Option<int>, persisted: bool): (e: Effect)
  {
    var k := Lookup(books, bookId);
    if k.None? then Effect(books, false)
    else ApplyToRow(books, k.value, DecrementUpdate(books[k.value].favoriteCount), persisted)
  }

  /**
   * Increment: an invalid or unknown id, or a count (null as 0) at or above 1000, returns
   * false and changes nothing; otherwise the count becomes count + 1 and the result is the
   * outcome of the write. No other field or row changes.
   */
  lemma IncrementSpec(books: seq<Book>, bookId: Option<int>, persisted: bool)
    ensures var e := IncrementEffect(books, bookId, persisted);
      var k := Lookup(books, bookId);
      && (k.None? ==> e == Effect(books, false))
      && (k.Some? ==> OnlyCountAt(books, e.books, k.value))
      && (k.Some? && CountOrZero(books[k.value].favoriteCount) >= Ceiling ==> e == Effect(books, false))
      && (k.Some? && CountOrZero(books[k.value].favoriteCount) < Ceiling ==>
            e.result == persisted &&
            e.books[k.value].favoriteCount ==
              (if persisted then Some(CountOrZero(books[k.value].favoriteCount) + 1) else books[k.value].favoriteCount))
      && (!e.result ==> e.books == books)
  {
  }

  /**
   * Decrement: an invalid or unknown id returns false; a null count becomes 0 and a positive
   * count goes down by one, both returning the outcome of the write; a count of 0 or less
   * is left alone and the call returns true.
   */
  lemma DecrementSpec(books: seq<Book>, bookId: Option<int>, persisted: bool)
    ensures var e := DecrementEffect(books, bookId, persisted);
      var k := Lookup(books, bookId);
      && (k.None? ==> e == Effect(books, false))
      && (k.Some? ==> OnlyCountAt(books, e.books, k.value))
      && (k.Some? && books[k.value].favoriteCount.None? ==>
            e.result == persisted && (persisted ==> e.books[k.value].favoriteCount == Some(0)))
      && (k.Some? && books[k.value].favoriteCount.Some? && books[k.value].favoriteCount.value > 0 ==>
            e.result == persisted &&
            (persisted ==> e.books[k.value].favoriteCount == Some(books[k.value].favoriteCount.value - 1)))
      && (k.Some? && books[k.value].favoriteCount.Some? && books[k.value].favoriteCount.value <= 0 ==>
            e == Effect(books, true))
      && (!e.result ==> e.books == books)
  {
  }

  /** Neither update takes a stored count out of [0, 1000]. */
  lemma UpdatesPreserveCountRange(books: seq<Book>, bookId: Option<int>, persisted: bool)
    requires CountsInRange(books)
    ensures CountsInRange(IncrementEffect(books, bookId, persisted).books)
    ensures CountsInRange(DecrementEffect(books, bookId, persisted).books)
  {
    var k := Lookup(books, bookId);
    if k.Some? {
      UpdatesKeepRange(books[k.value].favoriteCount);
    }
  }

  /** Decrementing a count of 0 a second time changes nothing and still returns true. */
  lemma DecrementAtZeroIdempotent(books: seq<Book>, bookId: Option<int>, persisted: bool)
    requires var k := Lookup(books, bookId); k.Some? && books[k.value].favoriteCount == Some(0)
    ensures DecrementEffect(books, bookId, persisted) == Effect(books, true)
    ensures DecrementEffect(DecrementEffect(books, bookId, persisted).books, bookId, persisted) == Effect(books, true)
  {
  }

  /** Only the favorite count changes, so distinct primary keys stay distinct. */
  lemma OnlyCountKeepsIds(before: seq<Book>, after: seq<Book>, k: int)
    requires DistinctIds(before) && OnlyCountAt(before, after, k)
    ensures DistinctIds(after)
  {
    forall i, j | 0 <= i < |after| && 0 <= j < |after| && after[i].id == after[j].id ensures i == j {
      assert before[i].id == after[i].id && before[j].id == after[j].id;
    }
  }

  /** The book service over the rows of the book table. */
  class BookService {
    /** The rows, in the order `list()` returns them. */
    var books: seq<Book>

    ghost predicate Valid()
      reads this
    {
      |books| <= MaxInt && DistinctIds(books)
    }

    constructor (rows: seq<Book>)
      requires |rows| <= MaxInt && DistinctIds(rows)
      ensures Valid() && books == rows
    {
      books := rows;
    }

    /**
     * `listAllBooks`: with a blank query every row, unsorted; otherwise the rows whose name,
     * author or category contains the query ignoring case, newest update first.
     */
    method ListAllBooks(query: Option<string>) returns (r: seq<Book>)
      requires Valid()
      ensures !HasText(query) ==> r == books
      ensures HasText(query) ==> r == StableSort(Select(books, FreeText(query.value, false)), ByUpdateTimeDesc)
      ensures HasText(query) ==> NewestFirst(r)
      ensures HasText(query) ==> forall b :: multiset(r)[b] ==
                                              if TextMatches(b, query.value, false) then multiset(books)[b] else 0
    {
      var allBooks := books;
      if !HasText(query) {
        return allBooks;
      }
      var q := query.value;
      var filteredBooks: seq<Book> := [];
      for i := 0 to |allBooks|
        invariant filteredBooks == Select(allBooks[..i], FreeText(q, false))
      {
        var book := allBooks[i];
        var nameMatch, authorMatch, categoryMatch := false, false, false;
        if book.name.Some? && Contains(ToLower(book.name.value), ToLower(q)) {
          nameMatch := true;
        }
        if book.author.Some? && Contains(ToLower(book.author.value), ToLower(q)) {
          authorMatch := true;
        }
        if book.category.Some? && Contains(ToLower(book.category.value), ToLower(q)) {
          categoryMatch := true;
        }
        if nameMatch || authorMatch || categoryMatch {
          filteredBooks := filteredBooks + [book];
        }
        assert allBooks[..i + 1][..i] == allBooks[..i];
      }
      assert allBooks[..|allBooks|] == allBooks;
      r := StableSort(filteredBooks, ByUpdateTimeDesc);
      SortedByUpdateTime(r);
      forall b ensures multiset(r)[b] == if TextMatches(b, q, false) then multiset(books)[b] else 0 {
        SelectCounts(books, FreeText(q, false), b);
      }
    }

    /**
     * `advancedSearch`: the rows passing every non-blank filter, newest update first, one
     * page of them, a page past the end moved to the last items.
     */
    method AdvancedSearch(title: Option<string>, author: Option<string>, category: Option<string>, page: Int32, size: Int32)
      returns (r: Result<Page<Book>>)
      requires Valid()
      ensures r == Paginate(StableSort(Select(books, Structured(title, author, category)), ByUpdateTimeDesc),
                            page, size, ToLastPage)
    {
      var allBooks := books;
      var filteredBooks: seq<Book> := [];
      for i := 0 to |allBooks|
        invariant filteredBooks == Select(allBooks[..i], Structured(title, author, category))
      {
        var book := allBooks[i];
        var shouldInclude := true;
        if HasText(title) {
          if book.name.None? {
            shouldInclude := false;
          } else {
            if |title.value| <= 2 {
              shouldInclude := EqualsIgnoreCase(book.name.value, title.value);
            } else if |title.value| <= 5 {
              shouldInclude := StartsWith(ToLower(book.name.value), ToLower(title.value));
            } else {
              shouldInclude := Contains(ToLower(book.name.value), ToLower(title.value));
            }
          }
        }
        if shouldInclude && HasText(author) {
          if book.author.None? {
            shouldInclude := false;
          } else if !Contains(ToLower(book.author.value), ToLower(author.value)) {
            shouldInclude := false;
          }
        }
        if shouldInclude && HasText(category) {
          if book.category.None? {
            shouldInclude := false;
          } else {
            if |category.value| <= 3 {
              shouldInclude := EqualsIgnoreCase(book.category.value, category.value);
            } else {
              shouldInclude := Contains(ToLower(book.category.value), ToLower(category.value));
            }
          }
        }
        assert shouldInclude == AdvancedMatches(book, title, author, category);
        if shouldInclude {
          filteredBooks := filteredBooks + [book];
        }
        assert allBooks[..i + 1][..i] == allBooks[..i];
      }
      assert allBooks[..|allBooks|] == allBooks;
      filteredBooks := StableSort(filteredBooks, ByUpdateTimeDesc);
      r := PageOf(filteredBooks, page, size, ToLastPage);
    }

    /**
     * `getBookDetail`: null for a null or non-positive id or an unknown one; otherwise the
     * row with its presentation defaults filled in. The stored row is not changed.
     */
    method GetBookDetail(id: Option<int>) returns (r: Option<Book>)
      requires Valid()
      ensures r.None? <==> !ValidId(id) || forall i :: 0 <= i < |books| ==> books[i].id != id.value
      ensures forall i :: 0 <= i < |books| && ValidId(id) && books[i].id == id.value ==>
        r == Some(NormalizeDetail(books[i]))
    {
      if id.None? || id.value <= 0 {
        return None;
      }
      var found := FindIndex(books, id.value);
      if found.None? {
        return None;
      }
      var book := books[found.value];
      if book.author.None? || |book.author.value| == 0 {
        book := book.(author := Some(UnknownAuthor));
      }
      if book.category.None? || |book.category.value| == 0 {
        book := book.(category := Some(Uncategorized));
      }
      if book.price.None? || book.price.value < 0 {
        book := book.(price := Some(0));
      }
      r := Some(book);
      forall i | 0 <= i < |books| && books[i].id == id.value ensures r == Some(NormalizeDetail(books[i])) {
        FindIndexUnique(books, id.value, i);
      }
    }

    /**
     * `searchAndSortByFavoriteCount`: the rows matching the query in name, author, category
     * or description (all rows for a blank query), ranked by favorite count, one page of
     * them, a page past the end moved to the first items.
     */
    method SearchAndSortByFavoriteCount(page: Int32, size: Int32, query: Option<string>, sortType: Option<string>)
      returns (r: Result<Page<Book>>)
      requires Valid()
      requires IsAscending(sortType) ==> NoNamelessTies(Candidates(books, query, true))
      ensures r == Paginate(Ranked(books, query, sortType), page, size, ToFirstPage)
    {
      var allBooks := books;
      var filteredBooks: seq<Book> := [];
      if !HasText(query) {
        filteredBooks := allBooks;
      } else {
        var q := query.value;
        for i := 0 to |allBooks|
          invariant filteredBooks == Select(allBooks[..i], FreeText(q, true))
        {
          var book := allBooks[i];
          var nameMatch := book.name.Some? && Contains(ToLower(book.name.value), ToLower(q));
          var authorMatch := book.author.Some? && Contains(ToLower(book.author.value), ToLower(q));
          var categoryMatch := book.category.Some? && Contains(ToLower(book.category.value), ToLower(q));
          var descMatch := book.description.Some? && Contains(ToLower(book.description.value), ToLower(q));
          if nameMatch || authorMatch || categoryMatch || descMatch {
            filteredBooks := filteredBooks + [book];
          }
          assert allBooks[..i + 1][..i] == allBooks[..i];
        }
        assert allBooks[..|allBooks|] == allBooks;
      }
      if IsAscending(sortType) {
        filteredBooks := StableSort(filteredBooks, ByFavoriteAscThenName);
      } else {
        filteredBooks := StableSort(filteredBooks, ByFavoriteDescThenUpdateTime);
      }
      r := PageOf(filteredBooks, page, size, ToFirstPage);
    }

    /**
     * `incrementFavoriteCount`: see IncrementSpec. `persisted` is what `updateById` reports;
     * the row is rewritten only when it reports success.
     */
    method IncrementFavoriteCount(bookId: Option<int>, persisted: bool) returns (ok: bool)
      requires Valid()
      modifies this
      ensures Valid()
      ensures Effect(books, ok) == IncrementEffect(old(books), bookId, persisted)
    {
      if bookId.None? || bookId.value <= 0 {
        return false;
      }
      var found := FindIndex(books, bookId.value);
      if found.None? {
        return false;
      }
      var k := found.value;
      var book := books[k];
      var currentCount := CountOrZero(book.favoriteCount);
      if currentCount >= Ceiling {
        return false;
      }
      book := book.(favoriteCount := Some(currentCount + 1));
      ok := persisted;
      if ok {
        OnlyCountKeepsIds(books, books[k := book], k);
        books := books[k := book];
      }
    }

    /**
     * `decrementFavoriteCount`: see DecrementSpec. `persisted` is what `updateById` reports;
     * the row is rewritten only when it reports success.
     */
    method DecrementFavoriteCount(bookId: Option<int>, persisted: bool) returns (ok: bool)
      requires Valid()
      modifies this
      ensures Valid()
      ensures Effect(books, ok) == DecrementEffect(old(books), bookId, persisted)
    {
      if bookId.None? || bookId.value <= 0 {
        return false;
      }
      var found := FindIndex(books, bookId.value);
      if found.None? {
        return false;
      }
      var k := found.value;
      var book := books[k];
      var favoriteCount := book.favoriteCount;
      if favoriteCount.None? {
        book := book.(favoriteCount := Some(0));
      } else if favoriteCount.value > 0 {
        book := book.(favoriteCount := Some(favoriteCount.value - 1));
      } else {
        return true;
      }
      ok := persisted;
      if ok {
        OnlyCountKeepsIds(books, books[k := book], k);
        books := books[k := book];
      }
    }

    /**
     * `listAllBooksAndSortByFavoriteCount`: the rows matching the query in name, author,
     * category or description (all rows for a blank query), ordered by favorite count,
     * ascending for "asc" in any case and descending for anything else; books of equal
     * count keep the order of `list()`.
     */
    function ListAllBooksAndSortByFavoriteCount(query: Option<string>, sortType: Option<string>): (r: seq<Book>)
      reads this
      ensures multiset(r) == multiset(Candidates(books, query, true))
      ensures IsAscending(sortType) ==> CountsAscending(r)
      ensures !IsAscending(sortType) ==> CountsDescending(r)
      ensures forall c :: WithCount(r, c) == WithCount(Candidates(books, query, true), c)
    {
      var o := CountOrder(sortType);
      var r := StableSort(Candidates(books, query, true), o);
      SortedByFavorite(r, o);
      SortKeepsAllCountGroups(Candidates(books, query, true), o);
      r
    }
  }
}
