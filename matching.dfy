/**
 * Which books a query keeps: the free-text predicate of the list and favorite-count
 * searches, and the structured predicate of `advancedSearch`.
 */
module Matching {
  import opened Wrappers
  import opened Text
  import opened Catalog

  /** A non-null text field whose lower-case form contains the (already lower-cased) query. */
  predicate FieldContains(field: Option<string>, lowerQuery: string) {
    field.Some? && Contains(ToLower(field.value), lowerQuery)
  }

  /**
   * The free-text predicate: the lower-cased query occurs in the lower-cased name, author
   * or category, and also in the description when `withDescription` holds.
   */
  predicate TextMatches(b: Book, query: string, withDescription: bool) {
    var q := ToLower(query);
    FieldContains(b.name, q) || FieldContains(b.author, q) || FieldContains(b.category, q) ||
    (withDescription && FieldContains(b.description, q))
  }

  /**
   * The title filter: exact (ignoring case) for a filter of at most 2 characters,
   * prefix for 3 to 5, substring beyond. A null name never passes.
   */
  predicate TitleMatches(name: Option<string>, title: string) {
    name.Some? &&
    if |title| <= 2 then EqualsIgnoreCase(name.value, title)
    else if |title| <= 5 then StartsWith(ToLower(name.value), ToLower(title))
    else Contains(ToLower(name.value), ToLower(title))
  }

  /** The author filter: substring, ignoring case. A null author never passes. */
  predicate AuthorMatches(author: Option<string>, filter: string) {
    FieldContains(author, ToLower(filter))
  }

  /**
   * The category filter: exact (ignoring case) for a filter of at most 3 characters,
   * substring beyond. A null category never passes.
   */
  predicate CategoryMatches(category: Option<string>, filter: string) {
    category.Some? &&
    if |filter| <= 3 then EqualsIgnoreCase(category.value, filter)
    else Contains(ToLower(category.value), ToLower(filter))
  }

  /** The structured predicate: every filter that has text holds; blank filters impose nothing. */
  predicate AdvancedMatches(b: Book, title: Option<string>, author: Option<string>, category: Option<string>) {
    (HasText(title) ==> TitleMatches(b.name, title.value)) &&
    (HasText(author) ==> AuthorMatches(b.author, author.value)) &&
    (HasText(category) ==> CategoryMatches(b.category, category.value))
  }

  /** The two ways a query selects books. */
  datatype Criteria =
    | FreeText(query: string, withDescription: bool)
    | Structured(title: Option<string>, author: Option<string>, category: Option<string>)

  predicate Keep(c: Criteria, b: Book) {
    match c
    case FreeText(q, withDescription) => TextMatches(b, q, withDescription)
    case Structured(t, a, cat) => AdvancedMatches(b, t, a, cat)
  }

  /** The books of `books` that `c` keeps, in their original order (the loop over `list()`). */
  function Select(books: seq<Book>, c: Criteria): (r: seq<Book>)
    ensures |r| <= |books|
    ensures forall i :: 0 <= i < |r| ==> Keep(c, r[i])
  {
    if |books| == 0 then []
    else
      var last := books[|books| - 1];
      Select(books[..|books| - 1], c) + (if Keep(c, last) then [last] else [])
  }

  /** `r` is `s` with some elements left out; the rest stay in their order. */
  ghost predicate IsSubsequence<T>(r: seq<T>, s: seq<T>) {
    |r| == 0 ||
    (|s| > 0 &&
     ((r[|r| - 1] == s[|s| - 1] && IsSubsequence(r[..|r| - 1], s[..|s| - 1])) ||
      IsSubsequence(r, s[..|s| - 1])))
  }

  /** Every sequence is a subsequence of itself. */
  lemma {:induction false} SubsequenceOfItself<T>(s: seq<T>)
    ensures IsSubsequence(s, s)
  {
    if |s| > 0 {
      SubsequenceOfItself(s[..|s| - 1]);
    }
  }

  /** A selection keeps each kept book exactly as often as the input holds it, and no other book. */
  lemma {:induction false} SelectCounts(books: seq<Book>, c: Criteria, b: Book)
    ensures multiset(Select(books, c))[b] == if Keep(c, b) then multiset(books)[b] else 0
  {
    if |books| > 0 {
      var init, last := books[..|books| - 1], books[|books| - 1];
      assert books == init + [last];
      SelectCounts(init, c, b);
    }
  }

  /** A selection keeps the input's relative order. */
  lemma {:induction false} SelectIsSubsequence(books: seq<Book>, c: Criteria)
    ensures IsSubsequence(Select(books, c), books)
  {
    if |books| > 0 {
      var init, last := books[..|books| - 1], books[|books| - 1];
      var r := Select(books, c);
      SelectIsSubsequence(init, c);
      if Keep(c, last) {
        assert r[..|r| - 1] == Select(init, c);
      } else {
        assert r == Select(init, c);
      }
    }
  }

  /**
   * The books a free-text search works on: with a blank query all of them, otherwise
   * those the free-text predicate keeps.
   */
  function Candidates(books: seq<Book>, query: Option<string>, withDescription: bool): (r: seq<Book>)
    ensures !HasText(query) ==> r == books
    ensures HasText(query) ==> forall i :: 0 <= i < |r| ==> TextMatches(r[i], query.value, withDescription)
    ensures HasText(query) ==> forall b :: multiset(r)[b] ==
                                            if TextMatches(b, query.value, withDescription) then multiset(books)[b] else 0
    ensures IsSubsequence(r, books)
  {
    if HasText(query) then
      SelectIsSubsequence(books, FreeText(query.value, withDescription));
      var c := FreeText(query.value, withDescription);
      assert forall b :: multiset(Select(books, c))[b] == if Keep(c, b) then multiset(books)[b] else 0 by {
        forall b ensures multiset(Select(books, c))[b] == if Keep(c, b) then multiset(books)[b] else 0 {
          SelectCounts(books, c, b);
        }
      }
      Select(books, c)
    else
      SubsequenceOfItself(books);
      books
  }

  /** A book whose name, author, category and description are all null matches no free-text query. */
  lemma NullFieldsNeverMatch(b: Book, query: string, withDescription: bool)
    requires b.name.None? && b.author.None? && b.category.None? && b.description.None?
    ensures !TextMatches(b, query, withDescription)
  {
  }

  /** Adding the description to the searched fields can only keep more books. */
  lemma DescriptionWidens(b: Book, query: string)
    ensures TextMatches(b, query, false) ==> TextMatches(b, query, true)
  {
  }

  /** With no filter that has text, the structured predicate keeps every book. */
  lemma BlankFiltersKeepAll(b: Book, title: Option<string>, author: Option<string>, category: Option<string>)
    requires !HasText(title) && !HasText(author) && !HasText(category)
    ensures AdvancedMatches(b, title, author, category)
  {
  }

  /** A title filter of 2 characters is an exact match: "Py" does not select "Python", "PY" selects "py". */
  lemma ShortTitleIsExact()
    ensures !TitleMatches(Some("Python"), "Py")
    ensures TitleMatches(Some("py"), "PY")
  {
    assert ToLower("Python") != ToLower("Py");
  }

  /** A title filter of 3 to 5 characters is a prefix match: "Pyt" selects "Python", "yth" does not. */
  lemma MediumTitleIsPrefix()
    ensures TitleMatches(Some("Python"), "Pyt")
    ensures !TitleMatches(Some("Python"), "yth")
  {
    assert ToLower("Python")[..3] == ToLower("Pyt");
    assert ToLower("Python")[..3] != ToLower("yth");
  }

  /** A longer title filter is a substring match, ignoring case. */
  lemma LongTitleIsSubstring()
    ensures TitleMatches(Some("Python3"), "YTHON3")
  {
    assert ToLower("Python3") == "python3";
    assert ToLower("YTHON3") == "ython3";
    assert "python3"[1..] == "ython3";
    assert StartsWith("ython3", "ython3");
    assert Contains("python3", "ython3");
  }

  /** Title strategies by filter length: whatever passes a tighter strategy passes the looser ones. */
  lemma TitleStrategiesNest(name: string, title: string)
    ensures EqualsIgnoreCase(name, title) ==> StartsWith(ToLower(name), ToLower(title))
    ensures StartsWith(ToLower(name), ToLower(title)) ==> Contains(ToLower(name), ToLower(title))
  {
    if EqualsIgnoreCase(name, title) {
      assert ToLower(name)[..|ToLower(title)|] == ToLower(name);
    }
  }
}
