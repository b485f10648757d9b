/**
 * The `Book` entity as the catalog queries see it, lookup by id, and the
 * presentation defaults that `getBookDetail` fills in.
 */
module Catalog {
  import opened Wrappers

  /**
   * One row of the book table. Every column the queries read may be null. `price` is the
   * exact decimal price counted in its smallest unit; `updateTime` is a timestamp.
   */
  datatype Book = Book(
    id: int,
    name: Option<string>,
    author: Option<string>,
    category: Option<string>,
    description: Option<string>,
    price: Option<int>,
    favoriteCount: Option<int>,
    updateTime: Option<int>)

  /** Label shown for a book without an author ("unknown author"). */
  const UnknownAuthor: string := "未知作者"
  /** Label shown for a book without a category ("uncategorised"). */
  const Uncategorized: string := "未分类"

  /** A favorite count read with null as 0. */
  function CountOrZero(count: Option<int>): int {
    if count.Some? then count.value else 0
  }

  /** The favorite count of a book, null read as 0. */
  function FavoriteCount(b: Book): int {
    CountOrZero(b.favoriteCount)
  }

  /** No two rows share a primary key. */
  ghost predicate DistinctIds(books: seq<Book>) {
    forall i, j :: 0 <= i < |books| && 0 <= j < |books| && books[i].id == books[j].id ==> i == j
  }

  /** The position of the row with primary key `id` (`getById`), if there is one. */
  function FindIndex(books: seq<Book>, id: int): (r: Option<nat>)
    ensures r.Some? ==> r.value < |books| && books[r.value].id == id
    ensures r.None? <==> forall i :: 0 <= i < |books| ==> books[i].id != id
  {
    if |books| == 0 then None
    else if books[0].id == id then Some(0)
    else
      var rest := FindIndex(books[1..], id);
      if rest.Some? then Some(rest.value + 1) else None
  }

  /** With distinct keys the row `FindIndex` returns is the only one carrying that key. */
  lemma FindIndexUnique(books: seq<Book>, id: int, i: int)
    requires DistinctIds(books)
    requires 0 <= i < |books| && books[i].id == id
    ensures FindIndex(books, id) == Some(i)
  {
  }

  /** A valid book id: not null and positive. */
  predicate ValidId(id: Option<int>) {
    id.Some? && id.value > 0
  }

  /** The guard shared by `getBookDetail` and the two counter updates: a valid id naming an existing row. */
  function Lookup(books: seq<Book>, id: Option<int>): (r: Option<nat>)
    ensures r.Some? ==> ValidId(id) && r.value < |books| && books[r.value].id == id.value
    ensures r.None? <==> !ValidId(id) || forall i :: 0 <= i < |books| ==> books[i].id != id.value
  {
    if !ValidId(id) then None else FindIndex(books, id.value)
  }

  /** Present and not the empty string (Java: `s != null && !s.isEmpty()`). */
  predicate NonEmpty(s: Option<string>) {
    s.Some? && |s.value| > 0
  }

  /**
   * The post-processing of `getBookDetail`: a null or empty author or category gets its
   * label, a null or negative price becomes zero, and nothing else changes.
   */
  function NormalizeDetail(b: Book): (r: Book)
    ensures NonEmpty(r.author) && NonEmpty(r.category)
    ensures r.price.Some? && r.price.value >= 0
    ensures NonEmpty(b.author) ==> r.author == b.author
    ensures !NonEmpty(b.author) ==> r.author == Some(UnknownAuthor)
    ensures NonEmpty(b.category) ==> r.category == b.category
    ensures !NonEmpty(b.category) ==> r.category == Some(Uncategorized)
    ensures b.price.Some? && b.price.value >= 0 ==> r.price == b.price
    ensures !(b.price.Some? && b.price.value >= 0) ==> r.price == Some(0)
    ensures r.(author := b.author, category := b.category, price := b.price) == b
  {
    var author := if NonEmpty(b.author) then b.author else Some(UnknownAuthor);
    var category := if NonEmpty(b.category) then b.category else Some(Uncategorized);
    var price := if b.price.None? || b.price.value < 0 then Some(0) else b.price;
    b.(author := author, category := category, price := price)
  }

  /** Normalising a normalised record changes nothing. */
  lemma NormalizeIdempotent(b: Book)
    ensures NormalizeDetail(NormalizeDetail(b)) == NormalizeDetail(b)
  {
  }
}
