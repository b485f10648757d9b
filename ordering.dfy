/**
 * The comparators the catalog queries sort with, written as the service writes them, and
 * proved to be valid comparators (antisymmetric, transitive, ties exactly on equal keys)
 * against an independent reference: a lexicographic comparison of integer sort keys.
 */
module Ordering {
  import opened Wrappers
  import opened Text
  import opened Catalog

  /** The five sort orders of the service. */
  datatype Order =
    /** `listAllBooks` and `advancedSearch`: newest update first, null update time last. */
    | ByUpdateTimeDesc
    /** `listAllBooksAndSortByFavoriteCount` with "asc": favorite count ascending, no tie-break. */
    | ByFavoriteAsc
    /** `listAllBooksAndSortByFavoriteCount` otherwise: favorite count descending, no tie-break. */
    | ByFavoriteDesc
    /** `searchAndSortByFavoriteCount` with "asc": count ascending, then name ignoring case. */
    | ByFavoriteAscThenName
    /** `searchAndSortByFavoriteCount` otherwise: count descending, then update time as in ByUpdateTimeDesc. */
    | ByFavoriteDescThenUpdateTime

  /** `Integer.compare` */
  function CompareInt(x: int, y: int): (r: int)
    ensures r < 0 <==> x < y
    ensures r == 0 <==> x == y
  {
    if x < y then -1 else if x == y then 0 else 1
  }

  /** Lexicographic comparison; a proper prefix comes first. */
  function LexCompare(a: seq<int>, b: seq<int>): (r: int)
    ensures -1 <= r <= 1
  {
    if |a| == 0 && |b| == 0 then 0
    else if |a| == 0 then -1
    else if |b| == 0 then 1
    else if a[0] < b[0] then -1
    else if a[0] > b[0] then 1
    else LexCompare(a[1..], b[1..])
  }

  /** The character codes of a string. */
  function Codes(s: string): (r: seq<int>)
    ensures |r| == |s| && forall i :: 0 <= i < |s| ==> r[i] == s[i] as int
  {
    if |s| == 0 then [] else [s[0] as int] + Codes(s[1..])
  }

  /**
   * The sign of `String.compareToIgnoreCase`: the first differing character after case
   * mapping decides, otherwise the shorter string comes first.
   */
  function CompareIgnoreCase(s: string, t: string): int {
    LexCompare(Codes(ToLower(s)), Codes(ToLower(t)))
  }

  /**
   * The update-time comparator of `advancedSearch`, which `listAllBooks` also expresses as
   * `nullsLast(reverseOrder())`: two nulls tie, a null sorts after any time, later times first.
   */
  function CompareUpdateTime(t1: Option<int>, t2: Option<int>): int {
    if t1.None? && t2.None? then 0
    else if t1.None? then 1
    else if t2.None? then -1
    else CompareInt(t2.value, t1.value)
  }

  /** The name used by the name tie-break (only reached for books whose name is not null). */
  function NameOrEmpty(b: Book): string {
    if b.name.Some? then b.name.value else ""
  }

  /** The comparator of each order; negative means `a` sorts before `b`. */
  function Compare(o: Order, a: Book, b: Book): int {
    match o
    case ByUpdateTimeDesc => CompareUpdateTime(a.updateTime, b.updateTime)
    case ByFavoriteAsc => CompareInt(FavoriteCount(a), FavoriteCount(b))
    case ByFavoriteDesc => CompareInt(FavoriteCount(b), FavoriteCount(a))
    case ByFavoriteAscThenName =>
      if FavoriteCount(a) == FavoriteCount(b) then CompareIgnoreCase(NameOrEmpty(a), NameOrEmpty(b))
      else CompareInt(FavoriteCount(a), FavoriteCount(b))
    case ByFavoriteDescThenUpdateTime =>
      if FavoriteCount(a) == FavoriteCount(b) then CompareUpdateTime(a.updateTime, b.updateTime)
      else CompareInt(FavoriteCount(b), FavoriteCount(a))
  }

  /** Reference sort key of an update time: present times by descending value, then null. */
  function TimeKey(t: Option<int>): seq<int> {
    if t.Some? then [0, -t.value] else [1]
  }

  /** Reference sort key of a book under an order. */
  function Key(o: Order, b: Book): seq<int> {
    match o
    case ByUpdateTimeDesc => TimeKey(b.updateTime)
    case ByFavoriteAsc => [FavoriteCount(b)]
    case ByFavoriteDesc => [-FavoriteCount(b)]
    case ByFavoriteAscThenName => [FavoriteCount(b)] + Codes(ToLower(NameOrEmpty(b)))
    case ByFavoriteDescThenUpdateTime => [-FavoriteCount(b)] + TimeKey(b.updateTime)
  }

  /** Comparing keys that start with one integer each. */
  lemma LexCons(x: int, u: seq<int>, y: int, v: seq<int>)
    ensures LexCompare([x] + u, [y] + v) == if x < y then -1 else if x > y then 1 else LexCompare(u, v)
  {
    assert ([x] + u)[1..] == u;
    assert ([y] + v)[1..] == v;
  }

  lemma {:induction false} LexAntisymmetric(a: seq<int>, b: seq<int>)
    ensures LexCompare(b, a) == -LexCompare(a, b)
  {
    if |a| > 0 && |b| > 0 && a[0] == b[0] {
      LexAntisymmetric(a[1..], b[1..]);
    }
  }

  lemma {:induction false} LexZeroIffEqual(a: seq<int>, b: seq<int>)
    ensures LexCompare(a, b) == 0 <==> a == b
  {
    if |a| > 0 && |b| > 0 && a[0] == b[0] {
      LexZeroIffEqual(a[1..], b[1..]);
      if a[1..] == b[1..] {
        assert a == [a[0]] + a[1..] && b == [b[0]] + b[1..];
      }
    }
  }

  lemma {:induction false} LexTransitive(a: seq<int>, b: seq<int>, c: seq<int>)
    requires LexCompare(a, b) <= 0 && LexCompare(b, c) <= 0
    ensures LexCompare(a, c) <= 0
  {
    if |a| > 0 && |b| > 0 && |c| > 0 && a[0] == b[0] == c[0] {
      LexTransitive(a[1..], b[1..], c[1..]);
    }
  }

  /** The update-time comparator is the lexicographic comparison of TimeKey. */
  lemma TimeKeyAgrees(t1: Option<int>, t2: Option<int>)
    ensures CompareUpdateTime(t1, t2) == LexCompare(TimeKey(t1), TimeKey(t2))
  {
    if t1.Some? && t2.Some? {
      LexCons(0, [-t1.value], 0, [-t2.value]);
      LexCons(-t1.value, [], -t2.value, []);
    } else if t1.Some? {
      LexCons(0, [-t1.value], 1, []);
    } else if t2.Some? {
      LexCons(1, [], 0, [-t2.value]);
    }
  }

  /** Each comparator, as the service writes it, agrees with the reference key comparison. */
  lemma CompareAgreesWithKey(o: Order, a: Book, b: Book)
    ensures Compare(o, a, b) == LexCompare(Key(o, a), Key(o, b))
  {
    match o
    case ByUpdateTimeDesc =>
      TimeKeyAgrees(a.updateTime, b.updateTime);
    case ByFavoriteAsc =>
      LexCons(FavoriteCount(a), [], FavoriteCount(b), []);
    case ByFavoriteDesc =>
      LexCons(-FavoriteCount(a), [], -FavoriteCount(b), []);
    case ByFavoriteAscThenName =>
      LexCons(FavoriteCount(a), Codes(ToLower(NameOrEmpty(a))), FavoriteCount(b), Codes(ToLower(NameOrEmpty(b))));
    case ByFavoriteDescThenUpdateTime =>
      TimeKeyAgrees(a.updateTime, b.updateTime);
      LexCons(-FavoriteCount(a), TimeKey(a.updateTime), -FavoriteCount(b), TimeKey(b.updateTime));
  }

  /** Swapping the arguments flips the sign (Java's comparator contract). */
  lemma CompareAntisymmetric(o: Order, a: Book, b: Book)
    ensures Compare(o, b, a) == -Compare(o, a, b)
  {
    CompareAgreesWithKey(o, a, b);
    CompareAgreesWithKey(o, b, a);
    LexAntisymmetric(Key(o, a), Key(o, b));
  }

  /** "Sorts no later than" is transitive. */
  lemma CompareTransitive(o: Order, a: Book, b: Book, c: Book)
    requires Compare(o, a, b) <= 0 && Compare(o, b, c) <= 0
    ensures Compare(o, a, c) <= 0
  {
    CompareAgreesWithKey(o, a, b);
    CompareAgreesWithKey(o, b, c);
    CompareAgreesWithKey(o, a, c);
    LexTransitive(Key(o, a), Key(o, b), Key(o, c));
  }

  /** Two books tie exactly when their keys are equal, so ties form equivalence classes. */
  lemma CompareTieIffSameKey(o: Order, a: Book, b: Book)
    ensures Compare(o, a, b) == 0 <==> Key(o, a) == Key(o, b)
  {
    CompareAgreesWithKey(o, a, b);
    LexZeroIffEqual(Key(o, a), Key(o, b));
  }

  /**
   * The descending comparator of `searchAndSortByFavoriteCount` as written: on equal counts
   * it returns 1 as soon as the first book's update time is null, even when both are null.
   */
  function CompareFavoriteDescAsWritten(a: Book, b: Book): int {
    if FavoriteCount(a) == FavoriteCount(b) then
      if a.updateTime.None? then 1
      else if b.updateTime.None? then -1
      else CompareInt(b.updateTime.value, a.updateTime.value)
    else CompareInt(FavoriteCount(b), FavoriteCount(a))
  }

  /**
   * As written, the comparator breaks the comparator contract: a book without an update
   * time compares greater than itself, and two such books with equal counts each compare
   * greater than the other.
   */
  lemma AsWrittenComparatorNotAntisymmetric(a: Book, b: Book)
    requires a.updateTime.None? && b.updateTime.None? && FavoriteCount(a) == FavoriteCount(b)
    ensures CompareFavoriteDescAsWritten(a, a) == 1
    ensures CompareFavoriteDescAsWritten(a, b) == 1 && CompareFavoriteDescAsWritten(b, a) == 1
    ensures Compare(ByFavoriteDescThenUpdateTime, a, b) == 0
  {
  }

  /** The corrected comparator differs from the written one only where both update times are null. */
  lemma AsWrittenAgreesElsewhere(a: Book, b: Book)
    requires a.updateTime.Some? || b.updateTime.Some?
    ensures CompareFavoriteDescAsWritten(a, b) == Compare(ByFavoriteDescThenUpdateTime, a, b)
  {
  }
}
