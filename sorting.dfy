/**
 * The stable sorts of the service (`List.sort` and `Stream.sorted` are both stable), as a
 * stable insertion sort, with proofs that it sorts, permutes, keeps tied books in input
 * order, and is the only sequence that does all three.
 */
module Sorting {
  import opened Wrappers
  import opened Catalog
  import opened Ordering

  /**
   * The insertion sort is written once over any element type, for a relation `before`
   * (`before(a, b)`: the comparator puts `a` at or before `b`) and a key whose equal values
   * mark ties; below it is instantiated with the service's comparators and reference keys.
   */
  ghost predicate TotalPreorder<T(!new)>(before: (T, T) -> bool) {
    && (forall a, b :: before(a, b) || before(b, a))
    && (forall a, b, c :: before(a, b) && before(b, c) ==> before(a, c))
  }

  /** Elements with equal keys may come in either order. */
  ghost predicate TiesMayPrecede<T(!new), K>(before: (T, T) -> bool, key: T -> K) {
    forall a, b :: key(a) == key(b) ==> before(a, b)
  }

  ghost predicate SortedBy<T>(s: seq<T>, before: (T, T) -> bool) {
    forall i, j :: 0 <= i < j < |s| ==> before(s[i], s[j])
  }

  /** Insert `x` before the first element it may precede, so it precedes the elements it ties with. */
  function InsertBy<T>(x: T, r: seq<T>, before: (T, T) -> bool): (t: seq<T>)
    ensures |t| == |r| + 1
    ensures multiset(t) == multiset(r) + multiset{x}
  {
    if |r| == 0 then [x]
    else if before(x, r[0]) then [x] + r
    else
      assert r == [r[0]] + r[1..];
      [r[0]] + InsertBy(x, r[1..], before)
  }

  /** Insertion sort: each element goes in front of the sorted rest. */
  function SortBy<T>(s: seq<T>, before: (T, T) -> bool): (r: seq<T>)
    ensures |r| == |s|
    ensures multiset(r) == multiset(s)
  {
    if |s| == 0 then []
    else
      assert s == [s[0]] + s[1..];
      InsertBy(s[0], SortBy(s[1..], before), before)
  }

  /** The elements of `s` whose key is `k`, in order. */
  function TiedBy<T, K(==)>(s: seq<T>, key: T -> K, k: K): (r: seq<T>)
    ensures forall i :: 0 <= i < |r| ==> key(r[i]) == k
  {
    if |s| == 0 then []
    else (if key(s[0]) == k then [s[0]] else []) + TiedBy(s[1..], key, k)
  }

  lemma {:induction false} InsertBySorted<T(!new)>(x: T, r: seq<T>, before: (T, T) -> bool)
    requires TotalPreorder(before) && SortedBy(r, before)
    ensures SortedBy(InsertBy(x, r, before), before)
  {
    if |r| == 0 {
    } else if before(x, r[0]) {
      forall j | 0 <= j < |r| ensures before(x, r[j]) {
        if j > 0 { assert before(r[0], r[j]); }
      }
    } else {
      assert before(r[0], x);
      var tail := r[1..];
      InsertBySorted(x, tail, before);
      var t := InsertBy(x, tail, before);
      forall k | 0 <= k < |t| ensures before(r[0], t[k]) {
        assert t[k] in multiset(t);
        if t[k] != x {
          assert t[k] in multiset(tail);
          var m :| 0 <= m < |tail| && tail[m] == t[k];
          assert r[m + 1] == t[k];
        }
      }
      assert InsertBy(x, r, before) == [r[0]] + t;
    }
  }

  lemma {:induction false} SortBySorted<T(!new)>(s: seq<T>, before: (T, T) -> bool)
    requires TotalPreorder(before)
    ensures SortedBy(SortBy(s, before), before)
  {
    if |s| > 0 {
      SortBySorted(s[1..], before);
      InsertBySorted(s[0], SortBy(s[1..], before), before);
    }
  }

  lemma TiedByCons<T, K>(h: T, t: seq<T>, key: T -> K, k: K)
    ensures TiedBy([h] + t, key, k) == (if key(h) == k then [h] else []) + TiedBy(t, key, k)
  {
    assert ([h] + t)[1..] == t;
  }

  lemma {:induction false} TiedByInsert<T(!new), K>(x: T, r: seq<T>, before: (T, T) -> bool, key: T -> K, k: K)
    requires TiesMayPrecede(before, key)
    ensures TiedBy(InsertBy(x, r, before), key, k) == (if key(x) == k then [x] else []) + TiedBy(r, key, k)
  {
    if |r| == 0 {
      TiedByCons(x, [], key, k);
    } else if before(x, r[0]) {
      TiedByCons(x, r, key, k);
    } else {
      var t := InsertBy(x, r[1..], before);
      assert InsertBy(x, r, before) == [r[0]] + t;
      TiedByCons(r[0], t, key, k);
      TiedByInsert(x, r[1..], before, key, k);
      assert r == [r[0]] + r[1..];
      TiedByCons(r[0], r[1..], key, k);
      assert key(x) != key(r[0]);
    }
  }

  /** Insertion keeps every class of tied elements in input order: the sort is stable. */
  lemma {:induction false} SortByStable<T(!new), K>(s: seq<T>, before: (T, T) -> bool, key: T -> K, k: K)
    requires TiesMayPrecede(before, key)
    ensures TiedBy(SortBy(s, before), key, k) == TiedBy(s, key, k)
  {
    if |s| > 0 {
      SortByStable(s[1..], before, key, k);
      TiedByInsert(s[0], SortBy(s[1..], before), before, key, k);
      assert s == [s[0]] + s[1..];
      TiedByCons(s[0], s[1..], key, k);
    }
  }

  /** The service's comparator under `o`, as a relation. */
  function Before(o: Order): (Book, Book) -> bool {
    (a: Book, b: Book) => Compare(o, a, b) <= 0
  }

  /** The reference key under `o`, as a function. */
  function KeyOf(o: Order): Book -> seq<int> {
    (b: Book) => Key(o, b)
  }

  lemma BeforeIsTotalPreorder(o: Order)
    ensures TotalPreorder(Before(o))
  {
    forall a, b ensures Before(o)(a, b) || Before(o)(b, a) {
      CompareAntisymmetric(o, a, b);
    }
    forall a, b, c | Before(o)(a, b) && Before(o)(b, c) ensures Before(o)(a, c) {
      CompareTransitive(o, a, b, c);
    }
  }

  lemma KeyTiesMayPrecede(o: Order)
    ensures TiesMayPrecede(Before(o), KeyOf(o))
  {
    forall a, b | KeyOf(o)(a) == KeyOf(o)(b) ensures Before(o)(a, b) {
      CompareTieIffSameKey(o, a, b);
    }
  }

  /** No pair of books is out of order under `o`. */
  ghost predicate Sorted(s: seq<Book>, o: Order) {
    forall i, j :: 0 <= i < j < |s| ==> Compare(o, s[i], s[j]) <= 0
  }

  /** The result of sorting: a permutation of the input, in order. */
  function StableSort(s: seq<Book>, o: Order): (r: seq<Book>)
    ensures |r| == |s|
    ensures multiset(r) == multiset(s)
    ensures Sorted(r, o)
  {
    BeforeIsTotalPreorder(o);
    SortBySorted(s, Before(o));
    var r := SortBy(s, Before(o));
    assert forall i, j :: 0 <= i < j < |r| ==> Before(o)(r[i], r[j]);
    r
  }

  /** The books of `s` whose key under `o` is `k`, in order: one class of mutually tied books. */
  function Tied(s: seq<Book>, o: Order, k: seq<int>): (r: seq<Book>)
    ensures forall i :: 0 <= i < |r| ==> Key(o, r[i]) == k
  {
    var r := TiedBy(s, KeyOf(o), k);
    assert forall i :: 0 <= i < |r| ==> KeyOf(o)(r[i]) == k;
    r
  }

  /** Sorting keeps every class of tied books in input order: the sort is stable. */
  lemma SortStable(s: seq<Book>, o: Order, k: seq<int>)
    ensures Tied(StableSort(s, o), o, k) == Tied(s, o, k)
  {
    KeyTiesMayPrecede(o);
    SortByStable(s, Before(o), KeyOf(o), k);
  }

  lemma {:induction false} TiedHasMember(s: seq<Book>, o: Order, k: seq<int>)
    requires |Tied(s, o, k)| > 0
    ensures exists j :: 0 <= j < |s| && Key(o, s[j]) == k
  {
    if Key(o, s[0]) != k {
      TiedHasMember(s[1..], o, k);
      var j :| 0 <= j < |s[1..]| && Key(o, s[1..][j]) == k;
      assert Key(o, s[j + 1]) == k;
    }
  }

  /** In a sorted sequence the first book's key is no greater than any key in it. */
  lemma FirstKeyIsLeast(s: seq<Book>, o: Order, k: seq<int>)
    requires Sorted(s, o) && |Tied(s, o, k)| > 0
    ensures LexCompare(Key(o, s[0]), k) <= 0
  {
    TiedHasMember(s, o, k);
    var j :| 0 <= j < |s| && Key(o, s[j]) == k;
    CompareAgreesWithKey(o, s[0], s[j]);
    LexZeroIffEqual(Key(o, s[0]), k);
  }

  /** Two sorted sequences with the same classes of tied books are equal. */
  lemma {:induction false} SortedWithSameTiesAreEqual(r1: seq<Book>, r2: seq<Book>, o: Order)
    requires Sorted(r1, o) && Sorted(r2, o)
    requires forall k :: Tied(r1, o, k) == Tied(r2, o, k)
    ensures r1 == r2
  {
    if |r2| > 0 {
      assert Tied(r2, o, Key(o, r2[0]))[0] == r2[0];
      assert |Tied(r1, o, Key(o, r2[0]))| > 0;
    }
    if |r1| > 0 {
      var k1 := Key(o, r1[0]);
      assert Tied(r1, o, k1)[0] == r1[0];
      assert |Tied(r2, o, k1)| > 0;
      assert |r2| > 0;
      var k2 := Key(o, r2[0]);
      assert Tied(r2, o, k2)[0] == r2[0];
      assert |Tied(r1, o, k2)| > 0;
      FirstKeyIsLeast(r2, o, k1);
      FirstKeyIsLeast(r1, o, k2);
      LexAntisymmetric(k1, k2);
      LexZeroIffEqual(k1, k2);
      assert r1[0] == r2[0];
      forall k ensures Tied(r1[1..], o, k) == Tied(r2[1..], o, k) {
        var h := if Key(o, r1[0]) == k then [r1[0]] else [];
        assert Tied(r1, o, k) == h + Tied(r1[1..], o, k);
        assert Tied(r2, o, k) == h + Tied(r2[1..], o, k);
        assert (h + Tied(r1[1..], o, k))[|h|..] == Tied(r1[1..], o, k);
        assert (h + Tied(r2[1..], o, k))[|h|..] == Tied(r2[1..], o, k);
      }
      SortedWithSameTiesAreEqual(r1[1..], r2[1..], o);
      assert r1 == [r1[0]] + r1[1..] && r2 == [r2[0]] + r2[1..];
    }
  }

  /**
   * Any sorted sequence that keeps every class of tied books of `s` in input order is
   * `StableSort(s, o)`: every stable sort with the same comparator gives this result.
   */
  lemma StableSortIsUnique(s: seq<Book>, r: seq<Book>, o: Order)
    requires Sorted(r, o)
    requires forall k :: Tied(r, o, k) == Tied(s, o, k)
    ensures r == StableSort(s, o)
  {
    forall k ensures Tied(r, o, k) == Tied(StableSort(s, o), o, k) {
      SortStable(s, o, k);
    }
    SortedWithSameTiesAreEqual(r, StableSort(s, o), o);
  }

  /** Newest update first, every book with a null update time after every book with one. */
  ghost predicate NewestFirst(s: seq<Book>) {
    forall i, j :: 0 <= i < j < |s| ==>
      (s[i].updateTime.None? ==> s[j].updateTime.None?) &&
      (s[i].updateTime.Some? && s[j].updateTime.Some? ==> s[i].updateTime.value >= s[j].updateTime.value)
  }

  /** Favorite counts (null as 0) never decrease along `s`. */
  ghost predicate CountsAscending(s: seq<Book>) {
    forall i, j :: 0 <= i < j < |s| ==> FavoriteCount(s[i]) <= FavoriteCount(s[j])
  }

  /** Favorite counts (null as 0) never increase along `s`. */
  ghost predicate CountsDescending(s: seq<Book>) {
    forall i, j :: 0 <= i < j < |s| ==> FavoriteCount(s[i]) >= FavoriteCount(s[j])
  }

  lemma SortedByUpdateTime(s: seq<Book>)
    requires Sorted(s, ByUpdateTimeDesc)
    ensures NewestFirst(s)
  {
    forall i, j | 0 <= i < j < |s| ensures CompareUpdateTime(s[i].updateTime, s[j].updateTime) <= 0 {
      assert Compare(ByUpdateTimeDesc, s[i], s[j]) <= 0;
    }
  }

  /**
   * Sorted by count ascending then name: counts never decrease, and books with equal
   * counts are in case-insensitive name order.
   */
  lemma SortedByFavoriteAscThenName(s: seq<Book>)
    requires Sorted(s, ByFavoriteAscThenName)
    ensures CountsAscending(s)
    ensures forall i, j :: 0 <= i < j < |s| && FavoriteCount(s[i]) == FavoriteCount(s[j]) ==>
      CompareIgnoreCase(NameOrEmpty(s[i]), NameOrEmpty(s[j])) <= 0
  {
    forall i, j | 0 <= i < j < |s| ensures FavoriteCount(s[i]) <= FavoriteCount(s[j]) {
      assert Compare(ByFavoriteAscThenName, s[i], s[j]) <= 0;
    }
    forall i, j | 0 <= i < j < |s| && FavoriteCount(s[i]) == FavoriteCount(s[j])
      ensures CompareIgnoreCase(NameOrEmpty(s[i]), NameOrEmpty(s[j])) <= 0
    {
      assert Compare(ByFavoriteAscThenName, s[i], s[j]) <= 0;
    }
  }

  /**
   * Sorted by count descending then update time: counts never increase, and among books
   * with equal counts the newest come first and null update times last.
   */
  lemma SortedByFavoriteDescThenUpdateTime(s: seq<Book>)
    requires Sorted(s, ByFavoriteDescThenUpdateTime)
    ensures CountsDescending(s)
    ensures forall i, j :: 0 <= i < j < |s| && FavoriteCount(s[i]) == FavoriteCount(s[j]) ==>
      CompareUpdateTime(s[i].updateTime, s[j].updateTime) <= 0
  {
    forall i, j | 0 <= i < j < |s| ensures FavoriteCount(s[i]) >= FavoriteCount(s[j]) {
      assert Compare(ByFavoriteDescThenUpdateTime, s[i], s[j]) <= 0;
    }
    forall i, j | 0 <= i < j < |s| && FavoriteCount(s[i]) == FavoriteCount(s[j])
      ensures CompareUpdateTime(s[i].updateTime, s[j].updateTime) <= 0
    {
      assert Compare(ByFavoriteDescThenUpdateTime, s[i], s[j]) <= 0;
    }
  }

  lemma SortedByFavorite(s: seq<Book>, o: Order)
    requires o == ByFavoriteAsc || o == ByFavoriteDesc
    requires Sorted(s, o)
    ensures o == ByFavoriteAsc ==> CountsAscending(s)
    ensures o == ByFavoriteDesc ==> CountsDescending(s)
  {
    forall i, j | 0 <= i < j < |s|
      ensures o == ByFavoriteAsc ==> FavoriteCount(s[i]) <= FavoriteCount(s[j])
      ensures o == ByFavoriteDesc ==> FavoriteCount(s[i]) >= FavoriteCount(s[j])
    {
      assert Compare(o, s[i], s[j]) <= 0;
    }
  }

  /** The books of `s` whose favorite count (null as 0) is `c`, in order. */
  function WithCount(s: seq<Book>, c: int): (r: seq<Book>)
    ensures forall i :: 0 <= i < |r| ==> FavoriteCount(r[i]) == c
  {
    if |s| == 0 then []
    else (if FavoriteCount(s[0]) == c then [s[0]] else []) + WithCount(s[1..], c)
  }

  /** The key every book of count `c` has under a count-only order. */
  function CountKey(o: Order, c: int): seq<int> {
    if o == ByFavoriteAsc then [c] else [-c]
  }

  lemma {:induction false} WithCountIsTied(s: seq<Book>, o: Order, c: int)
    requires o == ByFavoriteAsc || o == ByFavoriteDesc
    ensures WithCount(s, c) == Tied(s, o, CountKey(o, c))
  {
    if |s| > 0 {
      WithCountIsTied(s[1..], o, c);
      assert (Key(o, s[0]) == CountKey(o, c)) == (FavoriteCount(s[0]) == c) by {
        if Key(o, s[0]) == CountKey(o, c) {
          assert Key(o, s[0])[0] == CountKey(o, c)[0];
        }
      }
    }
  }

  /** Sorting by count alone keeps the books of each count in input order. */
  lemma SortKeepsCountGroups(s: seq<Book>, o: Order, c: int)
    requires o == ByFavoriteAsc || o == ByFavoriteDesc
    ensures WithCount(StableSort(s, o), c) == WithCount(s, c)
  {
    var k := CountKey(o, c);
    WithCountIsTied(s, o, c);
    WithCountIsTied(StableSort(s, o), o, c);
    SortStable(s, o, k);
  }
}
