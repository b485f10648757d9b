/**
 * The manual pager of `advancedSearch` and `searchAndSortByFavoriteCount`: start and end
 * indexes computed in 32-bit `int` arithmetic, a clamp for pages past the end, and
 * `subList`, which throws for a negative start index.
 */
module Paging {
  import opened Wrappers
  import opened JavaInt

  /** Where a page past the end is moved to. */
  datatype ClampPolicy =
    /** `advancedSearch`: the start becomes `max(0, total - size)`. */
    | ToLastPage
    /** `searchAndSortByFavoriteCount`: the start becomes 0. */
    | ToFirstPage

  /** A page of results with the number of the page, its size and the count of all matches. */
  datatype Page<T> = Page(records: seq<T>, current: int, size: int, total: int)

  /**
   * The current page a MyBatis-Plus `Page(current, size, total)` reports: the constructor
   * stores `current` only when it is greater than 1 and otherwise keeps its default of 1.
   */
  function CurrentPage(page: int): (r: int)
    ensures r >= 1
    ensures page >= 1 ==> r == page
    ensures page < 1 ==> r == 1
  {
    if page > 1 then page else 1
  }

  /** `fromIndex` after the clamp. */
  function StartIndex(page: Int32, size: Int32, total: Int32, policy: ClampPolicy): Int32 {
    var from := Wrap(Wrap(page - 1) * size);
    if from >= total then
      match policy
      case ToLastPage => Max(0, Wrap(total - size))
      case ToFirstPage => 0
    else from
  }

  /** `toIndex = Math.min(fromIndex + size, total)`. */
  function EndIndex(from: Int32, size: Int32, total: Int32): Int32 {
    Min(Wrap(from + size), total)
  }

  /** `records` is the slice of `items` that starts at `from`. */
  ghost predicate IsSliceAt<T>(items: seq<T>, records: seq<T>, from: int) {
    0 <= from && from + |records| <= |items| && records == items[from..from + |records|]
  }

  /**
   * One page of `items`: the slice `[from, to)` when `from < to`, else no records; the
   * page always reports the requested page and size and the number of items.
   */
  function Paginate<T>(items: seq<T>, page: Int32, size: Int32, policy: ClampPolicy): (r: Result<Page<T>>)
    requires |items| <= MaxInt
    ensures r.Success? ==> r.value.current == CurrentPage(page) && r.value.size == size && r.value.total == |items|
    ensures r.Success? ==> |r.value.records| <= Max(0, size)
    ensures r.Success? ==> exists from :: IsSliceAt(items, r.value.records, from)
  {
    var total := |items|;
    var from := StartIndex(page, size, total, policy);
    var to := EndIndex(from, size, total);
    if from < to then
      if from < 0 then Failure(IndexOutOfBounds)
      else
        assert IsSliceAt(items, items[from..to], from);
        Success(Page(items[from..to], CurrentPage(page), size, total))
    else
      assert IsSliceAt(items, [], 0);
      Success(Page([], CurrentPage(page), size, total))
  }

  lemma ProductFacts(page: int, size: int)
    requires 1 <= page && 1 <= size
    ensures 0 <= (page - 1) * size <= page * size
    ensures (page - 1) * size + size == page * size
  {
  }

  /** A page that starts inside the items is the slice `[(page-1)*size, min(page*size, total))`, under either policy. */
  lemma PageInRange<T>(items: seq<T>, page: Int32, size: Int32, policy: ClampPolicy)
    requires |items| <= MaxInt
    requires 1 <= page && 1 <= size && page * size <= MaxInt
    requires (page - 1) * size < |items|
    ensures Paginate(items, page, size, policy) ==
      Success(Page(items[(page - 1) * size..Min(page * size, |items|)], page, size, |items|))
  {
    var from := (page - 1) * size;
    ProductFacts(page, size);
    assert Wrap(page - 1) == page - 1;
    assert Wrap(Wrap(page - 1) * size) == from;
    assert StartIndex(page, size, |items|, policy) == from;
    assert Wrap(from + size) == page * size;
    assert EndIndex(from, size, |items|) == Min(page * size, |items|);
  }

  /** `advancedSearch` answers a page past the end with the last `min(size, total)` items. */
  lemma PagePastEndShowsLastItems<T>(items: seq<T>, page: Int32, size: Int32)
    requires |items| <= MaxInt
    requires 1 <= page && 1 <= size && (page - 1) * size <= MaxInt
    requires (page - 1) * size >= |items|
    ensures Paginate(items, page, size, ToLastPage) ==
      Success(Page(items[|items| - Min(size, |items|)..], page, size, |items|))
  {
    ProductFacts(page, size);
    var total := |items|;
    assert Wrap(Wrap(page - 1) * size) == (page - 1) * size;
    var from := Max(0, total - size);
    assert Wrap(total - size) == total - size;
    assert StartIndex(page, size, total, ToLastPage) == from;
    assert Wrap(from + size) == from + size;
    assert EndIndex(from, size, total) == total;
    assert from == total - Min(size, total);
    if from < total {
      assert items[from..total] == items[total - Min(size, total)..];
      assert Paginate(items, page, size, ToLastPage) == Success(Page(items[from..total], page, size, total));
    } else {
      assert Paginate(items, page, size, ToLastPage) == Success(Page([], page, size, total));
    }
  }

  /** `searchAndSortByFavoriteCount` answers a page past the end with the first `min(size, total)` items. */
  lemma PagePastEndShowsFirstItems<T>(items: seq<T>, page: Int32, size: Int32)
    requires |items| <= MaxInt
    requires 1 <= page && 1 <= size && (page - 1) * size <= MaxInt
    requires (page - 1) * size >= |items|
    ensures Paginate(items, page, size, ToFirstPage) ==
      Success(Page(items[..Min(size, |items|)], page, size, |items|))
  {
    ProductFacts(page, size);
    var total := |items|;
    assert Wrap(Wrap(page - 1) * size) == (page - 1) * size;
    assert StartIndex(page, size, total, ToFirstPage) == 0;
    assert EndIndex(0, size, total) == Min(size, total);
  }

  /**
   * For a page of at least 1 and a size of at least 1 that do not overflow, the start index
   * after the clamp lies in `[0, total]` and the page holds `min(size, total - start)` items.
   */
  lemma PageLength<T>(items: seq<T>, page: Int32, size: Int32, policy: ClampPolicy)
    requires |items| <= MaxInt
    requires 1 <= page && 1 <= size && page * size <= MaxInt
    ensures 0 <= StartIndex(page, size, |items|, policy) <= |items|
    ensures Paginate(items, page, size, policy).Success?
    ensures |Paginate(items, page, size, policy).value.records| ==
      Min(size, |items| - StartIndex(page, size, |items|, policy))
  {
    ProductFacts(page, size);
    var total, from, next := |items|, (page - 1) * size, page * size;
    assert Wrap(Wrap(page - 1) * size) == from;
    if from < total {
      PageInRange(items, page, size, policy);
      assert StartIndex(page, size, total, policy) == from;
      assert |items[from..Min(next, total)]| == Min(size, total - from);
    } else if policy == ToLastPage {
      PagePastEndShowsLastItems(items, page, size);
      assert Wrap(total - size) == total - size;
      assert StartIndex(page, size, total, policy) == total - Min(size, total);
    } else {
      PagePastEndShowsFirstItems(items, page, size);
      assert StartIndex(page, size, total, policy) == 0;
    }
  }

  /** A page number of 0 or less makes the start index negative, and `subList` throws. */
  lemma NonPositivePageFails<T>(items: seq<T>, page: Int32, size: Int32, policy: ClampPolicy)
    requires |items| <= MaxInt
    requires MinInt < page <= 0 && 1 <= size && MinInt <= (page - 1) * size
    ensures Paginate(items, page, size, policy) == Failure(IndexOutOfBounds)
  {
    assert (page - 1) * size <= -size;
  }

  /** A size of 0 gives an empty page under either policy. */
  lemma ZeroSizeGivesEmptyPage<T>(items: seq<T>, page: Int32, policy: ClampPolicy)
    requires |items| <= MaxInt
    ensures Paginate(items, page, 0, policy) == Success(Page([], CurrentPage(page), 0, |items|))
  {
  }

  /**
   * `(page - 1) * size` wraps around: page 65537 of size 32768 starts at -2^31, which is
   * not past the end, so `subList` throws instead of the clamp applying.
   */
  lemma OverflowingPageFails<T>(items: seq<T>, policy: ClampPolicy)
    requires |items| <= MaxInt
    ensures Paginate(items, 65537, 32768, policy) == Failure(IndexOutOfBounds)
  {
    assert Wrap(65536 * 32768) == MinInt;
  }

  /**
   * The paging step as both searches write it: compute the start index in 32-bit
   * arithmetic, clamp it by the policy when it is at or past the end, take `subList`.
   */
  method PageOf<T>(items: seq<T>, page: Int32, size: Int32, policy: ClampPolicy) returns (r: Result<Page<T>>)
    requires |items| <= MaxInt
    ensures r == Paginate(items, page, size, policy)
  {
    var total := |items|;
    var fromIndex := Wrap(Wrap(page - 1) * size);
    if fromIndex >= total {
      if policy == ToLastPage {
        fromIndex := Max(0, Wrap(total - size));
      } else {
        fromIndex := 0;
      }
    }
    assert fromIndex == StartIndex(page, size, total, policy);
    var toIndex := Min(Wrap(fromIndex + size), total);
    assert toIndex == EndIndex(fromIndex, size, total);
    if fromIndex < toIndex {
      if fromIndex < 0 {
        return Failure(IndexOutOfBounds);
      }
      r := Success(Page(items[fromIndex..toIndex], CurrentPage(page), size, total));
    } else {
      r := Success(Page([], CurrentPage(page), size, total));
    }
  }
}
