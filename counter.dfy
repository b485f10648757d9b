/**
 * The favorite-count rules of `incrementFavoriteCount` and `decrementFavoriteCount`:
 * a ceiling of 1000 on increment, a floor of 0 on decrement, and a null count repaired to 0.
 */
module Counter {
  import opened Wrappers
  import opened Catalog

  /** Increment refuses at or above this count. */
  const Ceiling: int := 1000

  /** What a counter operation does to the stored count. */
  datatype Update =
    /** Return false without writing. */
    | Refused
    /** Return true without writing. */
    | Unchanged
    /** Write this count and return what the write reports. */
    | Write(count: int)

  /** Increment: a count (null as 0) below the ceiling goes up by one; otherwise refused. */
  function IncrementUpdate(count: Option<int>): (u: Update)
    ensures !u.Unchanged?
    ensures u.Refused? <==> CountOrZero(count) >= Ceiling
    ensures u.Write? ==> u.count == CountOrZero(count) + 1 && u.count <= Ceiling
  {
    var current := CountOrZero(count);
    if current >= Ceiling then Refused else Write(current + 1)
  }

  /** Decrement: null is repaired to 0, a positive count goes down by one, any other count stays. */
  function DecrementUpdate(count: Option<int>): (u: Update)
    ensures !u.Refused?
    ensures u.Write? ==> 0 <= u.count
    ensures u.Write? <==> count.None? || count.value > 0
    ensures u.Write? && count.Some? ==> u.count == count.value - 1
    ensures count.None? ==> u == Write(0)
  {
    if count.None? then Write(0)
    else if count.value > 0 then Write(count.value - 1)
    else Unchanged
  }

  /** The stored count after an update whose write succeeded. */
  function Apply(count: Option<int>, u: Update): Option<int> {
    if u.Write? then Some(u.count) else count
  }

  /** The count after `n` successful increments. */
  function Increments(count: Option<int>, n: nat): Option<int>
    decreases n
  {
    if n == 0 then count else Increments(Apply(count, IncrementUpdate(count)), n - 1)
  }

  /** The count after `n` successful decrements. */
  function Decrements(count: Option<int>, n: nat): Option<int>
    decreases n
  {
    if n == 0 then count else Decrements(Apply(count, DecrementUpdate(count)), n - 1)
  }

  /** A count in [0, 1000] stays in [0, 1000] under either operation. */
  lemma UpdatesKeepRange(count: Option<int>)
    requires count.Some? ==> 0 <= count.value <= Ceiling
    ensures var c := Apply(count, IncrementUpdate(count)); c.Some? && 0 <= c.value <= Ceiling
    ensures var c := Apply(count, DecrementUpdate(count)); c.Some? && 0 <= c.value <= Ceiling
  {
  }

  /** Incrementing at 999 stores 1000; incrementing at 1000 is refused. */
  lemma CeilingBoundary()
    ensures IncrementUpdate(Some(999)) == Write(1000)
    ensures IncrementUpdate(Some(Ceiling)) == Refused
  {
  }

  /** Below the ceiling, a decrement undoes an increment. */
  lemma DecrementUndoesIncrement(c: int)
    requires 0 <= c < Ceiling
    ensures Apply(Apply(Some(c), IncrementUpdate(Some(c))), DecrementUpdate(Apply(Some(c), IncrementUpdate(Some(c))))) == Some(c)
  {
  }

  /** Above the floor, an increment undoes a decrement. */
  lemma IncrementUndoesDecrement(c: int)
    requires 0 < c <= Ceiling
    ensures Apply(Apply(Some(c), DecrementUpdate(Some(c))), IncrementUpdate(Apply(Some(c), DecrementUpdate(Some(c))))) == Some(c)
  {
  }

  /** Repeated increments from a count in [0, 1000] saturate at the ceiling. */
  lemma {:induction false} IncrementsSaturate(c: int, n: nat)
    requires 0 <= c <= Ceiling
    ensures Increments(Some(c), n) == Some(if c + n <= Ceiling then c + n else Ceiling)
    decreases n
  {
    if n > 0 {
      if c < Ceiling {
        IncrementsSaturate(c + 1, n - 1);
      } else {
        IncrementsSaturate(c, n - 1);
      }
    }
  }

  /** Repeated decrements from a non-negative count stop at 0: decrementing at 0 is idempotent. */
  lemma {:induction false} DecrementsStopAtZero(c: int, n: nat)
    requires 0 <= c
    ensures Decrements(Some(c), n) == Some(if c - n >= 0 then c - n else 0)
    decreases n
  {
    if n > 0 {
      if c > 0 {
        DecrementsStopAtZero(c - 1, n - 1);
      } else {
        DecrementsStopAtZero(c, n - 1);
      }
    }
  }

  /** One or more decrements of a null count leave 0. */
  lemma DecrementsRepairNull(n: nat)
    requires n >= 1
    ensures Decrements(None, n) == Some(0)
  {
    DecrementsStopAtZero(0, n - 1);
  }
}
