/**
 * The arithmetic of the scheduler's clock. Instants are in nanoseconds, delays in milliseconds, and
 * a difference of instants is truncated to milliseconds before it is subtracted from a delay.
 */
module Deadlines {
  /** Nanoseconds in a millisecond. */
  const MS := 1_000_000

  /** `duration_cast` from nanoseconds to milliseconds: towards zero. */
  function Truncated(ns: int): int {
    if ns >= 0 then ns / MS else -(-ns / MS)
  }

  /** What is left at `now` of a delay that began at `since`. */
  function TimeLeft(delay: int, since: int, now: int): int {
    delay - Truncated(now - since)
  }

  /** A scheduled action: when it was created, and its delay. */
  datatype Entry = Entry(created: int, delay: int) {
    function Deadline(): int {
      created + delay * MS
    }

    function Left(now: int): int {
      TimeLeft(delay, created, now)
    }
  }

  /** The least number of milliseconds that is no less than `ns`. */
  function Ceiling(ns: int): (ms: int)
    ensures (ms - 1) * MS < ns <= ms * MS
  {
    -(-ns / MS)
  }

  /**
   * The time left is the time to the deadline, rounded up, exactly if the clock has not gone back
   * behind the creation, or has gone back by whole milliseconds.
   */
  lemma TimeLeftIsCeiling(e: Entry, now: int)
    ensures e.Left(now) == Ceiling(e.Deadline() - now) <==> e.created <= now || (e.created - now) % MS == 0
  {
    if e.created > now {
      CeilingOfPositive(e, now);
    } else {
      CeilingAfterCreation(e, now);
    }
  }

  lemma CeilingAfterCreation(e: Entry, now: int)
    requires e.created <= now
    ensures e.Left(now) == Ceiling(e.Deadline() - now)
  {
    var elapsed := now - e.created;
    CeilingIs(e.Deadline() - now, e.delay - elapsed / MS);
  }

  lemma CeilingOfPositive(e: Entry, now: int)
    requires e.created > now
    ensures e.Left(now) == Ceiling(e.Deadline() - now) <==> (e.created - now) % MS == 0
  {
    var back := e.created - now;
    if back % MS == 0 {
      CeilingIs(e.Deadline() - now, e.delay + back / MS);
    } else {
      CeilingIs(e.Deadline() - now, e.delay + back / MS + 1);
    }
  }

  lemma CeilingIs(ns: int, ms: int)
    requires (ms - 1) * MS < ns <= ms * MS
    ensures Ceiling(ns) == ms
  {
  }

  // ----- The order of two actions -------------------------------------------------------------

  datatype Ordering = Less | Equivalent | Greater

  function Order(x: int, y: int): Ordering {
    if x == y then Equivalent else if x < y then Less else Greater
  }

  /** `operator<=>`: it reads the clock once for each side. */
  function Compare(a: Entry, b: Entry, first: int, second: int): Ordering {
    Order(a.Left(first), b.Left(second))
  }

  /** Both actions exist. */
  predicate Since(a: Entry, b: Entry, now: int) {
    a.created <= now && b.created <= now
  }

  /** At one instant the order never contradicts the deadlines; it may only miss a difference. */
  lemma OrderFollowsDeadlines(a: Entry, b: Entry, now: int)
    requires Since(a, b, now) && a.Deadline() <= b.Deadline()
    ensures a.Left(now) <= b.Left(now)
  {
    hide Truncated;
    CeilingAfterCreation(a, now);
    CeilingAfterCreation(b, now);
  }

  /** Two actions never change their strict order from one instant to another. */
  lemma NeverSwaps(a: Entry, b: Entry, now: int, later: int)
    requires Since(a, b, now) && Since(a, b, later)
    ensures !(Compare(a, b, now, now) == Less && Compare(a, b, later, later) == Greater)
  {
    hide TimeLeft;
    if a.Deadline() <= b.Deadline() {
      OrderFollowsDeadlines(a, b, later);
    } else {
      OrderFollowsDeadlines(b, a, now);
    }
  }

  /** There is an instant at which two actions less than a millisecond apart compare as equivalent. */
  lemma TieBetweenNeighbours(a: Entry, b: Entry) returns (now: int)
    requires a.Deadline() <= b.Deadline() < a.Deadline() + MS
    ensures Since(a, b, now) && Compare(a, b, now, now) == Equivalent
  {
    var n: int := Magnitude(b.Deadline()) + Magnitude(a.created) + Magnitude(b.created);
    now := b.Deadline() + n * MS;
    CeilingAfterCreation(a, now);
    CeilingAfterCreation(b, now);
    CeilingIs(b.Deadline() - now, -n);
    CeilingIs(a.Deadline() - now, -n);
  }

  function Magnitude(x: int): nat {
    if x < 0 then -x else x
  }

  /** The comparison agrees with the deadlines at every instant exactly when they are equal or a millisecond apart. */
  lemma OrderIsStableExactlyWhenApart(a: Entry, b: Entry)
    ensures (forall now :: Since(a, b, now) ==> Compare(a, b, now, now) == Order(a.Deadline(), b.Deadline()))
       <==> a.Deadline() == b.Deadline() || Magnitude(a.Deadline() - b.Deadline()) >= MS
  {
    hide TimeLeft;
    if a.Deadline() < b.Deadline() < a.Deadline() + MS {
      var now := TieBetweenNeighbours(a, b);
      assert Since(a, b, now);
    } else if b.Deadline() < a.Deadline() < b.Deadline() + MS {
      var now := TieBetweenNeighbours(b, a);
      assert Since(a, b, now);
    } else {
      forall now | Since(a, b, now) ensures Compare(a, b, now, now) == Order(a.Deadline(), b.Deadline()) {
        CeilingAfterCreation(a, now);
        CeilingAfterCreation(b, now);
      }
    }
  }

  // ----- A clock of whole milliseconds --------------------------------------------------------

  predicate Whole(ns: int) {
    ns % MS == 0
  }

  lemma LeftOnWholeClock(e: Entry, now: int)
    requires Whole(e.created) && Whole(now)
    ensures e.Left(now) * MS == e.Deadline() - now
  {
  }

  /**
   * On such a clock the comparison is that of the deadlines, except that the first deadline counts
   * as later by what passes between the two readings. With one reading it is the deadlines' order.
   */
  lemma OrderOnWholeClock(a: Entry, b: Entry, first: int, second: int)
    requires Whole(a.created) && Whole(b.created) && Whole(first) && Whole(second)
    ensures Compare(a, b, first, second) == Order(a.Deadline() + (second - first), b.Deadline())
  {
    hide TimeLeft;
    LeftOnWholeClock(a, first);
    LeftOnWholeClock(b, second);
  }

  // ----- Two readings -------------------------------------------------------------------------

  /** What the clock says when a comparison asks it for its first and for its second side. */
  datatype Reading = Reading(first: int, second: int)

  predicate Steady(at: Reading, width: nat) {
    at.first <= at.second <= at.first + width
  }

  /** Of two actions that are `width` apart, the comparison finds the first greater exactly if it is the later. */
  predicate Told(a: Entry, b: Entry, at: Reading, width: nat) {
    && (a.Deadline() + width <= b.Deadline() ==> Compare(a, b, at.first, at.second) != Greater)
    && (b.Deadline() + width <= a.Deadline() ==> Compare(a, b, at.first, at.second) == Greater)
  }

  lemma SteadyTells(a: Entry, b: Entry, at: Reading, width: nat)
    requires Since(a, b, at.first) && Steady(at, width) && width >= MS
    ensures Told(a, b, at, width)
  {
    hide Truncated;
    CeilingAfterCreation(a, at.first);
    CeilingAfterCreation(b, at.second);
  }

  /**
   * On any clock that does not go back: a comparison tells the order of all actions that are `width`
   * apart, a millisecond or more, exactly if no more than `width` passes between its two readings.
   */
  lemma TellsExactlyIfSteady(at: Reading, width: nat)
    requires at.first <= at.second && width >= MS
    ensures (forall a, b :: Since(a, b, at.first) ==> Told(a, b, at, width)) <==> Steady(at, width)
  {
    if Steady(at, width) {
      forall a, b | Since(a, b, at.first) ensures Told(a, b, at, width) {
        SteadyTells(a, b, at, width);
      }
    } else {
      var a, b := Entry(at.first + 1 - MS, 1), Entry(at.first + 1 + width - (width + 1) * MS, width + 1);
      assert Since(a, b, at.first);
      CeilingAfterCreation(a, at.first);
      CeilingAfterCreation(b, at.second);
      CeilingIs(1, 1);
      assert !Told(a, b, at, width);
    }
  }

  /** On a clock of whole milliseconds: it tells the order of all actions exactly if no more than one passes. */
  lemma WholeTellsExactlyIfSteady(at: Reading)
    requires Whole(at.first) && Whole(at.second) && at.first <= at.second
    ensures (forall a: Entry, b: Entry ::
               Whole(a.created) && Whole(b.created) && Since(a, b, at.first) ==> Told(a, b, at, 1))
       <==> Steady(at, MS)
  {
    hide Compare;
    forall a: Entry, b: Entry | Whole(a.created) && Whole(b.created) && Since(a, b, at.first)
      ensures Steady(at, MS) ==> Told(a, b, at, 1)
    {
      OrderOnWholeClock(a, b, at.first, at.second);
    }
    if !Steady(at, MS) {
      var a, b := Entry(at.first, 0), Entry(at.first, 1);
      OrderOnWholeClock(a, b, at.first, at.second);
      assert !Told(a, b, at, 1);
    }
  }
}
