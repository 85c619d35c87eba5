/** The list queries of the earlier revision of BookingServiceImpl: the filter arrives as a
    typed State (no unknown-state failure), there is no paging, and the booker's ALL branch
    fetches the booker's rows unordered and sorts that list in place. The other branches
    ask the repository for the rows ordered by start descending. */
module LegacyBookingService {
  import opened Common
  import opened Lists
  import opened Store
  import opened BookingService

  /** The first `n` cells of `a` hold non-increasing starts. */
  ghost predicate SortedPrefix(a: array<Booking>, n: int)
    reads a
  {
    forall p, q :: 0 <= p < q < n && q < a.Length ==> a[p].start >= a[q].start
  }

  /** Exchanges two adjacent cells. */
  method SwapDown(a: array<Booking>, j: int)
    requires 0 < j < a.Length
    modifies a
    ensures a[j - 1] == old(a[j]) && a[j] == old(a[j - 1])
    ensures forall k :: 0 <= k < a.Length && k != j - 1 && k != j ==> a[k] == old(a[k])
    ensures multiset(a[..]) == multiset(old(a[..]))
  {
    a[j - 1], a[j] := a[j], a[j - 1];
  }

  /** One step of the insertion sort: moves `a[i]` left past every cell with a smaller
      start, so the first `i + 1` cells become sorted. */
  method InsertLeft(a: array<Booking>, i: int)
    requires 0 <= i < a.Length
    requires SortedPrefix(a, i)
    modifies a
    ensures SortedPrefix(a, i + 1)
    ensures multiset(a[..]) == multiset(old(a[..]))
  {
    var j := i;
    while j > 0 && a[j - 1].start < a[j].start
      invariant 0 <= j <= i
      invariant forall p, q :: 0 <= p < q <= i && p != j && q != j ==> a[p].start >= a[q].start
      invariant 0 < j < i ==> a[j - 1].start >= a[j + 1].start
      invariant forall q :: j < q <= i ==> a[j].start > a[q].start
      invariant multiset(a[..]) == multiset(old(a[..]))
    {
      SwapDown(a, j);
      j := j - 1;
    }
  }

  /** The earlier revision's in-place sort of the fetched rows by a comparator on start
      times, latest first, written as an insertion sort. */
  method SortByStartDescInPlace(a: array<Booking>)
    modifies a
    ensures SortedDesc(a[..], StartOf)
    ensures multiset(a[..]) == multiset(old(a[..]))
  {
    var i := 0;
    while i < a.Length
      invariant 0 <= i <= a.Length
      invariant SortedPrefix(a, i)
      invariant multiset(a[..]) == multiset(old(a[..]))
    {
      InsertLeft(a, i);
      i := i + 1;
    }
    assert forall p, q :: 0 <= p < q < a.Length ==> StartOf(a[..][p]) >= StartOf(a[..][q]);
  }

  /** `getBookingsOfUser` (scope Booker) and `getBookingsByItemOwner` (scope ItemOwner) of the
      earlier revision: an unknown user is the only failure; otherwise all of the caller's
      bookings the filter selects, ordered by start descending. */
  method LegacyListBookings(users: map<int, User>, items: seq<Item>, bookings: seq<Booking>,
                            scope: Scope, userId: int, st: State, now: int)
    returns (r: Result<seq<Booking>>)
    ensures r.Err? <==> userId !in users
    ensures r.Err? ==> r.error == UserNotFoundException
    ensures r.Ok? ==> SortedDesc(r.value, StartOf)
    ensures r.Ok? ==>
              multiset(r.value) == multiset(Matching(items, bookings, scope, st, userId, now))
  {
    if userId !in users {
      return Err(UserNotFoundException);
    }
    var fetched := Matching(items, bookings, scope, st, userId, now);
    if scope == Booker && st == State.ALL {
      var rows := new Booking[|fetched|](k requires 0 <= k < |fetched| => fetched[k]);
      assert rows[..] == fetched;
      SortByStartDescInPlace(rows);
      r := Ok(rows[..]);
    } else {
      r := Ok(SortDesc(fetched, StartOf));
    }
  }

  /** Both orderings agree on content: whichever branch runs, each selected booking appears
      exactly as often as in the table. */
  lemma {:induction false} LegacyListSelectsExactly(items: seq<Item>, bookings: seq<Booking>,
                                                    scope: Scope, userId: int, st: State,
                                                    now: int, result: seq<Booking>, b: Booking)
    requires multiset(result) == multiset(Matching(items, bookings, scope, st, userId, now))
    ensures b in result <==>
              b in bookings && InScope(items, scope, userId, b) && Selects(st, b, now)
  {
    assert b in result <==> b in multiset(result);
    assert b in Matching(items, bookings, scope, st, userId, now) <==>
           b in multiset(Matching(items, bookings, scope, st, userId, now));
  }
}
