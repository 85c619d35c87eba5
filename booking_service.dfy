/** The booking lifecycle engine (server revision of BookingServiceImpl): the window check,
    creation in WAITING, the one-shot owner decision, visibility of a booking, and the
    state-filtered, start-descending, paged list queries for bookers and item owners.

    The earlier revision's `timeChecker`, `createBooking`, `changeStatus` and `getBooking`
    are the same code and are modelled here too; its list queries are in
    LegacyBookingService. */
module BookingService {
  import opened Common
  import opened Lists
  import opened Store

  /** The body of POST /bookings: the item and a window whose bounds may be null. */
  datatype BookingRequest = BookingRequest(itemId: int, start: Option<int>, end: Option<int>)

  /** `timeChecker`: None when the window is acceptable at `now`, otherwise the first of its
      four checks that fails. Only TimeException can come out of it. */
  function TimeCheck(req: BookingRequest, now: int): (r: Option<Error>)
    ensures r.None? <==> req.start.Some? && req.end.Some? && now <= req.start.value < req.end.value
    ensures r.Some? ==> r.value.TimeException?
    ensures req.start.None? || req.end.None? ==> r == Some(TimeException(MissingBound))
    ensures r == Some(TimeException(StartEqualsEnd)) <==>
              req.start.Some? && req.end.Some? && req.start.value == req.end.value
    ensures r == Some(TimeException(StartInPast)) <==>
              req.start.Some? && req.end.Some? && req.start.value != req.end.value
              && req.start.value < now
    ensures r == Some(TimeException(StartAfterEnd)) <==>
              req.start.Some? && req.end.Some? && now <= req.start.value
              && req.start.value > req.end.value
  {
    if req.start.None? || req.end.None? then Some(TimeException(MissingBound))
    else if req.start.value == req.end.value then Some(TimeException(StartEqualsEnd))
    else if req.start.value < now then Some(TimeException(StartInPast))
    else if req.start.value > req.end.value then Some(TimeException(StartAfterEnd))
    else None
  }

  /** Everything `createBooking` demands: a valid window, an existing user and item, an
      available item, and a caller who is not its owner. */
  ghost predicate MayBook(users: map<int, User>, items: seq<Item>, userId: int,
                          req: BookingRequest, now: int)
  {
    && req.start.Some? && req.end.Some? && now <= req.start.value < req.end.value
    && userId in users
    && 1 <= req.itemId <= |items|
    && items[req.itemId - 1].available
    && items[req.itemId - 1].ownerId != userId
  }

  /** The checks of `createBooking` in their order: the window (before any lookup), the
      user, the item, its availability, and that the caller does not own it. An owner
      booking their own item gets UserNotFoundException. */
  function CreateCheck(users: map<int, User>, items: seq<Item>, userId: int,
                       req: BookingRequest, now: int): (r: Option<Error>)
    requires ItemsKeyed(items)
    ensures r.None? <==> MayBook(users, items, userId, req, now)
    ensures TimeCheck(req, now).Some? ==> r == TimeCheck(req, now)
    ensures r == Some(UserNotFoundException) <==>
              TimeCheck(req, now).None? &&
              (userId !in users ||
               (1 <= req.itemId <= |items| && items[req.itemId - 1].available
                && items[req.itemId - 1].ownerId == userId))
    ensures r == Some(ItemNotFoundException) <==>
              TimeCheck(req, now).None? && userId in users && FindItem(items, req.itemId).None?
    ensures r == Some(ItemNotAvailable) <==>
              TimeCheck(req, now).None? && userId in users && 1 <= req.itemId <= |items|
              && !items[req.itemId - 1].available
  {
    var window := TimeCheck(req, now);
    if window.Some? then window
    else if userId !in users then Some(UserNotFoundException)
    else
      match FindItem(items, req.itemId)
      case None => Some(ItemNotFoundException)
      case Some(item) =>
        if !item.available then Some(ItemNotAvailable)
        else if item.ownerId == userId then Some(UserNotFoundException)
        else None
  }

  /** `createBooking`: on success exactly one booking is appended, in WAITING, booked by the
      caller for the requested item and window; nothing else in the database changes (the
      item stays available). On failure nothing changes. */
  method CreateBooking(db: Database, userId: int, req: BookingRequest, now: int)
    returns (r: Result<Booking>)
    requires db.Valid()
    modifies db
    ensures db.Valid()
    ensures db.users == old(db.users) && db.nextUserId == old(db.nextUserId)
    ensures db.items == old(db.items) && db.comments == old(db.comments)
    ensures db.requests == old(db.requests)
    ensures CreateCheck(db.users, db.items, userId, req, now).Some? ==>
              r == Err(CreateCheck(db.users, db.items, userId, req, now).value)
              && db.bookings == old(db.bookings)
    ensures CreateCheck(db.users, db.items, userId, req, now).None? ==>
              && r == Ok(Booking(|old(db.bookings)| + 1, req.start.value, req.end.value,
                                 req.itemId, userId, Status.WAITING))
              && db.bookings == old(db.bookings) + [r.value]
    ensures r.Ok? ==> now <= r.value.start < r.value.end
  {
    var window := TimeCheck(req, now);
    if window.Some? {
      return Err(window.value);
    }
    if userId !in db.users {
      return Err(UserNotFoundException);
    }
    var item := FindItem(db.items, req.itemId);
    if item.None? {
      return Err(ItemNotFoundException);
    }
    if !item.value.available {
      return Err(ItemNotAvailable);
    }
    if item.value.ownerId == userId {
      return Err(UserNotFoundException);
    }
    var booking := Booking(|db.bookings| + 1, req.start.value, req.end.value, req.itemId,
                           userId, Status.WAITING);
    db.bookings := db.bookings + [booking];
    r := Ok(booking);
  }

  /** `changeStatus(userId, bookingId, approved)` as a value: the decided booking, or the
      first failed check (a missing booking, a caller who is not the item owner even when
      they are the booker, a booking no longer WAITING). Only the status changes. */
  function Decide(items: seq<Item>, bookings: seq<Booking>, userId: int, bookingId: int,
                  approved: bool): (r: Result<Booking>)
    requires BookingsKeyed(bookings)
    ensures r.Ok? <==>
              1 <= bookingId <= |bookings| && OwnedBy(items, bookings[bookingId - 1], userId)
              && bookings[bookingId - 1].status == Status.WAITING
    ensures r.Ok? ==>
              r.value == bookings[bookingId - 1].(status :=
                                                    if approved then Status.APPROVED
                                                    else Status.REJECTED)
    ensures !(1 <= bookingId <= |bookings|) ==> r == Err(BookingNotFoundException)
    ensures (1 <= bookingId <= |bookings| && !OwnedBy(items, bookings[bookingId - 1], userId))
              ==> r == Err(UserNotFoundException)
    ensures (1 <= bookingId <= |bookings| && OwnedBy(items, bookings[bookingId - 1], userId)
             && bookings[bookingId - 1].status != Status.WAITING)
              ==> r == Err(BookingException)
  {
    match FindBooking(bookings, bookingId)
    case None => Err(BookingNotFoundException)
    case Some(b) =>
      if !OwnedBy(items, b, userId) then Err(UserNotFoundException)
      else if b.status != Status.WAITING then Err(BookingException)
      else Ok(b.(status := if approved then Status.APPROVED else Status.REJECTED))
  }

  /** `changeStatus`: the booking row is replaced by the decided one; on failure nothing
      changes. */
  method ChangeStatus(db: Database, userId: int, bookingId: int, approved: bool)
    returns (r: Result<Booking>)
    requires db.Valid()
    modifies db
    ensures db.Valid()
    ensures r == Decide(db.items, old(db.bookings), userId, bookingId, approved)
    ensures db.bookings == if r.Ok? then old(db.bookings)[bookingId - 1 := r.value]
                           else old(db.bookings)
    ensures db.users == old(db.users) && db.nextUserId == old(db.nextUserId)
    ensures db.items == old(db.items) && db.comments == old(db.comments)
    ensures db.requests == old(db.requests)
  {
    var found := FindBooking(db.bookings, bookingId);
    if found.None? {
      return Err(BookingNotFoundException);
    }
    var booking := found.value;
    if !OwnedBy(db.items, booking, userId) {
      return Err(UserNotFoundException);
    }
    if booking.status != Status.WAITING {
      return Err(BookingException);
    }
    if approved {
      booking := booking.(status := Status.APPROVED);
    } else {
      booking := booking.(status := Status.REJECTED);
    }
    db.bookings := db.bookings[bookingId - 1 := booking];
    r := Ok(booking);
  }

  /** A decision is final: once `Decide` has succeeded and its result is stored, every later
      decision on that booking fails, and for the owner it fails with BookingException. */
  lemma DecisionIsOneShot(items: seq<Item>, bookings: seq<Booking>, userId: int,
                          bookingId: int, approved: bool, laterUser: int, laterApproved: bool)
    requires BookingsKeyed(bookings)
    requires Decide(items, bookings, userId, bookingId, approved).Ok?
    ensures var after := bookings[bookingId - 1 := Decide(items, bookings, userId, bookingId,
                                                         approved).value];
            && BookingsKeyed(after)
            && Decide(items, after, laterUser, bookingId, laterApproved).Err?
            && (laterUser == userId ==>
                  Decide(items, after, laterUser, bookingId, laterApproved)
                    == Err(BookingException))
  {
    var after := bookings[bookingId - 1 := Decide(items, bookings, userId, bookingId,
                                                 approved).value];
    assert after[bookingId - 1].status != Status.WAITING;
    assert OwnedBy(items, after[bookingId - 1], userId);
  }

  /** `getBooking`: the booking with that id, visible only to its booker or to the owner of
      its item. */
  function GetBooking(items: seq<Item>, bookings: seq<Booking>, userId: int, bookingId: int)
    : (r: Result<Booking>)
    requires BookingsKeyed(bookings)
    ensures r.Ok? <==>
              1 <= bookingId <= |bookings|
              && (bookings[bookingId - 1].bookerId == userId
                  || OwnedBy(items, bookings[bookingId - 1], userId))
    ensures r.Ok? ==> r.value in bookings && r.value.id == bookingId
    ensures !(1 <= bookingId <= |bookings|) ==> r == Err(BookingNotFoundException)
    ensures 1 <= bookingId <= |bookings| && !r.Ok? ==> r == Err(UserNotFoundException)
  {
    match FindBooking(bookings, bookingId)
    case None => Err(BookingNotFoundException)
    case Some(b) =>
      if b.bookerId != userId && !OwnedBy(items, b, userId) then Err(UserNotFoundException)
      else Ok(b)
  }

  /** Which field a list query compares against the caller: the booker (GET /bookings) or
      the owner of the booked item (GET /bookings/owner). */
  datatype Scope = Booker | ItemOwner

  predicate InScope(items: seq<Item>, scope: Scope, userId: int, b: Booking)
  {
    match scope
    case Booker => b.bookerId == userId
    case ItemOwner => OwnedBy(items, b, userId)
  }

  /** The condition of each state filter, evaluated at `now`; CURRENT is an open interval. */
  predicate Selects(st: State, b: Booking, now: int)
  {
    match st
    case ALL => true
    case PAST => b.end < now
    case FUTURE => b.start > now
    case CURRENT => b.start < now && now < b.end
    case WAITING => b.status == Status.WAITING
    case REJECTED => b.status == Status.REJECTED
  }

  /** The rows a repository query of the list operations selects, in table order. */
  function Matching(items: seq<Item>, bookings: seq<Booking>, scope: Scope, st: State,
                    userId: int, now: int): (r: seq<Booking>)
    ensures forall b :: b in r <==>
              b in bookings && InScope(items, scope, userId, b) && Selects(st, b, now)
  {
    Filter(bookings, (b: Booking) => InScope(items, scope, userId, b) && Selects(st, b, now))
  }

  function StartOf(b: Booking): int
  {
    b.start
  }

  /** `getBookingsOfUser` (scope Booker) and `getBookingsByItemOwner` (scope ItemOwner):
      the state text is checked before the user; the result is the page `page` of `size`
      rows of the caller's selected bookings ordered by start descending. */
  function ListBookings(users: map<int, User>, items: seq<Item>, bookings: seq<Booking>,
                        scope: Scope, userId: int, state: string, page: nat, size: nat,
                        now: int): (r: Result<seq<Booking>>)
    ensures ParseState(state).None? ==> r == Err(StateException)
    ensures ParseState(state).Some? && userId !in users ==> r == Err(UserNotFoundException)
    ensures r.Ok? <==> ParseState(state).Some? && userId in users
    ensures r.Ok? ==> |r.value| <= size && SortedDesc(r.value, StartOf)
    ensures r.Ok? ==> forall b :: b in r.value ==>
              b in bookings && InScope(items, scope, userId, b)
              && Selects(ParseState(state).value, b, now)
    ensures r.Ok? ==>
              r.value == Window(SortDesc(Matching(items, bookings, scope,
                                                  ParseState(state).value, userId, now),
                                         StartOf), page * size, size)
  {
    match ParseState(state)
    case None => Err(StateException)
    case Some(st) =>
      if userId !in users then Err(UserNotFoundException)
      else
        var ordered := SortDesc(Matching(items, bookings, scope, st, userId, now), StartOf);
        var pageRows := Window(ordered, page * size, size);
        assert forall b :: b in pageRows ==> b in multiset(ordered);
        Ok(pageRows)
  }

  /** When all selected bookings fit on the first page, that page holds exactly them. */
  lemma FirstPageHoldsAll(users: map<int, User>, items: seq<Item>, bookings: seq<Booking>,
                          scope: Scope, userId: int, state: string, size: nat, now: int)
    requires ParseState(state).Some? && userId in users
    requires |Matching(items, bookings, scope, ParseState(state).value, userId, now)| <= size
    ensures ListBookings(users, items, bookings, scope, userId, state, 0, size, now).Ok?
    ensures multiset(ListBookings(users, items, bookings, scope, userId, state, 0, size,
                                  now).value)
            == multiset(Matching(items, bookings, scope, ParseState(state).value, userId, now))
  {
    var ordered := SortDesc(Matching(items, bookings, scope, ParseState(state).value, userId,
                                     now), StartOf);
    assert Window(ordered, 0, size) == ordered;
  }
}
