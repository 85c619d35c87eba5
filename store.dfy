/** The persistence collaborator shared by the services: the entities as values and one
    database object whose tables the services change.

    Tables that no operation deletes from (items, bookings, comments, requests) are lists
    whose row i carries the generated id i + 1, so `findById` is an index and a query without
    ORDER BY returns rows in id order. Users can be deleted and are a map from id to row,
    with the next generated id kept beside it. */
module Store {
  import opened Common

  datatype User = User(id: int, name: Option<string>, email: string)

  datatype Item = Item(id: int, name: string, description: string, available: bool,
                       ownerId: int, requestId: Option<int>)

  /** Timestamps are instants on one integer clock. */
  datatype Booking = Booking(id: int, start: int, end: int, itemId: int, bookerId: int,
                             status: Status)

  datatype Comment = Comment(id: int, text: string, authorId: int, itemId: int, created: int)

  datatype ItemRequest = ItemRequest(id: int, description: string, requesterId: int, created: int)

  /** The item fields a client sends; any of them may be null. */
  datatype ItemInput = ItemInput(name: Option<string>, description: Option<string>,
                                 available: Option<bool>, requestId: Option<int>)

  ghost predicate ItemsKeyed(items: seq<Item>)
  {
    forall i :: 0 <= i < |items| ==> items[i].id == i + 1
  }

  ghost predicate BookingsKeyed(bookings: seq<Booking>)
  {
    forall i :: 0 <= i < |bookings| ==> bookings[i].id == i + 1
  }

  ghost predicate CommentsKeyed(comments: seq<Comment>)
  {
    forall i :: 0 <= i < |comments| ==> comments[i].id == i + 1
  }

  ghost predicate RequestsKeyed(requests: seq<ItemRequest>)
  {
    forall i :: 0 <= i < |requests| ==> requests[i].id == i + 1
  }

  /** `itemRepository.findById`. */
  function FindItem(items: seq<Item>, id: int): (r: Option<Item>)
    requires ItemsKeyed(items)
    ensures r.Some? ==> r.value in items && r.value.id == id
    ensures r.None? ==> forall x :: x in items ==> x.id != id
  {
    if 1 <= id <= |items| then Some(items[id - 1]) else None
  }

  /** `bookingRepository.findById`. */
  function FindBooking(bookings: seq<Booking>, id: int): (r: Option<Booking>)
    requires BookingsKeyed(bookings)
    ensures r.Some? ==> r.value in bookings && r.value.id == id
    ensures r.None? ==> forall b :: b in bookings ==> b.id != id
  {
    if 1 <= id <= |bookings| then Some(bookings[id - 1]) else None
  }

  /** `itemRequestRepository.findById`. */
  function FindRequest(requests: seq<ItemRequest>, id: int): (r: Option<ItemRequest>)
    requires RequestsKeyed(requests)
    ensures r.Some? ==> r.value in requests && r.value.id == id
    ensures r.None? ==> forall q :: q in requests ==> q.id != id
  {
    if 1 <= id <= |requests| then Some(requests[id - 1]) else None
  }

  /** The booked item's owner has the id `userId`; false for a dangling item reference,
      which `Database.Valid` rules out. */
  predicate OwnedBy(items: seq<Item>, b: Booking, userId: int)
  {
    1 <= b.itemId <= |items| && items[b.itemId - 1].ownerId == userId
  }

  class Database {
    var users: map<int, User>
    var nextUserId: int
    var items: seq<Item>
    var bookings: seq<Booking>
    var comments: seq<Comment>
    var requests: seq<ItemRequest>

    ghost predicate Valid()
      reads this
    {
      && (forall k :: k in users ==> users[k].id == k && k < nextUserId)
      && ItemsKeyed(items)
      && BookingsKeyed(bookings)
      && CommentsKeyed(comments)
      && RequestsKeyed(requests)
      && (forall i :: 0 <= i < |bookings| ==> 1 <= bookings[i].itemId <= |items|)
    }

    constructor ()
      ensures Valid()
      ensures users == map[] && nextUserId == 1
      ensures items == [] && bookings == [] && comments == [] && requests == []
    {
      users := map[];
      nextUserId := 1;
      items := [];
      bookings := [];
      comments := [];
      requests := [];
    }
  }
}
