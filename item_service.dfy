/** The item service of the server revision: create-time validation with the request-id
    sign rule, partial update, the read-time last/next approved booking annotation, the
    owner's paged item list, text search, and comment eligibility. */
module ItemService {
  import opened Common
  import opened Lists
  import opened Store
  import opened BookingService

  /** `itemChecker`: name, then description, must be neither null nor empty, then
      `available` must not be null. */
  function ItemChecker(input: ItemInput): (r: Option<Error>)
    ensures r.None? <==> !Blank(input.name) && !Blank(input.description) && input.available.Some?
    ensures r.Some? ==> r.value == ValidationException
  {
    if Blank(input.name) then Some(ValidationException)
    else if Blank(input.description) then Some(ValidationException)
    else if input.available.None? then Some(ValidationException)
    else None
  }

  /** The checks of `createItem` in their order: the fields (before the user lookup), the
      user, then the request id, which must be null or a positive id of an existing
      request; zero and negative ids fail like a missing request. */
  function CreateItemCheck(users: map<int, User>, requests: seq<ItemRequest>,
                           input: ItemInput, userId: int): (r: Option<Error>)
    requires RequestsKeyed(requests)
    ensures ItemChecker(input).Some? ==> r == ItemChecker(input)
    ensures ItemChecker(input).None? && userId !in users ==> r == Some(UserNotFoundException)
    ensures r.None? <==>
              ItemChecker(input).None? && userId in users
              && (input.requestId.None? || 1 <= input.requestId.value <= |requests|)
    ensures r == Some(ItemRequestException) <==>
              ItemChecker(input).None? && userId in users && input.requestId.Some?
              && (input.requestId.value <= 0 || FindRequest(requests, input.requestId.value).None?)
  {
    var fields := ItemChecker(input);
    if fields.Some? then fields
    else if userId !in users then Some(UserNotFoundException)
    else if input.requestId.None? then None
    else if input.requestId.value > 0 then
      if FindRequest(requests, input.requestId.value).None? then Some(ItemRequestException)
      else None
    else Some(ItemRequestException)
  }

  /** `createItem`: on success one item is appended, owned by the caller, linked to the
      request when one was named; on failure nothing changes. */
  method CreateItem(db: Database, input: ItemInput, userId: int) returns (r: Result<Item>)
    requires db.Valid()
    modifies db
    ensures db.Valid()
    ensures db.users == old(db.users) && db.nextUserId == old(db.nextUserId)
    ensures db.bookings == old(db.bookings) && db.comments == old(db.comments)
    ensures db.requests == old(db.requests)
    ensures CreateItemCheck(db.users, db.requests, input, userId).Some? ==>
              r == Err(CreateItemCheck(db.users, db.requests, input, userId).value)
              && db.items == old(db.items)
    ensures CreateItemCheck(db.users, db.requests, input, userId).None? ==>
              && r == Ok(Item(|old(db.items)| + 1, input.name.value, input.description.value,
                              input.available.value, userId, input.requestId))
              && db.items == old(db.items) + [r.value]
  {
    var fields := ItemChecker(input);
    if fields.Some? {
      return Err(fields.value);
    }
    if userId !in db.users {
      return Err(UserNotFoundException);
    }
    if input.requestId.Some? {
      if input.requestId.value > 0 {
        var request := FindRequest(db.requests, input.requestId.value);
        if request.None? {
          return Err(ItemRequestException);
        }
      } else {
        return Err(ItemRequestException);
      }
    }
    var item := Item(|db.items| + 1, input.name.value, input.description.value,
                     input.available.value, userId, input.requestId);
    db.items := db.items + [item];
    r := Ok(item);
  }

  /** The item `updateItem` saves: the stored id, the caller as owner, and each of name,
      description and availability from the input unless that field is null (or, for the
      texts, empty). The input carries no request, so the saved item has none. */
  function MergeItem(stored: Item, input: ItemInput, userId: int): (r: Item)
    ensures r.id == stored.id && r.ownerId == userId && r.requestId.None?
    ensures r.name == KeepUnlessBlank(input.name, stored.name)
    ensures r.description == KeepUnlessBlank(input.description, stored.description)
    ensures r.available == if input.available.Some? then input.available.value
                           else stored.available
  {
    var available := if input.available.None? then stored.available else input.available.value;
    Item(stored.id, KeepUnlessBlank(input.name, stored.name),
         KeepUnlessBlank(input.description, stored.description), available, userId, None)
  }

  /** Applying the same partial update twice gives the same item as applying it once. */
  lemma MergeIsIdempotent(stored: Item, input: ItemInput, userId: int)
    ensures MergeItem(MergeItem(stored, input, userId), input, userId)
            == MergeItem(stored, input, userId)
  {
  }

  /** `updateItem`: an unknown caller, then an unknown item, fail; otherwise the stored row is
      replaced by the merged item at the same position. */
  method UpdateItem(db: Database, input: ItemInput, id: int, userId: int)
    returns (r: Result<Item>)
    requires db.Valid()
    modifies db
    ensures db.Valid()
    ensures db.users == old(db.users) && db.nextUserId == old(db.nextUserId)
    ensures db.bookings == old(db.bookings) && db.comments == old(db.comments)
    ensures db.requests == old(db.requests)
    ensures userId !in db.users ==> r == Err(UserNotFoundException)
    ensures userId in db.users && FindItem(old(db.items), id).None? ==>
              r == Err(ItemNotFoundException)
    ensures r.Ok? <==> userId in db.users && 1 <= id <= |old(db.items)|
    ensures r.Ok? ==> r.value == MergeItem(old(db.items)[id - 1], input, userId)
                      && db.items == old(db.items)[id - 1 := r.value]
    ensures r.Err? ==> db.items == old(db.items)
  {
    if userId !in db.users {
      return Err(UserNotFoundException);
    }
    var stored := FindItem(db.items, id);
    if stored.None? {
      return Err(ItemNotFoundException);
    }
    var item := MergeItem(stored.value, input, userId);
    db.items := db.items[id - 1 := item];
    r := Ok(item);
  }

  /** `findBookingByItem_IdAndStatus(itemId, APPROVED)`, in table order. */
  function ApprovedOf(bookings: seq<Booking>, itemId: int): (r: seq<Booking>)
    ensures forall b :: b in r <==> b in bookings && b.itemId == itemId
                                     && b.status == Status.APPROVED
  {
    Filter(bookings, (b: Booking) => b.itemId == itemId && b.status == Status.APPROVED)
  }

  /** `findCommentsByItem_Id(itemId)`, in table order. */
  function CommentsOf(comments: seq<Comment>, itemId: int): (r: seq<Comment>)
    ensures forall c :: c in r <==> c in comments && c.itemId == itemId
  {
    Filter(comments, (c: Comment) => c.itemId == itemId)
  }

  /** `lastBooking` over `s` at `now`: a booking with the latest start strictly before now,
      absent when no start is before now. */
  ghost predicate IsLastBooking(s: seq<Booking>, now: int, r: Option<Booking>)
  {
    match r
    case None => forall b :: b in s ==> b.start >= now
    case Some(last) =>
      last in s && last.start < now
      && forall b :: b in s && b.start < now ==> b.start <= last.start
  }

  /** `nextBooking` over `s` at `now`: a booking with the earliest start strictly after now,
      absent when no start is after now. */
  ghost predicate IsNextBooking(s: seq<Booking>, now: int, r: Option<Booking>)
  {
    match r
    case None => forall b :: b in s ==> b.start <= now
    case Some(next) =>
      next in s && next.start > now
      && forall b :: b in s && b.start > now ==> b.start >= next.start
  }

  /** Negated start, so that ordering by it descending orders by start ascending. */
  function NegStartOf(b: Booking): int
  {
    -b.start
  }

  /** Sorts by start descending and takes the first booking that started before now. */
  method LastBooking(approved: seq<Booking>, now: int) returns (r: Option<Booking>)
    ensures IsLastBooking(approved, now, r)
  {
    r := None;
    var sorted := SortDesc(approved, StartOf);
    var i := 0;
    while i < |sorted|
      invariant 0 <= i <= |sorted|
      invariant r.None?
      invariant forall k :: 0 <= k < i ==> sorted[k].start >= now
    {
      if sorted[i].start < now {
        r := Some(sorted[i]);
        FirstStartedIsLast(approved, sorted, i, now);
        break;
      }
      i := i + 1;
    }
    if r.None? {
      NoneStartedIsNoLast(approved, sorted, now);
    }
  }

  /** In a start-descending permutation, the first booking that started before now is a
      last booking. */
  lemma FirstStartedIsLast(approved: seq<Booking>, sorted: seq<Booking>, i: int, now: int)
    requires multiset(sorted) == multiset(approved) && SortedDesc(sorted, StartOf)
    requires 0 <= i < |sorted| && sorted[i].start < now
    requires forall k :: 0 <= k < i ==> sorted[k].start >= now
    ensures IsLastBooking(approved, now, Some(sorted[i]))
  {
    assert sorted[i] in multiset(approved) by {
      assert sorted[i] in multiset(sorted);
    }
    forall b | b in approved && b.start < now
      ensures b.start <= sorted[i].start
    {
      assert b in multiset(sorted);
      var k :| 0 <= k < |sorted| && sorted[k] == b;
      if k > i {
        assert StartOf(sorted[i]) >= StartOf(sorted[k]);
      }
    }
  }

  /** When no booking of a permutation started before now, there is no last booking. */
  lemma NoneStartedIsNoLast(approved: seq<Booking>, sorted: seq<Booking>, now: int)
    requires multiset(sorted) == multiset(approved)
    requires forall k :: 0 <= k < |sorted| ==> sorted[k].start >= now
    ensures IsLastBooking(approved, now, None)
  {
    forall b | b in approved
      ensures b.start >= now
    {
      assert b in multiset(sorted);
      var k :| 0 <= k < |sorted| && sorted[k] == b;
    }
  }

  /** Sorts by start ascending and takes the first booking that starts after now. */
  method NextBooking(approved: seq<Booking>, now: int) returns (r: Option<Booking>)
    ensures IsNextBooking(approved, now, r)
  {
    r := None;
    var sorted := SortDesc(approved, NegStartOf);
    var i := 0;
    while i < |sorted|
      invariant 0 <= i <= |sorted|
      invariant r.None?
      invariant forall k :: 0 <= k < i ==> sorted[k].start <= now
    {
      if sorted[i].start > now {
        r := Some(sorted[i]);
        FirstUpcomingIsNext(approved, sorted, i, now);
        break;
      }
      i := i + 1;
    }
    if r.None? {
      NoneUpcomingIsNoNext(approved, sorted, now);
    }
  }

  /** In a start-ascending permutation, the first booking that starts after now is a next
      booking. */
  lemma FirstUpcomingIsNext(approved: seq<Booking>, sorted: seq<Booking>, i: int, now: int)
    requires multiset(sorted) == multiset(approved) && SortedDesc(sorted, NegStartOf)
    requires 0 <= i < |sorted| && sorted[i].start > now
    requires forall k :: 0 <= k < i ==> sorted[k].start <= now
    ensures IsNextBooking(approved, now, Some(sorted[i]))
  {
    assert sorted[i] in multiset(approved) by {
      assert sorted[i] in multiset(sorted);
    }
    forall b | b in approved && b.start > now
      ensures b.start >= sorted[i].start
    {
      assert b in multiset(sorted);
      var k :| 0 <= k < |sorted| && sorted[k] == b;
      if k > i {
        assert NegStartOf(sorted[i]) >= NegStartOf(sorted[k]);
      }
    }
  }

  /** When no booking of a permutation starts after now, there is no next booking. */
  lemma NoneUpcomingIsNoNext(approved: seq<Booking>, sorted: seq<Booking>, now: int)
    requires multiset(sorted) == multiset(approved)
    requires forall k :: 0 <= k < |sorted| ==> sorted[k].start <= now
    ensures IsNextBooking(approved, now, None)
  {
    forall b | b in approved
      ensures b.start <= now
    {
      assert b in multiset(sorted);
      var k :| 0 <= k < |sorted| && sorted[k] == b;
    }
  }

  /** An item as the API shows it, with its comments and, for its owner, the last and next
      approved bookings. */
  datatype ItemView = ItemView(item: Item, comments: seq<Comment>,
                               lastBooking: Option<Booking>, nextBooking: Option<Booking>)

  /** The view an owner gets: comments of the item, and last/next chosen among the item's
      approved bookings. */
  ghost predicate IsOwnerView(v: ItemView, bookings: seq<Booking>, comments: seq<Comment>,
                              now: int)
  {
    && v.comments == CommentsOf(comments, v.item.id)
    && IsLastBooking(ApprovedOf(bookings, v.item.id), now, v.lastBooking)
    && IsNextBooking(ApprovedOf(bookings, v.item.id), now, v.nextBooking)
  }

  /** The annotation loop shared by `getItems` and the owner branch of `getItemById`. */
  method OwnerView(item: Item, bookings: seq<Booking>, comments: seq<Comment>, now: int)
    returns (v: ItemView)
    ensures v.item == item && IsOwnerView(v, bookings, comments, now)
  {
    v := ItemView(item, CommentsOf(comments, item.id), None, None);
    var approved := ApprovedOf(bookings, item.id);
    if |approved| != 0 {
      var last := LastBooking(approved, now);
      var next := NextBooking(approved, now);
      v := v.(lastBooking := last, nextBooking := next);
    }
  }

  /** `getItemById`: an unknown item fails; the last/next bookings are attached only when the
      caller owns the item. */
  method GetItemById(items: seq<Item>, bookings: seq<Booking>, comments: seq<Comment>,
                     id: int, userId: int, now: int) returns (r: Result<ItemView>)
    requires ItemsKeyed(items)
    ensures r.Err? <==> FindItem(items, id).None?
    ensures r.Err? ==> r.error == ItemNotFoundException
    ensures r.Ok? ==> r.value.item == items[id - 1]
                      && r.value.comments == CommentsOf(comments, id)
    ensures r.Ok? && items[id - 1].ownerId == userId ==>
              IsOwnerView(r.value, bookings, comments, now)
    ensures r.Ok? && items[id - 1].ownerId != userId ==>
              r.value.lastBooking.None? && r.value.nextBooking.None?
  {
    var found := FindItem(items, id);
    if found.None? {
      return Err(ItemNotFoundException);
    }
    var item := found.value;
    if item.ownerId == userId {
      var v := OwnerView(item, bookings, comments, now);
      r := Ok(v);
    } else {
      r := Ok(ItemView(item, CommentsOf(comments, item.id), None, None));
    }
  }

  /** `itemRepository.findByOwnerId(ownerId)` before paging, in table order. */
  function ItemsOf(items: seq<Item>, ownerId: int): (r: seq<Item>)
    ensures forall x :: x in r <==> x in items && x.ownerId == ownerId
  {
    Filter(items, OwnerIs(ownerId))
  }

  /** The test that the item's owner has the caller's id. */
  function OwnerIs(ownerId: int): Item -> bool
  {
    (x: Item) => x.ownerId == ownerId
  }

  /** Negated item id, so that ordering by it descending orders by id ascending. */
  function NegItemIdOf(v: ItemView): int
  {
    -v.item.id
  }

  /** The annotation loop of `getItems`: one owner view per item, in the items' order. */
  method OwnerViews(pageItems: seq<Item>, bookings: seq<Booking>, comments: seq<Comment>,
                    now: int) returns (views: seq<ItemView>)
    ensures |views| == |pageItems|
    ensures forall k :: 0 <= k < |views| ==> views[k].item == pageItems[k]
    ensures forall v :: v in views ==> IsOwnerView(v, bookings, comments, now)
  {
    views := [];
    var i := 0;
    while i < |pageItems|
      invariant 0 <= i <= |pageItems|
      invariant |views| == i
      invariant forall k :: 0 <= k < i ==> views[k].item == pageItems[k]
      invariant forall v :: v in views ==> IsOwnerView(v, bookings, comments, now)
    {
      var v := OwnerView(pageItems[i], bookings, comments, now);
      views := views + [v];
      i := i + 1;
    }
  }

  /** Reordering the views keeps one view per item and every view's annotation. */
  lemma SortedViewsCover(pageItems: seq<Item>, views: seq<ItemView>, r: seq<ItemView>,
                         bookings: seq<Booking>, comments: seq<Comment>, now: int)
    requires |views| == |pageItems|
    requires forall k :: 0 <= k < |views| ==> views[k].item == pageItems[k]
    requires forall v :: v in views ==> IsOwnerView(v, bookings, comments, now)
    requires multiset(r) == multiset(views)
    ensures forall x :: x in pageItems ==> exists v :: v in r && v.item == x
    ensures forall v :: v in r ==> v.item in pageItems && IsOwnerView(v, bookings, comments, now)
  {
    forall x | x in pageItems
      ensures exists v :: v in r && v.item == x
    {
      var k :| 0 <= k < |pageItems| && pageItems[k] == x;
      assert views[k] in multiset(r);
    }
    forall v | v in r
      ensures v.item in pageItems && IsOwnerView(v, bookings, comments, now)
    {
      assert v in multiset(views);
      var k :| 0 <= k < |views| && views[k] == v;
      assert v.item == pageItems[k];
    }
  }

  /** Ordering by the negated id, largest first, orders by id ascending. */
  lemma AscendingById(r: seq<ItemView>)
    requires SortedDesc(r, NegItemIdOf)
    ensures forall i, j :: 0 <= i < j < |r| ==> r[i].item.id <= r[j].item.id
  {
    forall i, j | 0 <= i < j < |r|
      ensures r[i].item.id <= r[j].item.id
    {
      assert NegItemIdOf(r[i]) >= NegItemIdOf(r[j]);
    }
  }

  /** `getItems`: the page of the caller's items, each annotated for its owner, ordered by
      item id ascending. */
  method GetItems(items: seq<Item>, bookings: seq<Booking>, comments: seq<Comment>,
                  ownerId: int, page: nat, size: nat, now: int) returns (r: seq<ItemView>)
    ensures |r| == |Window(ItemsOf(items, ownerId), page * size, size)|
    ensures forall x :: x in Window(ItemsOf(items, ownerId), page * size, size) ==>
              exists v :: v in r && v.item == x
    ensures forall v :: v in r ==>
              v.item in Window(ItemsOf(items, ownerId), page * size, size)
              && v.item in items && v.item.ownerId == ownerId
              && IsOwnerView(v, bookings, comments, now)
    ensures forall i, j :: 0 <= i < j < |r| ==> r[i].item.id <= r[j].item.id
  {
    var owned := ItemsOf(items, ownerId);
    var pageItems := Window(owned, page * size, size);
    var views := OwnerViews(pageItems, bookings, comments, now);
    r := SortDesc(views, NegItemIdOf);
    PageOfOwnerViews(items, ownerId, owned, page * size, size, views, r, bookings, comments, now);
  }

  /** The facts `getItems` needs about its page, gathered in one place: every item of the
      page has a view, every view is an annotated item of the owner, and ids ascend. */
  lemma PageOfOwnerViews(items: seq<Item>, ownerId: int, owned: seq<Item>, offset: nat,
                         size: nat, views: seq<ItemView>, r: seq<ItemView>,
                         bookings: seq<Booking>, comments: seq<Comment>, now: int)
    requires forall x :: x in owned ==> x in items && x.ownerId == ownerId
    requires |views| == |Window(owned, offset, size)|
    requires forall k :: 0 <= k < |views| ==> views[k].item == Window(owned, offset, size)[k]
    requires forall v :: v in views ==> IsOwnerView(v, bookings, comments, now)
    requires multiset(r) == multiset(views) && SortedDesc(r, NegItemIdOf)
    ensures forall x :: x in Window(owned, offset, size) ==> exists v :: v in r && v.item == x
    ensures forall v :: v in r ==>
              v.item in Window(owned, offset, size)
              && v.item in items && v.item.ownerId == ownerId
              && IsOwnerView(v, bookings, comments, now)
    ensures forall i, j :: 0 <= i < j < |r| ==> r[i].item.id <= r[j].item.id
  {
    var pageItems := Window(owned, offset, size);
    SortedViewsCover(pageItems, views, r, bookings, comments, now);
    assert forall x :: x in pageItems ==> x in owned;
    AscendingById(r);
  }

  /** The repository's search condition: an available item whose upper-cased name or
      description contains the upper-cased text. */
  predicate SearchHit(x: Item, text: string)
  {
    x.available
    && (Contains(Upper(x.name), Upper(text)) || Contains(Upper(x.description), Upper(text)))
  }

  function SearchMatches(items: seq<Item>, text: string): (r: seq<Item>)
    ensures forall x :: x in r <==> x in items && SearchHit(x, text)
  {
    Filter(items, (x: Item) => SearchHit(x, text))
  }

  /** `search`: empty text gives an empty list, without a query; otherwise the requested
      page of the matching items. */
  function Search(items: seq<Item>, text: string, page: nat, size: nat): (r: seq<Item>)
    ensures text == "" ==> r == []
    ensures |r| <= size
    ensures forall x :: x in r ==> x in items && SearchHit(x, text)
    ensures text != "" ==> r == Window(SearchMatches(items, text), page * size, size)
  {
    if text == "" then []
    else
      var found := Window(SearchMatches(items, text), page * size, size);
      assert forall x :: x in found ==> x in SearchMatches(items, text);
      found
  }

  /** A booking that lets `userId` comment at `now`: theirs, approved, and already started. */
  predicate QualifiesForComment(b: Booking, userId: int, now: int)
  {
    b.bookerId == userId && b.start < now && b.status == Status.APPROVED
  }

  ghost predicate MayComment(bookings: seq<Booking>, userId: int, itemId: int, now: int)
  {
    exists b :: b in bookings && b.itemId == itemId && QualifiesForComment(b, userId, now)
  }

  /** `findBookingByItem_Id(itemId)`, in table order. */
  function BookingsOf(bookings: seq<Booking>, itemId: int): (r: seq<Booking>)
    ensures forall b :: b in r <==> b in bookings && b.itemId == itemId
  {
    Filter(bookings, (b: Booking) => b.itemId == itemId)
  }

  /** `createComment`: empty text, then a missing item, then a missing user fail; the
      comment is saved exactly when some booking of the item qualifies, and otherwise the
      call fails with UserException. */
  method CreateComment(db: Database, userId: int, itemId: int, text: string, now: int)
    returns (r: Result<Comment>)
    requires db.Valid()
    modifies db
    ensures db.Valid()
    ensures db.users == old(db.users) && db.nextUserId == old(db.nextUserId)
    ensures db.items == old(db.items) && db.bookings == old(db.bookings)
    ensures db.requests == old(db.requests)
    ensures text == "" ==> r == Err(CommentException)
    ensures text != "" && FindItem(db.items, itemId).None? ==> r == Err(ItemNotFoundException)
    ensures text != "" && FindItem(db.items, itemId).Some? && userId !in db.users ==>
              r == Err(UserNotFoundException)
    ensures r.Ok? <==>
              text != "" && FindItem(db.items, itemId).Some? && userId in db.users
              && MayComment(db.bookings, userId, itemId, now)
    ensures (text != "" && FindItem(db.items, itemId).Some? && userId in db.users
             && !MayComment(db.bookings, userId, itemId, now)) ==> r == Err(UserException)
    ensures r.Ok? ==> r.value == Comment(|old(db.comments)| + 1, text, userId, itemId, now)
                      && db.comments == old(db.comments) + [r.value]
    ensures r.Err? ==> db.comments == old(db.comments)
  {
    if text == "" {
      return Err(CommentException);
    }
    var item := FindItem(db.items, itemId);
    if item.None? {
      return Err(ItemNotFoundException);
    }
    if userId !in db.users {
      return Err(UserNotFoundException);
    }
    var ofItem := BookingsOf(db.bookings, itemId);
    var i := 0;
    while i < |ofItem|
      invariant 0 <= i <= |ofItem|
      invariant forall k :: 0 <= k < i ==> !QualifiesForComment(ofItem[k], userId, now)
      invariant db.comments == old(db.comments)
    {
      if QualifiesForComment(ofItem[i], userId, now) {
        var comment := Comment(|db.comments| + 1, text, userId, itemId, now);
        db.comments := db.comments + [comment];
        return Ok(comment);
      }
      i := i + 1;
    }
    return Err(UserException);
  }

  /** Approving a booking whose start has passed makes its booker eligible to comment on
      the item. */
  lemma ApprovalEnablesComment(items: seq<Item>, bookings: seq<Booking>, ownerId: int,
                               bookingId: int, now: int)
    requires BookingsKeyed(bookings)
    requires Decide(items, bookings, ownerId, bookingId, true).Ok?
    requires Decide(items, bookings, ownerId, bookingId, true).value.start < now
    ensures var b := Decide(items, bookings, ownerId, bookingId, true).value;
            MayComment(bookings[bookingId - 1 := b], b.bookerId, b.itemId, now)
  {
    var b := Decide(items, bookings, ownerId, bookingId, true).value;
    var after := bookings[bookingId - 1 := b];
    assert after[bookingId - 1] == b;
    assert b in after && b.itemId == b.itemId && QualifiesForComment(b, b.bookerId, now);
  }

  /** Eligibility never expires: once a qualifying booking has started, it still qualifies
      at every later instant. */
  lemma EligibilityPersists(bookings: seq<Booking>, userId: int, itemId: int, now: int,
                            later: int)
    requires MayComment(bookings, userId, itemId, now)
    requires now <= later
    ensures MayComment(bookings, userId, itemId, later)
  {
    var b :| b in bookings && b.itemId == itemId && QualifiesForComment(b, userId, now);
    assert QualifiesForComment(b, userId, later);
  }
}
