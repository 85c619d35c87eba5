/** The item service of the earlier revision. `updateItem` and `createComment` are the same
    code as in the server revision and are modelled once, in ItemService. What differs:
    `getItems` walks every item and keeps the caller's, `createItem` knows no requests,
    `getItemById` annotates by booking id instead of by time, and `search` filters the
    repository's answer down to available items. */
module LegacyItemService {
  import opened Common
  import opened Lists
  import opened Store
  import opened ItemService

  /** The items the views are about, in order. */
  function ViewedItems(views: seq<ItemView>): (r: seq<Item>)
    ensures |r| == |views| && forall k :: 0 <= k < |r| ==> r[k] == views[k].item
  {
    seq(|views|, k requires 0 <= k < |views| => views[k].item)
  }

  /** The loop of `getItems` in the earlier revision: every item is visited and the
      caller's are annotated, in table order. */
  method OwnedViews(items: seq<Item>, bookings: seq<Booking>, comments: seq<Comment>,
                    ownerId: int, now: int) returns (views: seq<ItemView>)
    ensures ViewedItems(views) == ItemsOf(items, ownerId)
    ensures forall v :: v in views ==> IsOwnerView(v, bookings, comments, now)
  {
    views := [];
    var i := 0;
    while i < |items|
      invariant 0 <= i <= |items|
      invariant ViewedItems(views) == Filter(items[..i], OwnerIs(ownerId))
      invariant forall v :: v in views ==> IsOwnerView(v, bookings, comments, now)
    {
      assert items[..i + 1] == items[..i] + [items[i]];
      FilterSnoc(items[..i], items[i], OwnerIs(ownerId));
      views := VisitItem(views, items[i], ownerId, bookings, comments, now);
      i := i + 1;
    }
    assert items[..i] == items;
  }

  /** One pass of that loop: the caller's item gets an owner view appended. */
  method VisitItem(views: seq<ItemView>, item: Item, ownerId: int, bookings: seq<Booking>,
                   comments: seq<Comment>, now: int) returns (after: seq<ItemView>)
    ensures ViewedItems(after)
            == ViewedItems(views) + if item.ownerId == ownerId then [item] else []
    ensures (forall v :: v in views ==> IsOwnerView(v, bookings, comments, now)) ==>
              (forall v :: v in after ==> IsOwnerView(v, bookings, comments, now))
  {
    after := views;
    if item.ownerId == ownerId {
      var v := OwnerView(item, bookings, comments, now);
      after := views + [v];
      assert ViewedItems(after) == ViewedItems(views) + [item];
    }
  }

  /** `getItems` of the earlier revision: only the caller's items, each annotated by the
      same last/next rule as the server revision, ordered by item id ascending. */
  method LegacyGetItems(items: seq<Item>, bookings: seq<Booking>, comments: seq<Comment>,
                        ownerId: int, now: int) returns (r: seq<ItemView>)
    ensures |r| == |ItemsOf(items, ownerId)|
    ensures forall x :: x in items && x.ownerId == ownerId ==> exists v :: v in r && v.item == x
    ensures forall v :: v in r ==>
              v.item in items && v.item.ownerId == ownerId
              && IsOwnerView(v, bookings, comments, now)
    ensures forall i, j :: 0 <= i < j < |r| ==> r[i].item.id <= r[j].item.id
  {
    var owned := ItemsOf(items, ownerId);
    var views := OwnedViews(items, bookings, comments, ownerId, now);
    assert |views| == |owned| && forall k :: 0 <= k < |views| ==> views[k].item == owned[k];
    r := SortDesc(views, NegItemIdOf);
    SortedViewsCover(owned, views, r, bookings, comments, now);
    AscendingById(r);
  }

  /** `createItem` of the earlier revision: the fields, then the user; the item is saved
      without a request link. */
  method LegacyCreateItem(db: Database, input: ItemInput, userId: int) returns (r: Result<Item>)
    requires db.Valid()
    modifies db
    ensures db.Valid()
    ensures db.users == old(db.users) && db.nextUserId == old(db.nextUserId)
    ensures db.bookings == old(db.bookings) && db.comments == old(db.comments)
    ensures db.requests == old(db.requests)
    ensures ItemChecker(input).Some? ==> r == Err(ValidationException) && db.items == old(db.items)
    ensures ItemChecker(input).None? && userId !in db.users ==>
              r == Err(UserNotFoundException) && db.items == old(db.items)
    ensures ItemChecker(input).None? && userId in db.users ==>
              && r == Ok(Item(|old(db.items)| + 1, input.name.value, input.description.value,
                              input.available.value, userId, None))
              && db.items == old(db.items) + [r.value]
  {
    var fields := ItemChecker(input);
    if fields.Some? {
      return Err(fields.value);
    }
    if userId !in db.users {
      return Err(UserNotFoundException);
    }
    var item := Item(|db.items| + 1, input.name.value, input.description.value,
                     input.available.value, userId, None);
    db.items := db.items + [item];
    r := Ok(item);
  }

  /** Negated booking id, so that ordering by it descending orders by id ascending. */
  function NegBookingIdOf(b: Booking): int
  {
    -b.id
  }

  /** `sorted` is `s` ordered by booking id ascending. */
  ghost predicate IdOrder(sorted: seq<Booking>, s: seq<Booking>)
  {
    && multiset(sorted) == multiset(s)
    && forall i, j :: 0 <= i < j < |sorted| ==> sorted[i].id <= sorted[j].id
  }

  /** `getItemById` of the earlier revision. For the owner with approved bookings, they are
      ordered by id and element 0 becomes the last booking and element 3 the next one; with
      one to three approved bookings `List.get(3)` throws. */
  function LegacyGetItemById(items: seq<Item>, bookings: seq<Booking>, comments: seq<Comment>,
                             id: int, userId: int): (r: Result<ItemView>)
    requires ItemsKeyed(items)
    ensures !(1 <= id <= |items|) ==> r == Err(ItemNotFoundException)
    ensures r == Err(IndexOutOfBoundsException) <==>
              1 <= id <= |items| && items[id - 1].ownerId == userId
              && 1 <= |ApprovedOf(bookings, id)| <= 3
    ensures r.Err? ==> r.error == ItemNotFoundException || r.error == IndexOutOfBoundsException
    ensures r.Ok? ==> 1 <= id <= |items| && r.value.item == items[id - 1]
                      && r.value.comments == CommentsOf(comments, id)
    ensures (r.Ok? && (items[id - 1].ownerId != userId || ApprovedOf(bookings, id) == [])) ==>
              r.value.lastBooking.None? && r.value.nextBooking.None?
    ensures (r.Ok? && items[id - 1].ownerId == userId && ApprovedOf(bookings, id) != []) ==>
              exists sorted :: IdOrder(sorted, ApprovedOf(bookings, id)) && |sorted| >= 4
                               && r.value.lastBooking == Some(sorted[0])
                               && r.value.nextBooking == Some(sorted[3])
    ensures (r.Ok? && r.value.lastBooking.Some?) ==>
              r.value.lastBooking.value in ApprovedOf(bookings, id)
              && forall b :: b in ApprovedOf(bookings, id) ==> r.value.lastBooking.value.id <= b.id
  {
    if !(1 <= id <= |items|) then Err(ItemNotFoundException)
    else
      var item := items[id - 1];
      var view := ItemView(item, CommentsOf(comments, item.id), None, None);
      if item.ownerId != userId then Ok(view)
      else
        var approved := ApprovedOf(bookings, item.id);
        if |approved| == 0 then Ok(view)
        else
          var sorted := SortDesc(approved, NegBookingIdOf);
          if |sorted| <= 3 then Err(IndexOutOfBoundsException)
          else
            IdSortedHead(sorted, approved);
            Ok(view.(lastBooking := Some(sorted[0]), nextBooking := Some(sorted[3])))
  }

  /** A permutation ordered by negated id, largest first, is the id order, and its head
      has the least id. */
  lemma IdSortedHead(sorted: seq<Booking>, s: seq<Booking>)
    requires multiset(sorted) == multiset(s) && SortedDesc(sorted, NegBookingIdOf)
    requires sorted != []
    ensures IdOrder(sorted, s)
    ensures sorted[0] in s && forall b :: b in s ==> sorted[0].id <= b.id
  {
    forall i, j | 0 <= i < j < |sorted|
      ensures sorted[i].id <= sorted[j].id
    {
      assert NegBookingIdOf(sorted[i]) >= NegBookingIdOf(sorted[j]);
    }
    assert sorted[0] in multiset(s) by {
      assert sorted[0] in multiset(sorted);
    }
    forall b | b in s
      ensures sorted[0].id <= b.id
    {
      assert b in multiset(sorted);
      var k :| 0 <= k < |sorted| && sorted[k] == b;
      if k > 0 {
        assert NegBookingIdOf(sorted[0]) >= NegBookingIdOf(sorted[k]);
      }
    }
  }

  /** A single approved booking of the owner's item makes `getItemById` throw, although the
      server revision returns that booking as the last one once it has started. */
  lemma LegacyGetItemByIdFailsOnOneBooking()
    ensures var items := [Item(1, "drill", "cordless", true, 1, None)];
            var bookings := [Booking(1, 5, 8, 1, 2, Status.APPROVED)];
            && LegacyGetItemById(items, bookings, [], 1, 1) == Err(IndexOutOfBoundsException)
            && IsLastBooking(ApprovedOf(bookings, 1), 10, Some(bookings[0]))
            && IsNextBooking(ApprovedOf(bookings, 1), 10, None)
  {
    var bookings := [Booking(1, 5, 8, 1, 2, Status.APPROVED)];
    assert ApprovedOf(bookings, 1) == bookings by {
      assert bookings[1..] == [];
    }
  }

  /** Availability of an item, the only condition the earlier `search` adds. */
  function IsAvailable(x: Item): bool
  {
    x.available
  }

  /** `search` of the earlier revision: empty text gives an empty list; otherwise the
      available items of the repository's answer `found`, in its order. */
  method LegacySearch(found: seq<Item>, text: string) returns (r: seq<Item>)
    ensures text == "" ==> r == []
    ensures text != "" ==> r == Filter(found, IsAvailable)
    ensures forall x :: x in r <==> text != "" && x in found && x.available
    ensures Subsequence(r, found)
  {
    r := [];
    if text == "" {
      return;
    }
    var i := 0;
    while i < |found|
      invariant 0 <= i <= |found|
      invariant r == Filter(found[..i], IsAvailable)
    {
      assert found[..i + 1] == found[..i] + [found[i]];
      FilterSnoc(found[..i], found[i], IsAvailable);
      if found[i].available {
        r := r + [found[i]];
      }
      i := i + 1;
    }
    assert found[..i] == found;
    FilterIsSubsequence(found, IsAvailable);
  }
}
