/** The item-request service of the server revision: creating a request, and reading
    requests together with the items offered in answer to each. */
module ItemRequestService {
  import opened Common
  import opened Lists
  import opened Store

  /** A request as the API shows it, with the items whose request link names it. */
  datatype RequestView = RequestView(request: ItemRequest, items: seq<Item>)

  /** `itemRepository.findAllByRequestId(requestId)`, in table order. */
  function ItemsForRequest(items: seq<Item>, requestId: int): (r: seq<Item>)
    ensures forall x :: x in r <==> x in items && x.requestId == Some(requestId)
  {
    Filter(items, (x: Item) => x.requestId == Some(requestId))
  }

  /** `createItemRequest`: a null or empty description fails before the user lookup; the
      saved request belongs to the caller and is stamped with the creation instant. */
  method CreateItemRequest(db: Database, userId: int, description: Option<string>, now: int)
    returns (r: Result<ItemRequest>)
    requires db.Valid()
    modifies db
    ensures db.Valid()
    ensures db.users == old(db.users) && db.nextUserId == old(db.nextUserId)
    ensures db.items == old(db.items) && db.bookings == old(db.bookings)
    ensures db.comments == old(db.comments)
    ensures Blank(description) ==> r == Err(ItemRequestException)
    ensures !Blank(description) && userId !in db.users ==> r == Err(UserNotFoundException)
    ensures r.Ok? <==> !Blank(description) && userId in db.users
    ensures r.Err? ==> db.requests == old(db.requests)
    ensures r.Ok? ==>
              && r.value == ItemRequest(|old(db.requests)| + 1, description.value, userId, now)
              && db.requests == old(db.requests) + [r.value]
  {
    if Blank(description) {
      return Err(ItemRequestException);
    }
    if userId !in db.users {
      return Err(UserNotFoundException);
    }
    var request := ItemRequest(|db.requests| + 1, description.value, userId, now);
    db.requests := db.requests + [request];
    r := Ok(request);
  }

  /** `v` carries exactly the items whose request link names its request. */
  ghost predicate Carries(v: RequestView, items: seq<Item>)
  {
    forall x :: x in v.items <==> x in items && x.requestId == Some(v.request.id)
  }

  /** The loop that attaches to every request the items offered for it. */
  method AttachItems(requests: seq<ItemRequest>, items: seq<Item>) returns (views: seq<RequestView>)
    ensures |views| == |requests|
    ensures forall k :: 0 <= k < |views| ==> views[k].request == requests[k]
    ensures forall v :: v in views ==> Carries(v, items)
  {
    views := [];
    var i := 0;
    while i < |requests|
      invariant 0 <= i <= |requests|
      invariant |views| == i
      invariant forall k :: 0 <= k < i ==>
                  views[k] == RequestView(requests[k], ItemsForRequest(items, requests[k].id))
    {
      views := views + [RequestView(requests[i], ItemsForRequest(items, requests[i].id))];
      i := i + 1;
    }
  }

  /** Views built one per request, in order, hold the same requests. */
  lemma ViewsMatchRequests(requests: seq<ItemRequest>, views: seq<RequestView>)
    requires |views| == |requests|
    requires forall k :: 0 <= k < |views| ==> views[k].request == requests[k]
    ensures forall q :: q in requests ==> exists v :: v in views && v.request == q
    ensures forall v :: v in views ==> v.request in requests
  {
    forall q | q in requests
      ensures exists v :: v in views && v.request == q
    {
      var k :| 0 <= k < |requests| && requests[k] == q;
      assert views[k] in views;
    }
    forall v | v in views
      ensures v.request in requests
    {
      var k :| 0 <= k < |views| && views[k] == v;
    }
  }

  /** Creation instant, the ordering key of the requester's own list. */
  function CreatedOf(q: ItemRequest): int
  {
    q.created
  }

  /** The stored requests of one requester, in table order. */
  function ByRequester(requests: seq<ItemRequest>, userId: int): (r: seq<ItemRequest>)
    ensures forall q :: q in r <==> q in requests && q.requesterId == userId
  {
    Filter(requests, (q: ItemRequest) => q.requesterId == userId)
  }

  /** `findAllByRequesterIdOrderByCreatedDesc(userId)`: the caller's requests, newest first,
      each as often as it is stored. */
  function OwnRequests(requests: seq<ItemRequest>, userId: int): (r: seq<ItemRequest>)
    ensures SortedDesc(r, CreatedOf)
    ensures multiset(r) == multiset(ByRequester(requests, userId))
    ensures forall q :: q in r <==> q in requests && q.requesterId == userId
  {
    var r := SortDesc(ByRequester(requests, userId), CreatedOf);
    assert forall q :: q in r <==> q in multiset(ByRequester(requests, userId));
    r
  }

  /** `getOwnItemRequests`: an unknown user fails; otherwise the caller's requests, each as
      often as it is stored, newest first, each with its items. */
  method GetOwnItemRequests(users: map<int, User>, requests: seq<ItemRequest>, items: seq<Item>,
                            userId: int) returns (r: Result<seq<RequestView>>)
    ensures r.Err? <==> userId !in users
    ensures r.Err? ==> r.error == UserNotFoundException
    ensures r.Ok? ==>
              && (forall v :: v in r.value ==> v.request in requests && v.request.requesterId == userId)
              && (forall q :: q in requests && q.requesterId == userId ==>
                    exists v :: v in r.value && v.request == q)
              && (forall i, j :: 0 <= i < j < |r.value| ==>
                    r.value[i].request.created >= r.value[j].request.created)
              && (forall v :: v in r.value ==> Carries(v, items))
    ensures r.Ok? ==> multiset(RequestsOfViews(r.value)) == multiset(ByRequester(requests, userId))
  {
    if userId !in users {
      return Err(UserNotFoundException);
    }
    var own := OwnRequests(requests, userId);
    var views := AttachItems(own, items);
    OwnViewsCover(requests, userId, own, views);
    r := Ok(views);
  }

  /** The requests the views carry, in view order. */
  function RequestsOfViews(views: seq<RequestView>): (r: seq<ItemRequest>)
    ensures |r| == |views|
    ensures forall k :: 0 <= k < |r| ==> r[k] == views[k].request
  {
    seq(|views|, k requires 0 <= k < |views| => views[k].request)
  }

  /** Views built one per request of the requester's newest-first list hold exactly the
      requester's requests, newest first. */
  lemma OwnViewsCover(requests: seq<ItemRequest>, userId: int, own: seq<ItemRequest>,
                      views: seq<RequestView>)
    requires forall q :: q in own <==> q in requests && q.requesterId == userId
    requires multiset(own) == multiset(ByRequester(requests, userId))
    requires SortedDesc(own, CreatedOf)
    requires |views| == |own|
    requires forall k :: 0 <= k < |views| ==> views[k].request == own[k]
    ensures multiset(RequestsOfViews(views)) == multiset(ByRequester(requests, userId))
    ensures forall v :: v in views ==> v.request in requests && v.request.requesterId == userId
    ensures forall q :: q in requests && q.requesterId == userId ==>
              exists v :: v in views && v.request == q
    ensures forall i, j :: 0 <= i < j < |views| ==>
              views[i].request.created >= views[j].request.created
  {
    ViewsMatchRequests(own, views);
    assert RequestsOfViews(views) == own;
    forall i, j | 0 <= i < j < |views|
      ensures views[i].request.created >= views[j].request.created
    {
      assert CreatedOf(own[i]) >= CreatedOf(own[j]);
    }
  }

  /** `findAllByRequesterIdNot(userId, pageable)` before paging, in table order. */
  function OthersRequests(requests: seq<ItemRequest>, userId: int): (r: seq<ItemRequest>)
    ensures forall q :: q in r <==> q in requests && q.requesterId != userId
  {
    Filter(requests, (q: ItemRequest) => q.requesterId != userId)
  }

  /** `getItemRequests`: an unknown user fails; otherwise one page of the other users'
      requests, each with its items; none of the caller's own requests is listed. */
  method GetItemRequests(users: map<int, User>, requests: seq<ItemRequest>, items: seq<Item>,
                         userId: int, page: nat, size: nat) returns (r: Result<seq<RequestView>>)
    ensures r.Err? <==> userId !in users
    ensures r.Err? ==> r.error == UserNotFoundException
    ensures r.Ok? ==>
              && |r.value| == |Window(OthersRequests(requests, userId), page * size, size)|
              && |r.value| <= size
              && (forall k :: 0 <= k < |r.value| ==>
                    r.value[k].request == Window(OthersRequests(requests, userId), page * size, size)[k])
              && (forall v :: v in r.value ==>
                    v.request in requests && v.request.requesterId != userId && Carries(v, items))
  {
    if userId !in users {
      return Err(UserNotFoundException);
    }
    var pageOf := Window(OthersRequests(requests, userId), page * size, size);
    var views := AttachItems(pageOf, items);
    ViewsMatchRequests(pageOf, views);
    assert forall q :: q in pageOf ==> q in OthersRequests(requests, userId);
    r := Ok(views);
  }

  /** `getItemRequestById`: an unknown user, then an unknown request, both fail with
      UserNotFoundException; otherwise the request with the items offered for it. */
  function GetItemRequestById(users: map<int, User>, requests: seq<ItemRequest>,
                              items: seq<Item>, userId: int, requestId: int)
    : (r: Result<RequestView>)
    requires RequestsKeyed(requests)
    ensures r.Err? <==> userId !in users || FindRequest(requests, requestId).None?
    ensures r.Err? ==> r.error == UserNotFoundException
    ensures r.Ok? ==> r.value.request in requests && r.value.request.id == requestId
    ensures r.Ok? ==> forall x :: x in r.value.items <==> x in items && x.requestId == Some(requestId)
  {
    if userId !in users then Err(UserNotFoundException)
    else
      var found := FindRequest(requests, requestId);
      if found.None? then Err(UserNotFoundException)
      else Ok(RequestView(found.value, ItemsForRequest(items, requestId)))
  }

  /** An item created in answer to a request shows up when that request is read back. */
  lemma AnsweredItemIsListed(users: map<int, User>, requests: seq<ItemRequest>,
                             items: seq<Item>, userId: int, x: Item)
    requires RequestsKeyed(requests)
    requires userId in users
    requires x.requestId.Some? && FindRequest(requests, x.requestId.value).Some?
    ensures GetItemRequestById(users, requests, items + [x], userId, x.requestId.value).Ok?
    ensures x in GetItemRequestById(users, requests, items + [x], userId, x.requestId.value).value.items
  {
  }
}
