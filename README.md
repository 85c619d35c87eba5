# ShareIt booking core, modelled in Dafny

ShareIt is an item-sharing service. Users put items up for loan, other users book them for a
time window, each owner approves or rejects each booking exactly once, and a booker whose
approved booking has started may comment on the item. Users may also post requests for items
they want, and an item can be created in answer to a request. The repository holds two
revisions of the service layer. The server revision (`server/`) runs on a relational store
with paged queries. The earlier revision (`src/`) has no paging, and also has list-backed
in-memory stores for users and items.

The model is split into these modules:

- `Common` holds the shared vocabulary: optional values, the exception kinds used as error
  results, booking statuses, the six list filters and their names, blank-text tests,
  ASCII case mapping and substring search.
- `Lists` holds the order-preserving filter, the stable start-descending sort (proved sorted
  and a permutation) and the page window used by every paged query.
- `Store` holds the entities and the shared database as a class. Users are a map from id with
  an id counter. Items, bookings, comments and requests are tables in which row `i` has id
  `i + 1`.
- `BookingService` models the booking engine of the server revision. Its window check,
  creation, decision and single-booking read are the same code in both revisions.
  `LegacyBookingService` models the earlier revision's list queries, including the in-place
  sort of the booker's ALL branch, kept as an array insertion sort.
- `ItemService` models the server item service and the repository search condition.
  `LegacyItemService` models what the earlier revision does differently.
- `ItemRequestService` models the request service.
- `UserService` models the server user service over the shared database.
- `UserDao` and `ItemDao` model the list-backed stores as classes whose methods update a
  sequence and an id counter in place.
- `ErrorHandler` models the earlier revision's translation of exceptions into HTTP statuses.

Time is an integer instant. Each operation receives the current instant `now` as a
parameter, in place of reading the clock. A failed call returns the exception kind as an
`Err` value. A failed call changes no stored state.

The model follows the code in one place that looks unintended. An unknown state text in a
booking list query raises StateException, and the handler answers that exception with
500 INTERNAL_SERVER_ERROR rather than 400. `ErrorHandler.HandlerStatus` states the 500.
The CANCELED status is declared but no operation produces it.

Some code is the same in both revisions and is modelled once. In the earlier revision's
`src/main/java/ru/practicum/shareit/booking/service/BookingServiceImpl.java`, `timeChecker`
(lines 161-174), `createBooking` (35-57), `changeStatus` (59-78) and `getBooking` (80-91) are
modelled by the BookingService members. In the earlier
`src/main/java/ru/practicum/shareit/item/service/ItemServiceImpl.java`, `itemChecker`
(184-194), `updateItem` (87-113) and `createComment` (156-182) are modelled by the
ItemService members. The same applies to `validate` of the list-backed item store
(`src/main/java/ru/practicum/shareit/item/dao/InMemoryItemDao.java`, lines 94-104), which
is `ItemService.ItemChecker`.

## Model

| member | source | states |
|---|---|---|
| Common.ParseState | server/src/main/java/ru/practicum/shareit/booking/service/BookingServiceImpl.java:92-96 | `State.valueOf`: Some exactly for the six constant names, and the parsed filter carries that name; every other text, the empty one included, is rejected |
| Common.ParseStateName | server/src/main/java/ru/practicum/shareit/booking/service/BookingServiceImpl.java:103 | every filter name parses back to the same filter |
| Common.KeepUnlessBlank | server/src/main/java/ru/practicum/shareit/item/service/ItemServiceImpl.java:112-117 | a null or empty new value keeps the current one; otherwise the new, non-empty value is taken |
| Common.Contains | src/main/java/ru/practicum/shareit/item/dao/InMemoryItemDao.java:76-78 | `String.contains`: true exactly when the text occurs at some position |
| Store.FindItem | server/src/main/java/ru/practicum/shareit/item/service/ItemServiceImpl.java:132 | a found item is stored under the requested id; nothing is found exactly when no stored item has that id |
| Store.FindBooking | server/src/main/java/ru/practicum/shareit/booking/service/BookingServiceImpl.java:58 | a found booking is stored under the requested id; nothing is found exactly when no stored booking has that id |
| Store.FindRequest | server/src/main/java/ru/practicum/shareit/request/service/ItemRequestServiceImpl.java:85 | a found request is stored under the requested id; nothing is found exactly when no stored request has that id |
| BookingService.TimeCheck | server/src/main/java/ru/practicum/shareit/booking/service/BookingServiceImpl.java:170-183 | no fault exactly when both bounds are present and now <= start < end; only TimeException comes out; each of the four faults is reported exactly when it is the first check that fails |
| BookingService.CreateCheck | server/src/main/java/ru/practicum/shareit/booking/service/BookingServiceImpl.java:33-50 | no fault exactly when the booking may be made; the checks run in the order window, user, item, availability, ownership; a window fault wins over everything; UserNotFoundException exactly for an unknown user or an owner booking their own available item; ItemNotFoundException exactly for a missing item; ItemNotAvailable exactly for an unavailable one |
| BookingService.CreateBooking | server/src/main/java/ru/practicum/shareit/booking/service/BookingServiceImpl.java:33-54 | success appends exactly one booking: next id, the requested window and item, the caller as booker, status WAITING; items and users are unchanged; a failure leaves every table unchanged; the store invariant is kept |
| BookingService.Decide | server/src/main/java/ru/practicum/shareit/booking/service/BookingServiceImpl.java:56-75 | succeeds exactly for an existing booking whose item the caller owns and whose status is WAITING; the result is that booking with APPROVED when approved and REJECTED otherwise; failures are BookingNotFoundException, then UserNotFoundException (the booker included), then BookingException |
| BookingService.ChangeStatus | server/src/main/java/ru/practicum/shareit/booking/service/BookingServiceImpl.java:56-75 | returns what Decide returns; on success only that booking is replaced, by the decided one; no other table or booking changes |
| BookingService.DecisionIsOneShot | server/src/main/java/ru/practicum/shareit/booking/service/BookingServiceImpl.java:65-67 | once a decision has been stored, every later decision on that booking fails, and for the owner it fails with BookingException |
| BookingService.GetBooking | server/src/main/java/ru/practicum/shareit/booking/service/BookingServiceImpl.java:77-88 | succeeds exactly when the booking exists and the caller is its booker or the owner of its item; BookingNotFoundException for an absent id, UserNotFoundException for anyone else; the store is not changed |
| BookingService.Matching | server/src/main/java/ru/practicum/shareit/booking/service/BookingServiceImpl.java:103-123 | a booking is selected exactly when it is stored, it belongs to the caller (as booker, or as owner of its item) and the filter holds: PAST end < now, FUTURE start > now, CURRENT start < now < end, WAITING and REJECTED by status, ALL always |
| BookingService.ListBookings | server/src/main/java/ru/practicum/shareit/booking/service/BookingServiceImpl.java:90-168 | StateException for an unknown state text, before UserNotFoundException for an unknown user; otherwise at most `size` bookings, ordered by start descending, all selected, and exactly the requested page of the start-descending selection |
| BookingService.FirstPageHoldsAll | server/src/main/java/ru/practicum/shareit/booking/service/BookingServiceImpl.java:121 | when the selection fits on one page, the first page holds every selected booking exactly as often as it is stored |
| LegacyBookingService.InsertLeft | src/main/java/ru/practicum/shareit/booking/service/BookingServiceImpl.java:119 | one insertion step: the sorted prefix grows by one cell and the array stays a permutation of what it was |
| LegacyBookingService.SortByStartDescInPlace | src/main/java/ru/practicum/shareit/booking/service/BookingServiceImpl.java:119 | `bookings.sort(...)`: afterwards no cell has a larger start than an earlier one, and the array is a permutation of what it was |
| LegacyBookingService.LegacyListBookings | src/main/java/ru/practicum/shareit/booking/service/BookingServiceImpl.java:93-159 | fails exactly for an unknown user, with UserNotFoundException; otherwise the result is ordered by start descending and is a permutation of the selected bookings, whichever branch (in-place sort or ordered query) produced it |
| LegacyBookingService.LegacyListSelectsExactly | src/main/java/ru/practicum/shareit/booking/service/BookingServiceImpl.java:135-155 | a result with those contents holds exactly the bookings that are stored, in the caller scope and selected by the filter |
| ItemService.ItemChecker | server/src/main/java/ru/practicum/shareit/item/service/ItemServiceImpl.java:205-215 | `itemChecker`: no fault exactly when name and description are neither null nor empty and availability is present; otherwise ValidationException |
| ItemService.CreateItemCheck | server/src/main/java/ru/practicum/shareit/item/service/ItemServiceImpl.java:79-99 | field faults before the user lookup; then UserNotFoundException; no fault exactly when the request id is null or names an existing request; ItemRequestException exactly when it is zero, negative or names no request |
| ItemService.CreateItem | server/src/main/java/ru/practicum/shareit/item/service/ItemServiceImpl.java:79-100 | success appends one item owned by the caller, with the given fields and request link; a failure leaves the tables unchanged |
| ItemService.MergeItem | server/src/main/java/ru/practicum/shareit/item/service/ItemServiceImpl.java:104-121 | the saved item keeps the stored id, has the caller as owner, and takes each of name, description and availability from the input unless it is null (or empty, for the texts) |
| ItemService.MergeIsIdempotent | server/src/main/java/ru/practicum/shareit/item/service/ItemServiceImpl.java:112-120 | applying the same partial update twice gives what one application gives |
| ItemService.UpdateItem | server/src/main/java/ru/practicum/shareit/item/service/ItemServiceImpl.java:103-128 | an unknown caller fails first, then an unknown item; success replaces exactly that item by the merged one and changes nothing else |
| ItemService.CommentsOf | server/src/main/java/ru/practicum/shareit/item/service/ItemServiceImpl.java:136 | a comment is listed exactly when it is stored and belongs to the item |
| ItemService.BookingsOf | server/src/main/java/ru/practicum/shareit/item/service/ItemServiceImpl.java:190 | a booking is listed exactly when it is stored and belongs to the item |
| ItemService.ItemsOf | server/src/main/java/ru/practicum/shareit/item/service/ItemServiceImpl.java:44 | an item is listed exactly when it is stored and owned by the user |
| ItemService.ApprovedOf | server/src/main/java/ru/practicum/shareit/item/service/ItemServiceImpl.java:139 | a booking is listed exactly when it is stored, belongs to the item and is APPROVED |
| ItemService.LastBooking | server/src/main/java/ru/practicum/shareit/item/service/ItemServiceImpl.java:141-149 | an approved booking whose start is strictly before now and not earlier than any other such start; absent exactly when no start is before now |
| ItemService.NextBooking | server/src/main/java/ru/practicum/shareit/item/service/ItemServiceImpl.java:150-158 | an approved booking whose start is strictly after now and not later than any other such start; absent exactly when no start is after now |
| ItemService.OwnerView | server/src/main/java/ru/practicum/shareit/item/service/ItemServiceImpl.java:47-70 | the view of one item for its owner: its comments, and last and next chosen among its approved bookings as above |
| ItemService.GetItemById | server/src/main/java/ru/practicum/shareit/item/service/ItemServiceImpl.java:131-165 | fails exactly for an unknown item, with ItemNotFoundException; otherwise the item with its comments; last and next are chosen by time for the owner and absent for everyone else |
| ItemService.OwnerViews | server/src/main/java/ru/practicum/shareit/item/service/ItemServiceImpl.java:46-72 | one owner view per item of the page, in page order |
| ItemService.SortedViewsCover | server/src/main/java/ru/practicum/shareit/item/service/ItemServiceImpl.java:73-75 | reordering the views loses no item and keeps every view's annotation |
| ItemService.AscendingById | server/src/main/java/ru/practicum/shareit/item/service/ItemServiceImpl.java:73-75 | ordering by negated id, largest first, is ordering by id ascending |
| ItemService.GetItems | server/src/main/java/ru/practicum/shareit/item/service/ItemServiceImpl.java:43-76 | one view per item on the requested page of the caller's items, each owned by the caller and annotated for its owner, ordered by item id ascending |
| ItemService.SearchMatches | server/src/main/java/ru/practicum/shareit/item/ItemRepository.java:12-15 | an item matches exactly when it is available and its upper-cased name or description contains the upper-cased text |
| ItemService.Search | server/src/main/java/ru/practicum/shareit/item/service/ItemServiceImpl.java:167-175 | empty text gives an empty list; otherwise at most `size` items, all matching, equal to the requested page of the matches |
| ItemService.CreateComment | server/src/main/java/ru/practicum/shareit/item/service/ItemServiceImpl.java:178-203 | empty text fails first, then an unknown item, then an unknown user; a comment is saved exactly when some booking of the item by the caller is APPROVED and has started; otherwise UserException; a failure saves nothing |
| ItemService.ApprovalEnablesComment | server/src/main/java/ru/practicum/shareit/item/service/ItemServiceImpl.java:190-194 | approving a booking whose start has passed makes its booker eligible to comment on the item |
| ItemService.EligibilityPersists | server/src/main/java/ru/practicum/shareit/item/service/ItemServiceImpl.java:192-194 | once eligible, a user stays eligible at every later instant |
| LegacyItemService.VisitItem | src/main/java/ru/practicum/shareit/item/service/ItemServiceImpl.java:41-67 | one pass of the loop adds a view of the item exactly when the caller owns it, and every view stays an owner view |
| LegacyItemService.OwnedViews | src/main/java/ru/practicum/shareit/item/service/ItemServiceImpl.java:38-68 | every item is visited and exactly the caller's are annotated, in table order |
| LegacyItemService.LegacyGetItems | src/main/java/ru/practicum/shareit/item/service/ItemServiceImpl.java:36-72 | exactly the caller's items, one view each, annotated by the time rule, ordered by item id ascending |
| LegacyItemService.LegacyCreateItem | src/main/java/ru/practicum/shareit/item/service/ItemServiceImpl.java:74-85 | field faults before the user lookup, then UserNotFoundException; success appends one item owned by the caller, without a request link |
| LegacyItemService.LegacyGetItemById | src/main/java/ru/practicum/shareit/item/service/ItemServiceImpl.java:115-137 | ItemNotFoundException for an unknown item; IndexOutOfBoundsException exactly for the owner of an item with one to three approved bookings; otherwise, for the owner, element 0 and element 3 of the approved bookings in id order |
| LegacyItemService.LegacyGetItemByIdFailsOnOneBooking | src/main/java/ru/practicum/shareit/item/service/ItemServiceImpl.java:125-130 | a single started, approved booking makes the call fail, although the time rule would return it as the last booking and no next booking |
| LegacyItemService.LegacySearch | src/main/java/ru/practicum/shareit/item/service/ItemServiceImpl.java:139-154 | empty text gives an empty list; otherwise exactly the available items of the repository answer, in its order, as a subsequence of it |
| UserDao.MergeUser | server/src/main/java/ru/practicum/shareit/user/dao/InMemoryUserDao.java:37-43 | the stored id; a null or empty name or email keeps the stored one |
| UserDao.EmailFault | server/src/main/java/ru/practicum/shareit/user/dao/InMemoryUserDao.java:94-107 | DuplicateEmailException exactly when a stored user has the email; otherwise EmailException exactly for a null or empty email or one without '@' |
| UserDao.InMemoryUserDao.constructor | server/src/main/java/ru/practicum/shareit/user/dao/InMemoryUserDao.java:14-17 | the counter starts at 1 with an empty list |
| UserDao.InMemoryUserDao.EmailChecker | server/src/main/java/ru/practicum/shareit/user/dao/InMemoryUserDao.java:94-107 | returns the verdict EmailFault gives for the stored users |
| UserDao.InMemoryUserDao.CreateUser | server/src/main/java/ru/practicum/shareit/user/dao/InMemoryUserDao.java:20-26 | a rejected email leaves list and counter unchanged; otherwise the user with the counter's id is appended and the counter advances by one; ids stay distinct and below the counter, emails stay distinct |
| UserDao.InMemoryUserDao.UpdateUser | server/src/main/java/ru/practicum/shareit/user/dao/InMemoryUserDao.java:29-56 | UserNotFoundException exactly for an absent id; DuplicateEmailException when another user holds the new email; otherwise the merged user replaces the stored one at its position and every other entry stays; emails stay distinct |
| UserDao.InMemoryUserDao.DeleteUser | server/src/main/java/ru/practicum/shareit/user/dao/InMemoryUserDao.java:59-69 | fails exactly for an absent id; otherwise removes the first user with the id and keeps the others in order; the counter does not change |
| UserDao.InMemoryUserDao.GetUserById | server/src/main/java/ru/practicum/shareit/user/dao/InMemoryUserDao.java:77-84 | the first user with the id, or UserNotFoundException exactly when none has it |
| ItemDao.MergeStored | src/main/java/ru/practicum/shareit/item/dao/InMemoryItemDao.java:41-51 | a null or empty name or description and a null availability are taken from the stored item |
| ItemDao.InMemoryItemDao.constructor | src/main/java/ru/practicum/shareit/item/dao/InMemoryItemDao.java:13-16 | the counter starts at 1 with an empty list |
| ItemDao.InMemoryItemDao.CreateItem | src/main/java/ru/practicum/shareit/item/dao/InMemoryItemDao.java:24-30 | a validation fault leaves list and counter unchanged; otherwise the item with the counter's id is appended and the counter advances by one |
| ItemDao.InMemoryItemDao.UpdateItem | src/main/java/ru/practicum/shareit/item/dao/InMemoryItemDao.java:33-56 | ItemNotFoundException exactly for an absent id; otherwise the merged item replaces the first item with the id at its position |
| ItemDao.InMemoryItemDao.GetItemById | src/main/java/ru/practicum/shareit/item/dao/InMemoryItemDao.java:59-66 | the first item with the id, or ItemNotFoundException exactly when none has it |
| ItemDao.InMemoryItemDao.Search | src/main/java/ru/practicum/shareit/item/dao/InMemoryItemDao.java:69-84 | null or empty text gives an empty list; otherwise the stored items the lower-case condition selects, in list order; the store is not changed |
| ItemDao.SearchAnswers | src/main/java/ru/practicum/shareit/item/dao/InMemoryItemDao.java:74-83 | an item is in the answer exactly when it is stored, available and its lower-cased name or description contains the lower-cased text; the answer is a subsequence of the store and holds each item at most once |
| UserService.UserEmailChecker | server/src/main/java/ru/practicum/shareit/user/service/UserServiceImp.java:73-81 | no fault exactly for an email that is neither null nor empty and contains '@'; otherwise EmailException |
| UserService.CreateUser | server/src/main/java/ru/practicum/shareit/user/service/UserServiceImp.java:22-26 | a rejected email saves nothing; otherwise the user is saved under the next generated id, which was free |
| UserService.UpdateUser | server/src/main/java/ru/practicum/shareit/user/service/UserServiceImp.java:29-45 | UserNotFoundException exactly for an unknown id; otherwise the merged user is saved under the same id and nothing else changes |
| UserService.DeleteUser | server/src/main/java/ru/practicum/shareit/user/service/UserServiceImp.java:48-54 | UserNotFoundException exactly for an unknown id; otherwise exactly that user is removed |
| UserService.GetUserById | server/src/main/java/ru/practicum/shareit/user/service/UserServiceImp.java:64-71 | the stored user exactly when the id is known; otherwise UserNotFoundException |
| UserService.UpdateThenGet | server/src/main/java/ru/practicum/shareit/user/service/UserServiceImp.java:44 | a user read back after an update carries the merged fields |
| UserService.EmptyUpdateKeepsUser | server/src/main/java/ru/practicum/shareit/user/service/UserServiceImp.java:35-40 | an update naming no field leaves the user as stored |
| ItemRequestService.ItemsForRequest | server/src/main/java/ru/practicum/shareit/request/service/ItemRequestServiceImpl.java:54 | an item is listed exactly when it is stored and linked to the request |
| ItemRequestService.CreateItemRequest | server/src/main/java/ru/practicum/shareit/request/service/ItemRequestServiceImpl.java:31-42 | ItemRequestException for a null or empty description, before UserNotFoundException for an unknown user; success appends one request by the caller, stamped with the creation instant |
| ItemRequestService.AttachItems | server/src/main/java/ru/practicum/shareit/request/service/ItemRequestServiceImpl.java:53-58 | one view per request, in order, each carrying exactly the items linked to it |
| ItemRequestService.ViewsMatchRequests | server/src/main/java/ru/practicum/shareit/request/service/ItemRequestServiceImpl.java:53-58 | the views hold exactly the requests they were built from |
| ItemRequestService.ByRequester | server/src/main/java/ru/practicum/shareit/request/service/ItemRequestServiceImpl.java:49 | a request is listed exactly when it is stored and made by the user |
| ItemRequestService.OwnRequests | server/src/main/java/ru/practicum/shareit/request/service/ItemRequestServiceImpl.java:49 | the caller's requests, each as often as stored, ordered by creation instant descending |
| ItemRequestService.GetOwnItemRequests | server/src/main/java/ru/practicum/shareit/request/service/ItemRequestServiceImpl.java:45-60 | fails exactly for an unknown user; otherwise exactly the caller's requests, each as often as it is stored (as a multiset), newest first, each with exactly its linked items |
| ItemRequestService.OthersRequests | server/src/main/java/ru/practicum/shareit/request/service/ItemRequestServiceImpl.java:67 | a request is listed exactly when it is stored and made by someone other than the caller |
| ItemRequestService.GetItemRequests | server/src/main/java/ru/practicum/shareit/request/service/ItemRequestServiceImpl.java:63-77 | fails exactly for an unknown user; otherwise the requested page of other users' requests in table order, none of them the caller's, each with exactly its linked items |
| ItemRequestService.GetItemRequestById | server/src/main/java/ru/practicum/shareit/request/service/ItemRequestServiceImpl.java:80-95 | UserNotFoundException exactly for an unknown user or an unknown request; otherwise that request with exactly its linked items |
| ItemRequestService.AnsweredItemIsListed | server/src/main/java/ru/practicum/shareit/request/service/ItemRequestServiceImpl.java:89-93 | an item saved with a link to an existing request appears when the request is read back |
| ErrorHandler.Code | src/main/java/ru/practicum/shareit/exception/ErrorHandler.java:15-73 | 409 for CONFLICT, 400 for BAD_REQUEST, 404 for NOT_FOUND, 500 for INTERNAL_SERVER_ERROR, and no other pairing |
| ErrorHandler.HandlerStatus | src/main/java/ru/practicum/shareit/exception/ErrorHandler.java:13-85 | 409 exactly for DuplicateEmailException; 404 exactly for the three not-found kinds; 400 exactly for Email, Validation, ItemNotAvailable, Time, Booking, Comment and User exceptions; 500 exactly for StateException; no handler for the other kinds |
| ErrorHandler.ErrorBody | src/main/java/ru/practicum/shareit/exception/ErrorHandler.java:18 | a single entry, under the key "error", holding the message |
| ErrorHandler.CreateBookingFailuresAreHandled | src/main/java/ru/practicum/shareit/exception/ErrorHandler.java:27-55 | every failure of booking creation is answered, and an owner booking their own item is answered with 404 |
| ErrorHandler.DecisionFailuresAreHandled | src/main/java/ru/practicum/shareit/exception/ErrorHandler.java:27-67 | every failure of a status decision is answered with 404 or 400 |
## Left out

- The text of exception messages is left out: an error is its kind (and, for TimeException, which check failed); `ErrorHandler.ErrorBody` takes the message as a parameter.
- The clock is left out: each operation receives one instant `now`, where the source calls `LocalDateTime.now()` several times within one call; `LocalDateTime` is an integer.
- Controllers, the gateway module, request headers, DTOs and the mappers between DTOs and entities are left out; operations take and return entities.
- The repositories are not modelled as code: each derived query is an order-preserving filter over a table, rows of a query without an ordering clause come back in id order, and `findById` is a lookup by position.
- Paging is the window from `page * size` of at most `size` rows; the controllers' translation of `from` into a page and the rejection of a zero page size are left out.
- ItemService.LastBooking and ItemService.NextBooking: among approved bookings with the same start, which one is chosen is not stated (the source's stable sort uses the repository's row order).
- BookingService.ListBookings: the order among bookings with equal starts is table order in the model and unspecified for the database.
- LegacyBookingService.SortByStartDescInPlace: stability is not stated (the source's `List.sort` is stable); only order and contents are.
- ItemService.SearchMatches: the JPQL `LIKE` pattern is modelled as plain substring search, so `%` and `_` in the text are not wildcards, and upper-casing maps ASCII letters only.
- ItemDao.InMemoryItemDao.Search: `toLowerCase` maps ASCII letters only.
- A null search text is left out: neither item service rejects it, and it reaches the repository query, whose answer for null is not modelled (the earlier revision's controller defaults the text to empty).
- A null comment text and null ids are left out; the source throws NullPointerException or IllegalArgumentException there.
- The unique-email and not-null constraints of the database schema are left out, so UserService.CreateUser and UserService.UpdateUser do not fail on a duplicate email.
- ItemService.UpdateItem: the model assumes that the mapper, which is not part of this model, builds the updated item without a request, so the saved item carries none.
- LegacyItemService.LegacyCreateItem: the earlier revision's item DTO carries a request, but the mapper that turns it into the saved item is not part of this model; the model assumes the mapper drops the request, so the saved item has no request link.
- Ids and id counters are unbounded integers: the overflow of Java's `Long` ids and of the list-backed stores' `Long` counters and `int` lookup ids is left out.
- ItemRequestService.CreateItemRequest: the creation instant, which the persistence layer stamps, is the parameter `now`.
- `getUsers` and `getItems` of the list-backed stores return the live list, which callers can then change; that aliasing is not modelled, and the two getters are not modelled.
- The earlier revision's `search` is modelled from the answer of `ItemRepository.search`, a query that is not part of this model; the method takes that answer as input.
- The earlier revision's list queries take a typed State, so no unknown-state failure exists there.
- Concurrency and transactions are left out: every operation runs alone.

## Findings

| source | as written | input that shows it | evidently intended | confidence | as-written member | corrected member |
|---|---|---|---|---|---|---|
| src/main/java/ru/practicum/shareit/item/service/ItemServiceImpl.java:126-130 | the owner's view of an item takes the approved bookings in id order, makes element 0 the last booking and element 3 the next one | an item with a single approved booking that has started: `bookings.get(3)` throws IndexOutOfBoundsException; with four or more approved bookings, the next booking is the fourth by id, whatever its start | the last booking is the approved one with the latest start before now, and the next booking the one with the earliest start after now, as the server revision computes them | not executed | LegacyItemService.LegacyGetItemById, LegacyItemService.LegacyGetItemByIdFailsOnOneBooking | ItemService.GetItemById |
