/** The exception translation of the earlier revision's REST layer: which HTTP status each
    exception kind is answered with, and the shape of the answer's body. */
module ErrorHandler {
  import opened Common
  import BookingService
  import Store

  datatype HttpStatus = BAD_REQUEST | NOT_FOUND | CONFLICT | INTERNAL_SERVER_ERROR

  /** The numeric code of each status. */
  function Code(s: HttpStatus): (r: int)
    ensures s == BAD_REQUEST <==> r == 400
    ensures s == NOT_FOUND <==> r == 404
    ensures s == CONFLICT <==> r == 409
    ensures s == INTERNAL_SERVER_ERROR <==> r == 500
  {
    match s
    case BAD_REQUEST => 400
    case NOT_FOUND => 404
    case CONFLICT => 409
    case INTERNAL_SERVER_ERROR => 500
  }

  /** The status the handler answers with; None for the kinds it has no handler for
      (ItemRequestException, and the IndexOutOfBoundsException of `List.get`). */
  function HandlerStatus(e: Error): (r: Option<HttpStatus>)
    ensures r == Some(CONFLICT) <==> e.DuplicateEmailException?
    ensures r == Some(NOT_FOUND) <==>
              e.UserNotFoundException? || e.ItemNotFoundException? || e.BookingNotFoundException?
    ensures r == Some(BAD_REQUEST) <==>
              e.EmailException? || e.ValidationException? || e.ItemNotAvailable?
              || e.TimeException? || e.BookingException? || e.CommentException?
              || e.UserException?
    ensures r == Some(INTERNAL_SERVER_ERROR) <==> e.StateException?
    ensures r.None? <==> e.ItemRequestException? || e.IndexOutOfBoundsException?
  {
    match e
    case DuplicateEmailException => Some(CONFLICT)
    case EmailException => Some(BAD_REQUEST)
    case UserNotFoundException => Some(NOT_FOUND)
    case ItemNotFoundException => Some(NOT_FOUND)
    case ValidationException => Some(BAD_REQUEST)
    case ItemNotAvailable => Some(BAD_REQUEST)
    case TimeException(_) => Some(BAD_REQUEST)
    case BookingException => Some(BAD_REQUEST)
    case BookingNotFoundException => Some(NOT_FOUND)
    case StateException => Some(INTERNAL_SERVER_ERROR)
    case CommentException => Some(BAD_REQUEST)
    case UserException => Some(BAD_REQUEST)
    case ItemRequestException => None
    case IndexOutOfBoundsException => None
  }

  /** `Map.of("error", message)`: a single entry under the key "error". */
  function ErrorBody(message: string): (r: map<string, string>)
    ensures r.Keys == {"error"} && r["error"] == message
  {
    map["error" := message]
  }

  /** Every failure of booking creation is answered by a handler, and an owner booking their
      own item, reported as UserNotFoundException, is answered with 404. */
  lemma CreateBookingFailuresAreHandled(users: map<int, Store.User>, items: seq<Store.Item>,
                                        userId: int, req: BookingService.BookingRequest, now: int)
    requires Store.ItemsKeyed(items)
    ensures var fault := BookingService.CreateCheck(users, items, userId, req, now);
            fault.Some? ==> HandlerStatus(fault.value).Some?
    ensures (userId in users && 1 <= req.itemId <= |items| && items[req.itemId - 1].ownerId == userId
             && items[req.itemId - 1].available
             && BookingService.TimeCheck(req, now).None?) ==>
            HandlerStatus(BookingService.CreateCheck(users, items, userId, req, now).value)
            == Some(NOT_FOUND)
  {
  }

  /** Every failure of a status decision is answered with 404 or 400. */
  lemma DecisionFailuresAreHandled(items: seq<Store.Item>, bookings: seq<Store.Booking>,
                                   userId: int, bookingId: int, approved: bool)
    requires Store.BookingsKeyed(bookings)
    ensures var r := BookingService.Decide(items, bookings, userId, bookingId, approved);
            r.Err? ==> HandlerStatus(r.error) == Some(NOT_FOUND)
                       || HandlerStatus(r.error) == Some(BAD_REQUEST)
  {
  }
}
