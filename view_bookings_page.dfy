/** The operator's list of bookings: the status badge, the status filter and search box, and
    marking a booking refunded once its refund has been processed. The refund call is a
    request the page issues; its outcome is a parameter. */
module ViewBookingsPage {
  import opened Wrappers
  import opened Sequences
  import JsText

  /** A booking as the list holds it, with its user, route and cancellation flattened in. A
      missing or falsy value is `0` or the empty string. */
  datatype BookingView = BookingView(
    bookingId: int,
    status: string,
    userName: string,
    userEmail: string,
    origin: string,
    destination: string,
    cancellationId: int)

  /** `getStatusVariant`: the badge colour, by the status read without regard to case. */
  function GetStatusVariant(status: string): (r: string)
    ensures r in {"success", "warning", "danger", "info", "secondary"}
    ensures r == "secondary" <==> JsText.ToLower(status) !in {"confirmed", "pending", "cancelled", "refunded"}
  {
    if status == "" then "secondary"
    else
      var s := JsText.ToLower(status);
      if s == "confirmed" then "success"
      else if s == "pending" then "warning"
      else if s == "cancelled" then "danger"
      else if s == "refunded" then "info"
      else "secondary"
  }

  /** The badge depends on the status only up to case. */
  lemma StatusVariantIgnoresCase(a: string, b: string)
    requires JsText.ToLower(a) == JsText.ToLower(b)
    ensures GetStatusVariant(a) == GetStatusVariant(b)
  {
    assert |a| == |JsText.ToLower(a)| && |b| == |JsText.ToLower(b)|;
  }

  /** Each of the four known statuses, in any case, has its own colour; anything else is
      "secondary". */
  lemma StatusVariants(status: string)
    ensures GetStatusVariant(status) == "success" <==> JsText.ToLower(status) == "confirmed"
    ensures GetStatusVariant(status) == "warning" <==> JsText.ToLower(status) == "pending"
    ensures GetStatusVariant(status) == "danger" <==> JsText.ToLower(status) == "cancelled"
    ensures GetStatusVariant(status) == "info" <==> JsText.ToLower(status) == "refunded"
  {
    assert |status| == |JsText.ToLower(status)|;
  }

  /** The status filter keeps a booking that has a status equal, up to case, to the one
      picked. */
  predicate HasStatus(b: BookingView, statusFilter: string) {
    b.status != "" && JsText.ToLower(b.status) == JsText.ToLower(statusFilter)
  }

  /** The search keeps a booking whose user name, e-mail, origin or destination, read in
      lower case, contains the lower-cased term, or whose id, written in decimal, does. */
  predicate MatchesSearch(b: BookingView, term: string) {
    || (b.userName != "" && JsText.Contains(JsText.ToLower(b.userName), term))
    || (b.userEmail != "" && JsText.Contains(JsText.ToLower(b.userEmail), term))
    || (b.bookingId != 0 && JsText.Contains(JsText.DecimalString(b.bookingId), term))
    || (b.origin != "" && JsText.Contains(JsText.ToLower(b.origin), term))
    || (b.destination != "" && JsText.Contains(JsText.ToLower(b.destination), term))
  }

  /** Whether `filterBookings` keeps the booking. */
  predicate Kept(b: BookingView, statusFilter: string, searchTerm: string) {
    && (statusFilter != "all" ==> HasStatus(b, statusFilter))
    && (searchTerm != "" ==> MatchesSearch(b, JsText.ToLower(searchTerm)))
  }

  /** `filterBookings`: the status filter unless "all" is picked, then the search when a term
      is typed. */
  function FilterBookings(bookings: seq<BookingView>, statusFilter: string, searchTerm: string): (r: seq<BookingView>)
    ensures |r| <= |bookings|
    ensures forall i :: 0 <= i < |r| ==> Kept(r[i], statusFilter, searchTerm)
  {
    var byStatus := if statusFilter != "all" then Filter(bookings, b => HasStatus(b, statusFilter)) else bookings;
    if searchTerm != "" then Filter(byStatus, b => MatchesSearch(b, JsText.ToLower(searchTerm))) else byStatus
  }

  /** The two filters in a row are one filter by `Kept`. */
  lemma FilterBookingsIsFilter(bookings: seq<BookingView>, statusFilter: string, searchTerm: string)
    ensures FilterBookings(bookings, statusFilter, searchTerm) == Filter(bookings, b => Kept(b, statusFilter, searchTerm))
  {
    var kept := b => Kept(b, statusFilter, searchTerm);
    var byStatus := b => HasStatus(b, statusFilter);
    var bySearch := b => MatchesSearch(b, JsText.ToLower(searchTerm));
    if statusFilter != "all" && searchTerm != "" {
      FilterFilter(bookings, byStatus, bySearch, kept);
    } else if statusFilter != "all" {
      assert forall b :: kept(b) == byStatus(b);
      FilterSame(bookings, byStatus, kept);
    } else if searchTerm != "" {
      FilterSame(bookings, bySearch, kept);
    } else {
      FilterAll(bookings, kept);
    }
  }

  /** The list shown keeps the order of the bookings and drops some of them. */
  lemma FilterBookingsIsSubsequence(bookings: seq<BookingView>, statusFilter: string, searchTerm: string)
    ensures IsSubsequence(FilterBookings(bookings, statusFilter, searchTerm), bookings)
  {
    FilterBookingsIsFilter(bookings, statusFilter, searchTerm);
    FilterIsSubsequence(bookings, b => Kept(b, statusFilter, searchTerm));
  }

  /** A booking is shown exactly when it is in the list and passes both filters. */
  lemma FilterBookingsMembership(bookings: seq<BookingView>, statusFilter: string, searchTerm: string, b: BookingView)
    ensures b in FilterBookings(bookings, statusFilter, searchTerm) <==> b in bookings && Kept(b, statusFilter, searchTerm)
  {
    FilterBookingsIsFilter(bookings, statusFilter, searchTerm);
    var r := Filter(bookings, x => Kept(x, statusFilter, searchTerm));
    if b in r {
      var i :| 0 <= i < |r| && r[i] == b;
    }
    if b in bookings && Kept(b, statusFilter, searchTerm) {
      var i :| 0 <= i < |bookings| && bookings[i] == b;
    }
  }

  /** With "all" picked and no term typed, every booking is shown. */
  lemma FilterAllShowsEverything(bookings: seq<BookingView>)
    ensures FilterBookings(bookings, "all", "") == bookings
  {
  }

  /** A picked status other than "all" drops every booking without a status. */
  lemma StatusFilterDropsMissingStatus(bookings: seq<BookingView>, statusFilter: string, searchTerm: string, b: BookingView)
    requires statusFilter != "all" && b.status == ""
    ensures b !in FilterBookings(bookings, statusFilter, searchTerm)
  {
    FilterBookingsMembership(bookings, statusFilter, searchTerm, b);
  }

  /** The list state the refund action changes. */
  datatype ListState = ListState(bookings: seq<BookingView>, error: string, success: string)

  /** The bookings with every one whose id is `bookingId` marked refunded. */
  function MarkRefunded(bookings: seq<BookingView>, bookingId: int): (r: seq<BookingView>)
    ensures |r| == |bookings|
    ensures forall i :: 0 <= i < |bookings| ==>
      r[i] == if bookings[i].bookingId == bookingId then bookings[i].(status := "Refunded") else bookings[i]
  {
    seq(|bookings|, i requires 0 <= i < |bookings| =>
      if bookings[i].bookingId == bookingId then bookings[i].(status := "Refunded") else bookings[i])
  }

  /** Marking the same booking refunded again changes nothing. */
  lemma MarkRefundedIdempotent(bookings: seq<BookingView>, bookingId: int)
    ensures MarkRefunded(MarkRefunded(bookings, bookingId), bookingId) == MarkRefunded(bookings, bookingId)
  {
  }

  /** What `handleRefund` does: the state after it, and the cancellation whose refund it asked
      for, if any. */
  datatype RefundResult = RefundResult(state: ListState, refunded: Option<int>)

  /** `handleRefund`, with `outcome` the answer of the refund call: its failure message, or
      success. Without a cancellation on record nothing is asked and the error is set.
      Otherwise the refund of the cancellation is asked for; on success only the bookings with
      this booking's id become "Refunded" and a success message names the booking, and on
      failure the error carries the message. */
  function HandleRefund(st: ListState, booking: BookingView, outcome: Result<(), string>): (r: RefundResult)
    ensures booking.cancellationId == 0 ==>
      r == RefundResult(st.(error := "Refund not possible: No cancellation record found."), None)
    ensures booking.cancellationId != 0 ==> r.refunded == Some(booking.cancellationId)
    ensures booking.cancellationId != 0 && outcome.Ok? ==>
      && r.state.bookings == MarkRefunded(st.bookings, booking.bookingId)
      && r.state.success == "Refund processed for Booking #" + JsText.DecimalString(booking.bookingId)
      && r.state.error == st.error
    ensures booking.cancellationId != 0 && outcome.Err? ==>
      r.state == st.(error := "Refund failed: " + outcome.error)
  {
    if booking.cancellationId == 0 then
      RefundResult(st.(error := "Refund not possible: No cancellation record found."), None)
    else
      match outcome
      case Ok(_) =>
        RefundResult(st.(bookings := MarkRefunded(st.bookings, booking.bookingId),
                         success := "Refund processed for Booking #" + JsText.DecimalString(booking.bookingId)),
                     Some(booking.cancellationId))
      case Err(message) =>
        RefundResult(st.(error := "Refund failed: " + message), Some(booking.cancellationId))
  }

  /** A refund changes the status of the refunded booking only: the list keeps its length,
      every other booking, and every field but the status. */
  lemma RefundTouchesOnlyThatBooking(st: ListState, booking: BookingView, i: int)
    requires booking.cancellationId != 0 && 0 <= i < |st.bookings|
    ensures var after := HandleRefund(st, booking, Ok(())).state.bookings;
      && |after| == |st.bookings|
      && after[i].(status := st.bookings[i].status) == st.bookings[i]
      && (st.bookings[i].bookingId != booking.bookingId ==> after[i] == st.bookings[i])
      && (st.bookings[i].bookingId == booking.bookingId ==> after[i].status == "Refunded")
  {
  }
}
