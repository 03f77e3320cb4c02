/** The cancellation service: storing cancellations and answering questions about them,
    including the total refunded on one day. */
module CancellationService {
  import opened Wrappers
  import opened Entities
  import opened Tables
  import opened Database
  import JsText

  /** The refund-status column admits its three ENUM values and NULL (the empty string). */
  predicate RefundStatusStorable(s: string) {
    s == "" || IsRefundStatus(s)
  }

  /** Every stored cancellation has a storable refund status. */
  ghost predicate RefundStatusesStorable(cancellations: map<int, Cancellation>) {
    forall k :: k in cancellations ==> RefundStatusStorable(cancellations[k].refundStatus)
  }

  /** What the refund-status column stores for `s`: NULL (the empty string) stays NULL, a
      value that equals one of the ENUM's members up to the case of its letters is stored as
      that member, and any other value is refused (`None`). */
  function StoredRefundStatus(s: string): (r: Option<string>)
    ensures r.None? <==>
      s != "" && !EqualsIgnoreCase(s, "Pending") && !EqualsIgnoreCase(s, "Refunded") && !EqualsIgnoreCase(s, "Rejected")
    ensures r.Some? ==> RefundStatusStorable(r.value) && EqualsIgnoreCase(r.value, s)
    ensures RefundStatusStorable(s) ==> r == Some(s)
  {
    if s == "" then Some("")
    else if EqualsIgnoreCase(s, "Pending") then Some("Pending")
    else if EqualsIgnoreCase(s, "Refunded") then Some("Refunded")
    else if EqualsIgnoreCase(s, "Rejected") then Some("Rejected")
    else None
  }

  /** "pending" and "REFUNDED" are stored as the ENUM's members; "Approved" is refused. */
  lemma StoredRefundStatusExamples()
    ensures StoredRefundStatus("pending") == Some("Pending")
    ensures StoredRefundStatus("REFUNDED") == Some("Refunded")
    ensures StoredRefundStatus("Approved") == None
  {
    assert JsText.ToLower("pending") == "pending" == JsText.ToLower("Pending");
    assert JsText.ToLower("REFUNDED") == "refunded" == JsText.ToLower("Refunded");
    assert JsText.ToLower("Approved")[0] == 'a';
  }

  /** `cancelBooking`: stores the cancellation (under the save rule of the store) and returns
      it as given, with its id. The database stores the refund status as the column's ENUM
      member it matches up to case, and refuses one that matches none. No booking or payment
      is touched. */
  method CancelBooking(st: Store, c: Cancellation) returns (r: Outcome<Cancellation>)
    requires st.Valid()
    modifies st`cancellations, st`cancellationIdentity
    ensures st.Valid()
    ensures StoredRefundStatus(c.refundStatus).None? ==>
      && r == Err(RefundStatusRejected)
      && st.cancellations == old(st.cancellations) && st.cancellationIdentity == old(st.cancellationIdentity)
    ensures StoredRefundStatus(c.refundStatus).Some? ==>
      && r == Ok(SavedCancellation(old(st.cancellations), old(st.cancellationIdentity), c))
      && st.cancellations ==
         old(st.cancellations)[r.value.cancellationId := r.value.(refundStatus := StoredRefundStatus(c.refundStatus).value)]
    ensures RefundStatusStorable(c.refundStatus) ==>
      r.Ok? && st.cancellations == old(st.cancellations)[r.value.cancellationId := r.value]
    ensures r.Ok? ==> r.value.(cancellationId := c.cancellationId) == c
    ensures RefundStatusesStorable(old(st.cancellations)) ==> RefundStatusesStorable(st.cancellations)
  {
    var stored := StoredRefundStatus(c.refundStatus);
    if stored.None? {
      return Err(RefundStatusRejected);
    }
    var saved := st.SaveCancellation(c.(refundStatus := stored.value));
    r := Ok(saved.(refundStatus := c.refundStatus));
  }

  /** `getCancellationByBookingId`: the booking's cancellation, or `None` (null) when it has
      none; only several cancellations for one booking make the single-row query fail. */
  function GetCancellationByBookingId(cancellations: map<int, Cancellation>, bookingId: int): (r: Outcome<Option<Cancellation>>)
    ensures r == Ok(None) <==> forall k :: k in cancellations ==> cancellations[k].bookingId != bookingId
    ensures r.Ok? && r.value.Some? ==> r.value.value.bookingId == bookingId
    ensures r.Ok? && r.value.Some? ==> exists k :: k in cancellations && cancellations[k] == r.value.value
    ensures r.Err? <==> exists a, b :: (a in cancellations && b in cancellations && a != b &&
                                        cancellations[a].bookingId == bookingId && cancellations[b].bookingId == bookingId)
    ensures r.Err? ==> r.error == NonUniqueResult
  {
    match FindUnique(cancellations, (c: Cancellation) => c.bookingId == bookingId)
    case NoRow => Ok(None)
    case OneRow(c) => Ok(Some(c))
    case ManyRows => Err(NonUniqueResult)
  }

  /** `getCancellationsByUserId`: the cancellations of the user's bookings. */
  function GetCancellationsByUserId(cancellations: map<int, Cancellation>, bookings: map<int, Booking>, userId: int): (r: map<int, Cancellation>)
    ensures forall k :: k in r <==>
      k in cancellations && cancellations[k].bookingId in bookings && bookings[cancellations[k].bookingId].userId == userId
    ensures forall k :: k in r ==> r[k] == cancellations[k]
  {
    Select(cancellations, (c: Cancellation) => c.bookingId in bookings && bookings[c.bookingId].userId == userId)
  }

  /** `getCancellationsByStatus`: the cancellations with exactly that refund status. */
  function GetCancellationsByStatus(cancellations: map<int, Cancellation>, refundStatus: string): (r: map<int, Cancellation>)
    ensures forall k :: k in r <==> k in cancellations && cancellations[k].refundStatus == refundStatus
    ensures forall k :: k in r ==> r[k] == cancellations[k]
  {
    Select(cancellations, (c: Cancellation) => c.refundStatus == refundStatus)
  }

  /** `isBookingCancelled`: a cancellation record references the booking. Only the
      cancellation table is read; the booking's own status plays no part. */
  function IsBookingCancelled(cancellations: map<int, Cancellation>, bookingId: int): (r: bool)
    ensures r <==> exists k :: k in cancellations && cancellations[k].bookingId == bookingId
  {
    Exists(cancellations, (c: Cancellation) => c.bookingId == bookingId)
  }

  /** A booking is cancelled exactly when looking up its cancellation finds one (or finds
      several). */
  lemma CancelledIffLookupFinds(cancellations: map<int, Cancellation>, bookingId: int)
    ensures IsBookingCancelled(cancellations, bookingId) <==> GetCancellationByBookingId(cancellations, bookingId) != Ok(None)
  {
  }

  function RefundAmount(c: Cancellation): real {
    c.refundAmount
  }

  /** The cancellations dated within the day, both ends of the window included. */
  function CancelledOn(cancellations: map<int, Cancellation>, day: int): (r: map<int, Cancellation>)
    ensures forall k :: k in r <==> k in cancellations && InRefundWindow(cancellations[k].cancellationDate, day)
    ensures forall k :: k in r ==> r[k] == cancellations[k]
  {
    map k | k in cancellations && InRefundWindow(cancellations[k].cancellationDate, day) :: cancellations[k]
  }

  /** `getTotalRefundsIssuedByDate`: the SQL `SUM` of the refund amounts of the day's
      cancellations, which is NULL (`None`) when the day has none. */
  function GetTotalRefundsIssuedByDate(cancellations: map<int, Cancellation>, day: int): (r: Option<real>)
    ensures r.None? <==> forall k :: k in cancellations ==> !InRefundWindow(cancellations[k].cancellationDate, day)
    ensures r.Some? ==> r.value == Sum(CancelledOn(cancellations, day), RefundAmount)
  {
    var rows := CancelledOn(cancellations, day);
    EmptyIffNoKeys(rows);
    if rows == map[] then None else Some(Sum(rows, RefundAmount))
  }

  /** Storing a new cancellation dated that day adds its refund to the day's total; one dated
      another day leaves the total as it was. */
  lemma TotalAfterCancel(cancellations: map<int, Cancellation>, k: int, c: Cancellation, day: int)
    requires k !in cancellations
    ensures InRefundWindow(c.cancellationDate, day) ==>
      GetTotalRefundsIssuedByDate(cancellations[k := c], day) ==
        Some(GetOr(GetTotalRefundsIssuedByDate(cancellations, day), 0.0) + c.refundAmount)
    ensures !InRefundWindow(c.cancellationDate, day) ==>
      GetTotalRefundsIssuedByDate(cancellations[k := c], day) == GetTotalRefundsIssuedByDate(cancellations, day)
  {
    var before := CancelledOn(cancellations, day);
    var after := CancelledOn(cancellations[k := c], day);
    if InRefundWindow(c.cancellationDate, day) {
      assert after == before[k := c];
      SumInsert(before, RefundAmount, k, c);
      EmptyIffNoKeys(before);
      assert k in after;
    } else {
      assert after == before;
    }
  }

  /** The total of non-negative refunds is non-negative. */
  lemma TotalNonNegative(cancellations: map<int, Cancellation>, day: int)
    requires forall k :: k in cancellations ==> cancellations[k].refundAmount >= 0.0
    requires GetTotalRefundsIssuedByDate(cancellations, day).Some?
    ensures GetTotalRefundsIssuedByDate(cancellations, day).value >= 0.0
  {
    SumNonNegative(CancelledOn(cancellations, day), RefundAmount);
  }

  /** Cancellations dated on other days play no part in the day's total. */
  lemma TotalReadsOnlyTheDay(c1: map<int, Cancellation>, c2: map<int, Cancellation>, day: int)
    requires CancelledOn(c1, day) == CancelledOn(c2, day)
    ensures GetTotalRefundsIssuedByDate(c1, day) == GetTotalRefundsIssuedByDate(c2, day)
  {
    EmptyIffNoKeys(CancelledOn(c1, day));
    EmptyIffNoKeys(CancelledOn(c2, day));
  }
}
