/** The payment service: recording a payment for a booking, the e-ticket delivery it
    triggers, and the payment finders. The e-ticket (a PDF sent by mail) is an opaque side
    effect whose success is a parameter. */
module PaymentService {
  import opened Wrappers
  import opened Entities
  import opened Tables
  import opened Database
  import JsText

  /** The payment fields `createPayment` reads from a `PaymentDto`; `None` is a null date. */
  datatype PaymentDto = PaymentDto(amountPaid: real, paymentDate: Option<Instant>, paymentStatus: string, paymentMethod: string)

  /** The payment `createPayment` builds: amount, status and method from the DTO, the DTO's
      date or else the current time, linked to the booking, and not yet saved (id 0). */
  function NewPayment(dto: PaymentDto, bookingId: int, now: Instant): (p: Payment)
    ensures p.paymentId == 0 && p.bookingId == bookingId
    ensures p.amountPaid == dto.amountPaid && p.paymentStatus == dto.paymentStatus && p.paymentMethod == dto.paymentMethod
    ensures dto.paymentDate.Some? ==> p.paymentDate == dto.paymentDate.value
    ensures dto.paymentDate.None? ==> p.paymentDate == now
  {
    Payment(0, dto.amountPaid, GetOr(dto.paymentDate, now), dto.paymentStatus, dto.paymentMethod, bookingId)
  }

  /** What became of the e-ticket. */
  datatype Delivery = NotAttempted | Sent | SendFailed

  /** A ticket is sent for a payment whose status is "Success" in any case. */
  predicate SendsTicket(p: Payment) {
    EqualsIgnoreCase("Success", p.paymentStatus)
  }

  /** `createPayment`: saves the new payment and then, for a successful one, attempts
      delivery; a delivery failure is swallowed and changes nothing. No booking is touched. */
  method CreatePayment(st: Store, dto: PaymentDto, booking: Booking, now: Instant, mailerSucceeds: bool)
    returns (saved: Payment, delivery: Delivery)
    requires st.Valid()
    modifies st`payments, st`paymentIdentity
    ensures st.Valid()
    ensures saved == NewPayment(dto, booking.bookingId, now).(paymentId := old(st.paymentIdentity))
    ensures saved.paymentId !in old(st.payments)
    ensures st.payments == old(st.payments)[saved.paymentId := saved]
    ensures st.paymentIdentity == old(st.paymentIdentity) + 1
    ensures delivery == if !SendsTicket(saved) then NotAttempted else if mailerSucceeds then Sent else SendFailed
  {
    var payment := NewPayment(dto, booking.bookingId, now);
    saved := st.SavePayment(payment);
    delivery := NotAttempted;
    if SendsTicket(saved) {
      delivery := if mailerSucceeds then Sent else SendFailed;
    }
  }

  /** `getPaymentByBookingId`: the booking's payment; a failure when it has none, and the
      single-row query's failure when it has several. */
  function GetPaymentByBookingId(payments: map<int, Payment>, bookingId: int): (r: Outcome<Payment>)
    ensures r == Err(PaymentNotFound) <==> forall k :: k in payments ==> payments[k].bookingId != bookingId
    ensures r.Ok? ==> r.value.bookingId == bookingId
    ensures r.Ok? ==> exists k :: (k in payments && payments[k] == r.value &&
                                   forall j :: j in payments && payments[j].bookingId == bookingId ==> j == k)
    ensures r.Err? ==> r.error == PaymentNotFound || r.error == NonUniqueResult
  {
    match FindUnique(payments, (p: Payment) => p.bookingId == bookingId)
    case NoRow => Err(PaymentNotFound)
    case OneRow(p) => Ok(p)
    case ManyRows => Err(NonUniqueResult)
  }

  /** `getPaymentsByUserId`: the payments of the user's bookings, or a failure when none. */
  function GetPaymentsByUserId(payments: map<int, Payment>, bookings: map<int, Booking>, userId: int): (r: Outcome<map<int, Payment>>)
    ensures r.Err? <==> forall k :: k in payments ==>
      !(payments[k].bookingId in bookings && bookings[payments[k].bookingId].userId == userId)
    ensures r.Err? ==> r.error == NoPaymentsForUser
    ensures r.Ok? ==> forall k :: k in r.value <==>
      k in payments && payments[k].bookingId in bookings && bookings[payments[k].bookingId].userId == userId
    ensures r.Ok? ==> forall k :: k in r.value ==> r.value[k] == payments[k]
  {
    var found := Select(payments, (p: Payment) => p.bookingId in bookings && bookings[p.bookingId].userId == userId);
    EmptyIffNoKeys(found);
    RequireRows(found, NoPaymentsForUser)
  }

  /** `getPaymentsByPaymentStatus`: the payments with exactly that status, or a failure when
      none. */
  function GetPaymentsByPaymentStatus(payments: map<int, Payment>, status: string): (r: Outcome<map<int, Payment>>)
    ensures r.Err? <==> forall k :: k in payments ==> payments[k].paymentStatus != status
    ensures r.Err? ==> r.error == NoPaymentsWithStatus
    ensures r.Ok? ==> forall k :: k in r.value <==> k in payments && payments[k].paymentStatus == status
    ensures r.Ok? ==> forall k :: k in r.value ==> r.value[k] == payments[k]
  {
    var found := Select(payments, (p: Payment) => p.paymentStatus == status);
    EmptyIffNoKeys(found);
    RequireRows(found, NoPaymentsWithStatus)
  }

  /** `isPaymentSuccessfulForBooking`: some payment of the booking has status exactly
      "Success" (case matters here, unlike for the ticket). */
  function IsPaymentSuccessfulForBooking(payments: map<int, Payment>, bookingId: int): (r: bool)
    ensures r <==> exists k :: k in payments && payments[k].bookingId == bookingId && payments[k].paymentStatus == "Success"
  {
    Exists(payments, (p: Payment) => p.bookingId == bookingId && p.paymentStatus == "Success")
  }

  /** When the booking has a single payment, it is successful exactly when that payment's
      status is "Success". */
  lemma SuccessfulIffThePaymentSucceeded(payments: map<int, Payment>, bookingId: int)
    requires GetPaymentByBookingId(payments, bookingId).Ok?
    ensures IsPaymentSuccessfulForBooking(payments, bookingId) <==>
      GetPaymentByBookingId(payments, bookingId).value.paymentStatus == "Success"
  {
    var p := GetPaymentByBookingId(payments, bookingId).value;
    var k :| k in payments && payments[k] == p &&
      forall j :: j in payments && payments[j].bookingId == bookingId ==> j == k;
    if IsPaymentSuccessfulForBooking(payments, bookingId) {
      var j :| j in payments && payments[j].bookingId == bookingId && payments[j].paymentStatus == "Success";
      assert j == k;
    }
  }

  /** The two checks disagree: a payment with status "SUCCESS" gets its ticket, yet the
      booking is not reported as successfully paid. */
  lemma TicketSentForUnsuccessfulBooking()
    ensures var p := Payment(1, 100.0, 0, "SUCCESS", "Card", 7);
      SendsTicket(p) && !IsPaymentSuccessfulForBooking(map[1 := p], 7)
  {
    var p := Payment(1, 100.0, 0, "SUCCESS", "Card", 7);
    assert JsText.ToLower(p.paymentStatus) == "success";
    assert JsText.ToLower("Success") == "success";
  }

  /** Within the status domain a validated DTO admits, the case-insensitive ticket check and
      the exact success check agree. */
  lemma ChecksAgreeOnValidatedStatuses(p: Payment)
    requires IsPaymentStatus(p.paymentStatus)
    ensures SendsTicket(p) <==> p.paymentStatus == "Success"
  {
    assert JsText.ToLower("Success") == "success";
    assert JsText.ToLower("Failed") == "failed";
    assert JsText.ToLower("Pending") == "pending";
    assert JsText.ToLower("Refunded") == "refunded";
  }
}
