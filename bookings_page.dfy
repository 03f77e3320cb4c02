/** The passenger's own bookings: which can be cancelled, the cancellation request sent for
    one, and the status badge. The request goes to the cancellation service; its outcome is a
    parameter. */
module BookingsPage {
  import opened Wrappers
  import JsText
  import ViewBookingsPage

  /** A booking as the page holds it. `nestedPaymentId` is `payment.paymentId` and
      `paymentId` the flat field; `0` stands for a missing (falsy) id. */
  datatype BookingRow = BookingRow(bookingId: int, status: string, totalAmount: real, nestedPaymentId: int, paymentId: int)

  /** `canCancelBooking`: only a booking whose status is exactly "Confirmed"; the Cancel
      button is drawn for those alone. */
  predicate CanCancelBooking(b: BookingRow): (r: bool)
    ensures r <==> GetStatusVariant(b.status) == "success"
  {
    b.status == "Confirmed"
  }

  /** The share of the fare refunded on cancellation. */
  const RefundShare: real := 0.8

  /** The refund asked for: 80% of the total, so that a fifth of it is withheld. */
  function RefundAmount(totalAmount: real): (r: real)
    ensures totalAmount - r == totalAmount / 5.0
  {
    totalAmount * RefundShare
  }

  /** The refund asked for never exceeds a non-negative total and is never negative. */
  lemma RefundWithinTotal(totalAmount: real)
    requires totalAmount >= 0.0
    ensures 0.0 <= RefundAmount(totalAmount) <= totalAmount
    ensures totalAmount > 0.0 ==> RefundAmount(totalAmount) < totalAmount
  {
  }

  /** `payment?.paymentId || paymentId`: the nested id when there is one, else the flat one. */
  function PaymentIdFor(b: BookingRow): (id: int)
    ensures b.nestedPaymentId != 0 ==> id == b.nestedPaymentId
    ensures b.nestedPaymentId == 0 ==> id == b.paymentId
  {
    if b.nestedPaymentId != 0 then b.nestedPaymentId else b.paymentId
  }

  /** The cancellation data `confirmCancellation` sends. */
  datatype CancellationRequest = CancellationRequest(bookingId: int, paymentId: int, refundAmount: real, reason: string)

  /** The request for the selected booking and the reason typed. */
  function CancellationRequestFor(b: BookingRow, reason: string): (r: CancellationRequest)
    ensures r.bookingId == b.bookingId && r.reason == reason
    ensures r.paymentId == PaymentIdFor(b)
    ensures r.refundAmount == RefundAmount(b.totalAmount)
  {
    CancellationRequest(b.bookingId, PaymentIdFor(b), RefundAmount(b.totalAmount), reason)
  }

  /** The page state `confirmCancellation` changes. */
  datatype PageState = PageState(successMessage: string, error: string, showCancelModal: bool, reason: string)

  /** What `confirmCancellation` does: the new state and whether the bookings are reloaded. */
  datatype ConfirmResult = ConfirmResult(state: PageState, reload: bool)

  /** `confirmCancellation`, with `outcome` the answer of the cancellation call (its failure
      message, possibly empty, or success): success reports the request, closes the dialog,
      clears the reason and reloads; failure shows the message, or a fixed one when it is
      empty, and keeps the dialog open. */
  function ConfirmCancellation(st: PageState, outcome: Result<(), string>): (r: ConfirmResult)
    ensures outcome.Ok? ==> r.reload && !r.state.showCancelModal && r.state.reason == ""
    ensures outcome.Ok? ==> r.state.successMessage == "Booking cancelled successfully. Refund request submitted."
    ensures outcome.Ok? ==> r.state.error == st.error
    ensures outcome.Err? ==> !r.reload && r.state.successMessage == st.successMessage
    ensures outcome.Err? ==> r.state.showCancelModal == st.showCancelModal && r.state.reason == st.reason
    ensures outcome.Err? ==> r.state.error == if outcome.error != "" then outcome.error else "Failed to cancel booking"
  {
    match outcome
    case Ok(_) =>
      ConfirmResult(st.(successMessage := "Booking cancelled successfully. Refund request submitted.",
                        showCancelModal := false, reason := ""), true)
    case Err(message) =>
      ConfirmResult(st.(error := if message != "" then message else "Failed to cancel booking"), false)
  }

  /** `getStatusVariant` of this page: the badge colour by the exact status. */
  function GetStatusVariant(status: string): (r: string)
    ensures r in {"success", "warning", "danger", "info", "secondary"}
    ensures r == "secondary" <==> status !in {"Confirmed", "Pending", "Cancelled", "Refunded"}
  {
    if status == "Confirmed" then "success"
    else if status == "Pending" then "warning"
    else if status == "Cancelled" then "danger"
    else if status == "Refunded" then "info"
    else "secondary"
  }

  /** On the four statuses as the server writes them, this page and the operator's list
      show the same badge. */
  lemma StatusVariantsAgreeOnServerStatuses(status: string)
    requires status in {"Confirmed", "Pending", "Cancelled", "Refunded"}
    ensures GetStatusVariant(status) == ViewBookingsPage.GetStatusVariant(status)
  {
    assert JsText.ToLower("Confirmed") == "confirmed";
    assert JsText.ToLower("Pending") == "pending";
    assert JsText.ToLower("Cancelled") == "cancelled";
    assert JsText.ToLower("Refunded") == "refunded";
  }

  /** The two pages disagree on a status in another case: "confirmed" is a plain badge here
      and a success badge in the operator's list. */
  lemma StatusVariantsDifferInCase()
    ensures GetStatusVariant("confirmed") == "secondary"
    ensures ViewBookingsPage.GetStatusVariant("confirmed") == "success"
  {
    assert JsText.ToLower("confirmed") == "confirmed";
  }
}
