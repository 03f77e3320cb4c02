/** The persisted entities the Spring services work on, the failures they signal, and the
    time windows their queries use. Entities refer to each other by id (foreign keys), and
    every table is a map from id to row. */
module Entities {
  import opened Wrappers
  import JsText

  /** An instant: nanoseconds since the epoch. Day `d` is the half-open interval
      [d * NanosPerDay, (d + 1) * NanosPerDay). */
  type Instant = int

  const NanosPerDay: int := 86_400_000_000_000

  /** `travelDate.atStartOfDay()`. */
  function StartOfDay(day: int): Instant {
    day * NanosPerDay
  }

  /** `date.atTime(LocalTime.MAX)`: one nanosecond before the next day starts. */
  function EndOfDay(day: int): Instant {
    StartOfDay(day + 1) - 1
  }

  /** The window of the seat-availability query: from the start of the day up to, but not
      including, the start of the next day. */
  predicate OnDay(t: Instant, day: int) {
    StartOfDay(day) <= t < StartOfDay(day + 1)
  }

  /** The window of the refund total: `BETWEEN startOfDay AND endOfDay`, both inclusive. */
  predicate InRefundWindow(t: Instant, day: int) {
    StartOfDay(day) <= t <= EndOfDay(day)
  }

  /** At nanosecond resolution the inclusive refund window and the half-open booking window
      are the same set of instants. */
  lemma RefundWindowIsDay(t: Instant, day: int)
    ensures InRefundWindow(t, day) <==> OnDay(t, day)
  {
  }

  datatype User = User(userId: int, name: string, email: string)

  datatype Route = Route(routeId: int, busId: int, origin: string, destination: string)

  /** A row of the seat table. `seatStatus` is the stored flag that several operations write;
      a Java `null` status is the empty string (every use compares it with `equals`). */
  datatype Seat = Seat(seatId: int, seatNumber: string, seatType: string, seatStatus: string, busId: int)

  /** A row of the booking table; `seats` are the ids of the seats the booking holds. */
  datatype Booking = Booking(
    bookingId: int,
    userId: int,
    routeId: int,
    busId: int,
    travelDate: Instant,
    bookingDate: Instant,
    totalAmount: real,
    status: string,
    passengerCount: int,
    seats: set<int>)

  datatype Payment = Payment(
    paymentId: int,
    amountPaid: real,
    paymentDate: Instant,
    paymentStatus: string,
    paymentMethod: string,
    bookingId: int)

  datatype Cancellation = Cancellation(
    cancellationId: int,
    bookingId: int,
    cancellationDate: Instant,
    refundAmount: real,
    refundStatus: string,
    reason: string)

  /** Why an operation throws. Every case but the last two is a `ResourceNotFoundException`,
      whatever its message says. `RefundStatusRejected` is the database refusing a value that
      matches none of the refund-status column's ENUM members, ignoring case; `NonUniqueResult`
      is the exception a single-row derived query raises when several rows match. */
  datatype Failure =
    | BusNotFound
    | SeatNotFound
    | NoSeatsForBus
    | NoSeatsWithStatus
    | NoSeatsWithType
    | SeatNumberExists
    | BulkUpdateWithBookedSeats
    | InvalidSeatStatus
    | SeatInActiveBooking
    | UserNotFound
    | RouteNotFound
    | BookingNotFound
    | NoBookings
    | PaymentNotFound
    | NoPaymentsForUser
    | NoPaymentsWithStatus
    | RefundStatusRejected
    | NonUniqueResult

  type Outcome<T> = Result<T, Failure>

  /** Equality up to the case of ASCII letters: `String.equalsIgnoreCase`, and the comparison
      of a case-insensitive column collation. */
  predicate EqualsIgnoreCase(a: string, b: string) {
    JsText.ToLower(a) == JsText.ToLower(b)
  }

  /** The booking queries' `status <> 'Cancelled'`: SQL compares a NULL status (the empty
      string) with nothing, so a booking without a status is not counted as live. */
  predicate StatusNotCancelled(status: string) {
    status != "" && status != "Cancelled"
  }

  /** The seat statuses `updateSeatStatus` accepts. */
  predicate IsSeatStatus(s: string) {
    s == "Available" || s == "Booked"
  }

  /** The payment statuses `PaymentDto` admits. */
  predicate IsPaymentStatus(s: string) {
    s == "Success" || s == "Failed" || s == "Pending" || s == "Refunded"
  }

  /** The refund statuses the cancellation table's column admits. */
  predicate IsRefundStatus(s: string) {
    s == "Pending" || s == "Refunded" || s == "Rejected"
  }
}
