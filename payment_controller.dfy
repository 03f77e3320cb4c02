/** `processPayment`: one request that creates a booking, records its payment and marks the
    booked seats. Each step is committed on its own; there is no enclosing transaction. */
module PaymentController {
  import opened Wrappers
  import opened Entities
  import opened Database
  import opened BookingService
  import opened PaymentService
  import SeatService

  /** The response map, with exactly the keys "booking" and "payment". */
  datatype Response = Response(booking: Booking, payment: Payment)

  /** `processPayment`. A failed booking stops the request before anything is recorded. The
      payment is linked to the saved booking. Seats are marked only when seat ids were sent,
      on the bus the DTO names, whatever the payment's status. */
  method ProcessPayment(st: Store, bookingDto: BookingDto, paymentDto: PaymentDto, now: Instant, mailerSucceeds: bool)
    returns (r: Outcome<Response>, delivery: Delivery)
    requires st.Valid()
    modifies st`bookings, st`bookingIdentity, st`payments, st`paymentIdentity, st`seats
    ensures st.Valid()
    ensures NewBooking(st.users, st.routes, old(st.seats), bookingDto).Err? ==>
      && r == Err(NewBooking(st.users, st.routes, old(st.seats), bookingDto).error)
      && delivery == NotAttempted
      && st.bookings == old(st.bookings) && st.bookingIdentity == old(st.bookingIdentity)
      && st.payments == old(st.payments) && st.paymentIdentity == old(st.paymentIdentity)
      && st.seats == old(st.seats)
    ensures NewBooking(st.users, st.routes, old(st.seats), bookingDto).Ok? ==>
      var b := SavedBooking(old(st.bookings), old(st.bookingIdentity), NewBooking(st.users, st.routes, old(st.seats), bookingDto).value);
      var p := NewPayment(paymentDto, b.bookingId, now).(paymentId := old(st.paymentIdentity));
      && r == Ok(Response(b, p))
      && st.bookings == old(st.bookings)[b.bookingId := b]
      && st.payments == old(st.payments)[p.paymentId := p]
      && st.seats == SeatService.MarkBooked(old(st.seats), bookingDto.busId, bookingDto.seatIds)
      && delivery == (if !SendsTicket(p) then NotAttempted else if mailerSucceeds then Sent else SendFailed)
  {
    var booking := AddBooking(st, bookingDto);
    if booking.Err? {
      return Err(booking.error), NotAttempted;
    }
    var payment;
    payment, delivery := CreatePayment(st, paymentDto, booking.value, now, mailerSucceeds);
    if |bookingDto.seatIds| > 0 {
      SeatService.MarkSeatsAsBooked(st, bookingDto.seatIds, bookingDto.busId);
    } else {
      MarkingNothingChangesNothing(st.seats, bookingDto.busId);
    }
    r := Ok(Response(booking.value, payment));
  }

  /** The guard on empty seat ids changes nothing: marking no seats leaves the table as it is. */
  lemma MarkingNothingChangesNothing(seats: map<int, Seat>, busId: int)
    ensures SeatService.MarkBooked(seats, busId, []) == seats
  {
  }

  /** The booking and the marking read the seat ids differently: the booking holds every
      stored seat among the ids, whatever its bus, while the marking only touches seats of
      the DTO's bus. A seat of bus 2 sent with a booking of bus 1 ends up held by the booking
      and still "Available". */
  lemma SeatOfOtherBusHeldButNotMarked()
    ensures var seats := map[5 := Seat(5, "A1", "Window", "Available", 2)];
      var dto := BookingDto(0, 1, 1, 1, 0, 0, 500.0, "Confirmed", 1, [5]);
      var users := map[1 := User(1, "Asha", "asha@example.com")];
      var routes := map[1 := Route(1, 1, "Chennai", "Madurai")];
      && NewBooking(users, routes, seats, dto).Ok?
      && 5 in NewBooking(users, routes, seats, dto).value.seats
      && SeatService.MarkBooked(seats, dto.busId, dto.seatIds)[5].seatStatus == "Available"
  {
    var seats := map[5 := Seat(5, "A1", "Window", "Available", 2)];
    var dto := BookingDto(0, 1, 1, 1, 0, 0, 500.0, "Confirmed", 1, [5]);
    assert 5 in dto.seatIds;
  }
}
