/** The relational store behind the Spring repositories: one table per entity, each a map
    from id to row, and one identity counter per table that generates the ids of new rows.
    The `Save...` methods are the repositories' `save`: a row whose id is already in the
    table overwrites that row (JPA merge); any other row, including id 0, is inserted under
    the next identity value. */
module Database {
  import opened Entities

  /** The row `save(s)` writes to a table whose rows are `seats` and whose next identity
      value is `identity`. */
  function SavedSeat(seats: map<int, Seat>, identity: int, s: Seat): Seat {
    if s.seatId in seats then s else s.(seatId := identity)
  }

  function SavedBooking(bookings: map<int, Booking>, identity: int, b: Booking): Booking {
    if b.bookingId in bookings then b else b.(bookingId := identity)
  }

  function SavedPayment(payments: map<int, Payment>, identity: int, p: Payment): Payment {
    if p.paymentId in payments then p else p.(paymentId := identity)
  }

  function SavedCancellation(cancellations: map<int, Cancellation>, identity: int, c: Cancellation): Cancellation {
    if c.cancellationId in cancellations then c else c.(cancellationId := identity)
  }

  /** Every row is stored under its own id, and every id is below the identity counter. */
  ghost predicate SeatsKeyed(seats: map<int, Seat>, identity: int) {
    0 < identity && forall k :: k in seats ==> seats[k].seatId == k && 0 < k < identity
  }

  class Store {
    var buses: set<int>
    var users: map<int, User>
    var routes: map<int, Route>
    var seats: map<int, Seat>
    var bookings: map<int, Booking>
    var payments: map<int, Payment>
    var cancellations: map<int, Cancellation>
    var seatIdentity: int
    var bookingIdentity: int
    var paymentIdentity: int
    var cancellationIdentity: int

    ghost predicate Valid()
      reads this
    {
      && SeatsKeyed(seats, seatIdentity)
      && 0 < bookingIdentity
      && (forall k :: k in bookings ==> bookings[k].bookingId == k && 0 < k < bookingIdentity)
      && 0 < paymentIdentity
      && (forall k :: k in payments ==> payments[k].paymentId == k && 0 < k < paymentIdentity)
      && 0 < cancellationIdentity
      && (forall k :: k in cancellations ==> cancellations[k].cancellationId == k && 0 < k < cancellationIdentity)
    }

    /** A store with the given buses, users and routes and no seats, bookings, payments or
        cancellations. */
    constructor (buses: set<int>, users: map<int, User>, routes: map<int, Route>)
      ensures Valid()
      ensures this.buses == buses && this.users == users && this.routes == routes
      ensures seats == map[] && bookings == map[] && payments == map[] && cancellations == map[]
    {
      this.buses, this.users, this.routes := buses, users, routes;
      seats, bookings, payments, cancellations := map[], map[], map[], map[];
      seatIdentity, bookingIdentity, paymentIdentity, cancellationIdentity := 1, 1, 1, 1;
    }

    /** `seatRepository.save(s)`. */
    method SaveSeat(s: Seat) returns (saved: Seat)
      requires Valid()
      modifies this`seats, this`seatIdentity
      ensures Valid()
      ensures saved == SavedSeat(old(seats), old(seatIdentity), s)
      ensures seats == old(seats)[saved.seatId := saved]
      ensures seatIdentity == if s.seatId in old(seats) then old(seatIdentity) else old(seatIdentity) + 1
    {
      saved := SavedSeat(seats, seatIdentity, s);
      if s.seatId !in seats {
        seatIdentity := seatIdentity + 1;
      }
      seats := seats[saved.seatId := saved];
    }

    /** `bookingRepository.save(b)`. */
    method SaveBooking(b: Booking) returns (saved: Booking)
      requires Valid()
      modifies this`bookings, this`bookingIdentity
      ensures Valid()
      ensures saved == SavedBooking(old(bookings), old(bookingIdentity), b)
      ensures bookings == old(bookings)[saved.bookingId := saved]
      ensures bookingIdentity == if b.bookingId in old(bookings) then old(bookingIdentity) else old(bookingIdentity) + 1
    {
      saved := SavedBooking(bookings, bookingIdentity, b);
      if b.bookingId !in bookings {
        bookingIdentity := bookingIdentity + 1;
      }
      bookings := bookings[saved.bookingId := saved];
    }

    /** `paymentRepository.save(p)`. */
    method SavePayment(p: Payment) returns (saved: Payment)
      requires Valid()
      modifies this`payments, this`paymentIdentity
      ensures Valid()
      ensures saved == SavedPayment(old(payments), old(paymentIdentity), p)
      ensures payments == old(payments)[saved.paymentId := saved]
      ensures paymentIdentity == if p.paymentId in old(payments) then old(paymentIdentity) else old(paymentIdentity) + 1
    {
      saved := SavedPayment(payments, paymentIdentity, p);
      if p.paymentId !in payments {
        paymentIdentity := paymentIdentity + 1;
      }
      payments := payments[saved.paymentId := saved];
    }

    /** `cancellationRepository.save(c)`. */
    method SaveCancellation(c: Cancellation) returns (saved: Cancellation)
      requires Valid()
      modifies this`cancellations, this`cancellationIdentity
      ensures Valid()
      ensures saved == SavedCancellation(old(cancellations), old(cancellationIdentity), c)
      ensures cancellations == old(cancellations)[saved.cancellationId := saved]
      ensures cancellationIdentity ==
        if c.cancellationId in old(cancellations) then old(cancellationIdentity) else old(cancellationIdentity) + 1
    {
      saved := SavedCancellation(cancellations, cancellationIdentity, c);
      if c.cancellationId !in cancellations {
        cancellationIdentity := cancellationIdentity + 1;
      }
      cancellations := cancellations[saved.cancellationId := saved];
    }
  }
}
