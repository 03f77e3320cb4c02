/** The booking service: creating a booking from a DTO (user and route lookups, passenger
    count, seat resolution), replacing and deleting bookings, and the booking finders. */
module BookingService {
  import opened Wrappers
  import opened Entities
  import opened Tables
  import opened Database
  import SeatService

  /** The booking fields the services read from a `BookingDto`. */
  datatype BookingDto = BookingDto(
    bookingId: int,
    userId: int,
    routeId: int,
    busId: int,
    travelDate: Instant,
    bookingDate: Instant,
    totalAmount: real,
    status: string,
    passengerCount: int,
    seatIds: seq<int>)

  /** `bookingDto.toEntity()`: the booking with the DTO's fields and references, no passenger
      count and no seats. */
  function ToEntity(dto: BookingDto): Booking {
    Booking(dto.bookingId, dto.userId, dto.routeId, dto.busId, dto.travelDate, dto.bookingDate,
            dto.totalAmount, dto.status, 0, {})
  }

  /** `seatRepository.findAllById(seatIds)`: the stored seats among the requested ids, with
      no check of their bus or of their availability. */
  function ResolveSeats(seats: map<int, Seat>, seatIds: seq<int>): (r: set<int>)
    ensures forall id :: id in r <==> id in seatIds && id in seats
  {
    set id | id in seatIds && id in seats
  }

  /** The booking `addBooking` saves. The user is looked up first, then the route, and either
      miss is an error. The DTO's own fields are copied. The passenger count is the DTO's
      when positive; otherwise it falls back to the size of the seat list the entity holds
      before the seat ids are resolved, which is empty, so the count is 0 whatever the seat
      ids are. The seats are the stored seats among the seat ids when there are any. */
  function NewBooking(users: map<int, User>, routes: map<int, Route>, seats: map<int, Seat>, dto: BookingDto): (r: Outcome<Booking>)
    ensures dto.userId !in users ==> r == Err(UserNotFound)
    ensures dto.userId in users && dto.routeId !in routes ==> r == Err(RouteNotFound)
    ensures r.Ok? <==> dto.userId in users && dto.routeId in routes
    ensures r.Ok? ==>
      && r.value.bookingId == dto.bookingId
      && r.value.userId == dto.userId && r.value.routeId == dto.routeId
      && r.value.busId == dto.busId && r.value.travelDate == dto.travelDate
      && r.value.bookingDate == dto.bookingDate && r.value.totalAmount == dto.totalAmount
      && r.value.status == dto.status
      && r.value.passengerCount == (if dto.passengerCount > 0 then dto.passengerCount else 0)
      && (forall id :: id in r.value.seats <==> id in dto.seatIds && id in seats)
  {
    if dto.userId !in users then Err(UserNotFound)
    else if dto.routeId !in routes then Err(RouteNotFound)
    else
      var booking := ToEntity(dto);
      var counted := booking.(passengerCount := if dto.passengerCount > 0 then dto.passengerCount else |booking.seats|);
      Ok(if |dto.seatIds| > 0 then counted.(seats := ResolveSeats(seats, dto.seatIds)) else counted)
  }

  /** `addBooking`. */
  method AddBooking(st: Store, dto: BookingDto) returns (r: Outcome<Booking>)
    requires st.Valid()
    modifies st`bookings, st`bookingIdentity
    ensures st.Valid()
    ensures NewBooking(st.users, st.routes, st.seats, dto).Err? ==>
      && r == NewBooking(st.users, st.routes, st.seats, dto)
      && st.bookings == old(st.bookings) && st.bookingIdentity == old(st.bookingIdentity)
    ensures NewBooking(st.users, st.routes, st.seats, dto).Ok? ==>
      && r == Ok(SavedBooking(old(st.bookings), old(st.bookingIdentity), NewBooking(st.users, st.routes, st.seats, dto).value))
      && st.bookings == old(st.bookings)[r.value.bookingId := r.value]
  {
    if dto.userId !in st.users {
      return Err(UserNotFound);
    }
    if dto.routeId !in st.routes {
      return Err(RouteNotFound);
    }
    var booking := ToEntity(dto);
    if dto.passengerCount > 0 {
      booking := booking.(passengerCount := dto.passengerCount);
    } else {
      booking := booking.(passengerCount := |booking.seats|);
    }
    if |dto.seatIds| > 0 {
      booking := booking.(seats := ResolveSeats(st.seats, dto.seatIds));
    }
    var saved := st.SaveBooking(booking);
    r := Ok(saved);
  }

  /** The seat ids never feed the passenger count: a booking with no positive count gets 0
      passengers even when it holds seats. */
  lemma PassengerCountIgnoresSeatIds(users: map<int, User>, routes: map<int, Route>, seats: map<int, Seat>, dto: BookingDto, seatIds: seq<int>)
    requires NewBooking(users, routes, seats, dto).Ok?
    ensures NewBooking(users, routes, seats, dto.(seatIds := seatIds)).Ok?
    ensures NewBooking(users, routes, seats, dto.(seatIds := seatIds)).value.passengerCount ==
            NewBooking(users, routes, seats, dto).value.passengerCount
    ensures dto.passengerCount <= 0 ==> NewBooking(users, routes, seats, dto).value.passengerCount == 0
  {
  }

  /** Nothing re-checks availability: a seat that a live booking already holds on the same
      bus and day is attached to the new booking as well, so both hold it on that day. */
  lemma DoubleBookingAccepted(users: map<int, User>, routes: map<int, Route>, seats: map<int, Seat>,
                              bookings: map<int, Booking>, dto: BookingDto, held: int, id: int, day: int)
    requires held in bookings && SeatService.HoldsSeatsOn(bookings[held], dto.busId, day) && id in bookings[held].seats
    requires id in seats && id in dto.seatIds
    requires dto.userId in users && dto.routeId in routes
    requires OnDay(dto.travelDate, day) && StatusNotCancelled(dto.status)
    ensures var b := NewBooking(users, routes, seats, dto).value;
      SeatService.HoldsSeatsOn(b, dto.busId, day) && id in b.seats
  {
  }

  /** `updateBooking`: the booking must exist, and is then replaced wholesale. */
  method UpdateBooking(st: Store, booking: Booking) returns (r: Outcome<Booking>)
    requires st.Valid()
    modifies st`bookings, st`bookingIdentity
    ensures st.Valid()
    ensures st.bookingIdentity == old(st.bookingIdentity)
    ensures booking.bookingId !in old(st.bookings) ==> r == Err(BookingNotFound) && st.bookings == old(st.bookings)
    ensures booking.bookingId in old(st.bookings) ==>
      r == Ok(booking) && st.bookings == old(st.bookings)[booking.bookingId := booking]
  {
    if booking.bookingId !in st.bookings {
      return Err(BookingNotFound);
    }
    var saved := st.SaveBooking(booking);
    r := Ok(saved);
  }

  /** `getBookingById`. */
  function GetBookingById(bookings: map<int, Booking>, bookingId: int): (r: Outcome<Booking>)
    ensures r.Err? <==> bookingId !in bookings
    ensures r.Err? ==> r.error == BookingNotFound
    ensures r.Ok? ==> r.value == bookings[bookingId]
  {
    if bookingId in bookings then Ok(bookings[bookingId]) else Err(BookingNotFound)
  }

  /** `getAllBookings`: every booking, or a failure when there is none. */
  function GetAllBookings(bookings: map<int, Booking>): (r: Outcome<map<int, Booking>>)
    ensures r.Err? <==> forall k :: k !in bookings
    ensures r.Err? ==> r.error == NoBookings
    ensures r.Ok? ==> r.value == bookings
  {
    EmptyIffNoKeys(bookings);
    RequireRows(bookings, NoBookings)
  }

  /** `deleteByBookingId`: the booking must exist; only it is removed. */
  method DeleteByBookingId(st: Store, bookingId: int) returns (r: Outcome<string>)
    requires st.Valid()
    modifies st`bookings
    ensures st.Valid()
    ensures bookingId !in old(st.bookings) ==> r == Err(BookingNotFound) && st.bookings == old(st.bookings)
    ensures bookingId in old(st.bookings) ==>
      r == Ok("Booking deleted successfully ") && st.bookings == old(st.bookings) - {bookingId}
  {
    if bookingId !in st.bookings {
      return Err(BookingNotFound);
    }
    st.bookings := st.bookings - {bookingId};
    r := Ok("Booking deleted successfully ");
  }

  /** After a deletion the booking is no longer found, and every other booking still is. */
  lemma DeletedBookingNotFound(bookings: map<int, Booking>, bookingId: int, other: int)
    requires other != bookingId
    ensures GetBookingById(bookings - {bookingId}, bookingId) == Err(BookingNotFound)
    ensures GetBookingById(bookings - {bookingId}, other) == GetBookingById(bookings, other)
  {
  }

  /** `findBookingsByUserEmail`: the bookings whose user has that email; empty when none. */
  function FindBookingsByUserEmail(users: map<int, User>, bookings: map<int, Booking>, email: string): (r: map<int, Booking>)
    ensures forall k :: k in r <==> k in bookings && bookings[k].userId in users && users[bookings[k].userId].email == email
    ensures forall k :: k in r ==> r[k] == bookings[k]
  {
    map k | k in bookings && bookings[k].userId in users && users[bookings[k].userId].email == email :: bookings[k]
  }
}
