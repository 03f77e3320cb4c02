/** The seat service: the per-bus seat catalogue, the seat statuses derived from the bookings
    of one travel day, and the guards on catalogue edits.

    The store keeps one status flag per seat, while availability is a property of a seat on
    a day. The date query writes the status it derives for the queried day onto the stored
    seats of the bus (inside the service's transaction the loaded seats are managed entities),
    and the later guards (bulk replacement, the marking done after a payment) read and write
    that same flag. */
module SeatService {
  import opened Wrappers
  import opened Entities
  import opened Tables
  import opened Database
  import Sequences

  datatype SeatDto = SeatDto(seatId: int, busId: int, seatNumber: string, seatType: string, seatStatus: string)

  /** `dto.toEntity(bus)`: the DTO's fields on a seat of the looked-up bus. */
  function ToEntity(dto: SeatDto, busId: int): Seat {
    Seat(dto.seatId, dto.seatNumber, dto.seatType, dto.seatStatus, busId)
  }

  /** `findByBusBusId(busId)`: the seat catalogue of one bus. */
  function BusSeats(seats: map<int, Seat>, busId: int): (r: map<int, Seat>)
    ensures forall k :: k in r <==> k in seats && seats[k].busId == busId
    ensures forall k :: k in r ==> r[k] == seats[k]
  {
    map k | k in seats && seats[k].busId == busId :: seats[k]
  }

  // ---------------------------------------------------------------------------------------
  // Status derived for one travel day

  /** A booking that holds its seats on `day`: one of bus `busId`, travelling that day, and
      with a status other than "Cancelled" (the booking query with the day's start, the next
      day's start and "Cancelled"; a booking without a status does not match it). */
  predicate HoldsSeatsOn(b: Booking, busId: int, day: int) {
    b.busId == busId && OnDay(b.travelDate, day) && StatusNotCancelled(b.status)
  }

  /** The union of the seat sets of the bookings that hold their seats on `day`. */
  function CommittedSeats(bookings: map<int, Booking>, busId: int, day: int): (r: set<int>)
    ensures forall id :: id in r <==>
      exists k :: k in bookings && HoldsSeatsOn(bookings[k], busId, day) && id in bookings[k].seats
  {
    set k, id | k in bookings && HoldsSeatsOn(bookings[k], busId, day) && id in bookings[k].seats :: id
  }

  function DerivedStatus(seatId: int, committed: set<int>): string {
    if seatId in committed then "Booked" else "Available"
  }

  /** The seat table after the date query has written the derived status onto every seat of
      the bus: a seat of the bus is "Booked" exactly when a committed booking holds it and
      "Available" otherwise; nothing else about any seat changes. */
  function WithDerivedStatus(seats: map<int, Seat>, busId: int, committed: set<int>): (r: map<int, Seat>)
    ensures r.Keys == seats.Keys
    ensures forall k :: k in seats && seats[k].busId != busId ==> r[k] == seats[k]
    ensures forall k :: k in seats && seats[k].busId == busId ==>
      && r[k] == seats[k].(seatStatus := r[k].seatStatus)
      && (r[k].seatStatus == "Booked" <==> k in committed)
      && IsSeatStatus(r[k].seatStatus)
  {
    map k | k in seats :: if seats[k].busId == busId then seats[k].(seatStatus := DerivedStatus(k, committed)) else seats[k]
  }

  /** The loop of the date query: the derived status is written onto each seat of the bus in
      turn. */
  method WriteDerivedStatus(st: Store, catalogue: set<int>, busId: int, committed: set<int>)
    requires catalogue == BusSeats(st.seats, busId).Keys
    modifies st`seats
    ensures st.seats == WithDerivedStatus(old(st.seats), busId, committed)
  {
    ghost var target := WithDerivedStatus(st.seats, busId, committed);
    var todo := catalogue;
    while todo != {}
      invariant todo <= catalogue
      invariant st.seats.Keys == target.Keys
      invariant forall k :: k in st.seats ==> st.seats[k] == if k in todo then old(st.seats)[k] else target[k]
      decreases |todo|
    {
      NonEmptyHasElement(todo);
      var k :| k in todo;
      st.seats := st.seats[k := st.seats[k].(seatStatus := DerivedStatus(k, committed))];
      todo := todo - {k};
    }
    assert forall k :: k in st.seats ==> st.seats[k] == target[k];
  }

  /** Rewriting statuses keeps every seat under its own id. */
  lemma DerivedStatusKeepsKeys(seats: map<int, Seat>, busId: int, committed: set<int>, identity: int)
    requires SeatsKeyed(seats, identity)
    ensures SeatsKeyed(WithDerivedStatus(seats, busId, committed), identity)
  {
  }

  /** `getSeatsByBusIdAndDate`: fails when the bus has no seats; otherwise rewrites the
      stored status of each seat of the bus for `day` and returns the bus's seats. */
  method GetSeatsByBusIdAndDate(st: Store, busId: int, day: int) returns (r: Outcome<map<int, Seat>>)
    requires st.Valid()
    modifies st`seats
    ensures st.Valid()
    ensures BusSeats(old(st.seats), busId) == map[] ==> r == Err(NoSeatsForBus) && st.seats == old(st.seats)
    ensures BusSeats(old(st.seats), busId) != map[] ==>
      && st.seats == WithDerivedStatus(old(st.seats), busId, CommittedSeats(st.bookings, busId, day))
      && r == Ok(BusSeats(st.seats, busId))
  {
    var catalogue := BusSeats(st.seats, busId);
    if catalogue == map[] {
      return Err(NoSeatsForBus);
    }
    var committed := CommittedSeats(st.bookings, busId, day);
    WriteDerivedStatus(st, catalogue.Keys, busId, committed);
    DerivedStatusKeepsKeys(old(st.seats), busId, committed, st.seatIdentity);
    r := Ok(BusSeats(st.seats, busId));
  }

  /** The query keeps the bus's catalogue: the same seats, only their status rewritten. */
  lemma DateQueryKeepsCatalogue(seats: map<int, Seat>, busId: int, committed: set<int>)
    ensures var after := BusSeats(WithDerivedStatus(seats, busId, committed), busId);
      && after.Keys == BusSeats(seats, busId).Keys
      && forall k :: k in after ==> after[k].(seatStatus := seats[k].seatStatus) == seats[k]
  {
  }

  /** The stored flags before the query play no part in what it reports: two tables that
      differ only in seat statuses give the same catalogue for the day. */
  lemma DateQueryIgnoresStoredFlags(s1: map<int, Seat>, s2: map<int, Seat>, busId: int, committed: set<int>)
    requires s1.Keys == s2.Keys
    requires forall k :: k in s1 ==> s1[k].(seatStatus := "") == s2[k].(seatStatus := "")
    ensures BusSeats(WithDerivedStatus(s1, busId, committed), busId) == BusSeats(WithDerivedStatus(s2, busId, committed), busId)
  {
    var v1 := BusSeats(WithDerivedStatus(s1, busId, committed), busId);
    var v2 := BusSeats(WithDerivedStatus(s2, busId, committed), busId);
    forall k | k in v1
      ensures v1[k] == v2[k]
    {
      assert s1[k].(seatStatus := "") == s2[k].(seatStatus := "");
    }
  }

  /** Only the most recent query is remembered: querying one day and then another leaves the
      flags the second query derives. */
  lemma LastDateQueryWins(seats: map<int, Seat>, busId: int, c1: set<int>, c2: set<int>)
    ensures WithDerivedStatus(WithDerivedStatus(seats, busId, c1), busId, c2) == WithDerivedStatus(seats, busId, c2)
  {
  }

  // ---------------------------------------------------------------------------------------
  // Availability of requested seats

  datatype AvailabilityReport = AvailabilityReport(
    allAvailable: bool,
    unavailableSeats: seq<int>,
    requestedSeats: seq<int>,
    busId: int,
    date: int)

  /** A seat of the queried catalogue whose status is "Booked". */
  predicate IsBookedIn(view: map<int, Seat>, seatId: int) {
    seatId in view && view[seatId].seatStatus == "Booked"
  }

  /** The requested ids, in request order and with repetitions, that name a booked seat. */
  function UnavailableSeats(view: map<int, Seat>, requested: seq<int>): (r: seq<int>)
    ensures Sequences.IsSubsequence(r, requested)
    ensures forall i :: 0 <= i < |r| ==> IsBookedIn(view, r[i]) && r[i] in requested
    ensures forall i :: 0 <= i < |requested| && IsBookedIn(view, requested[i]) ==> requested[i] in r
  {
    var booked := (id: int) => IsBookedIn(view, id);
    Sequences.FilterIsSubsequence(requested, booked);
    Sequences.Filter(requested, booked)
  }

  /** The result map of `verifySeatsAvailability`: the request, bus and date echoed back,
      the unavailable ids, and whether there are none. */
  function Availability(view: map<int, Seat>, busId: int, day: int, requested: seq<int>): (r: AvailabilityReport)
    ensures r.requestedSeats == requested && r.busId == busId && r.date == day
    ensures r.unavailableSeats == UnavailableSeats(view, requested)
    ensures r.allAvailable <==> forall i :: 0 <= i < |requested| ==> !IsBookedIn(view, requested[i])
  {
    var unavailable := UnavailableSeats(view, requested);
    AvailabilityReport(|unavailable| == 0, unavailable, requested, busId, day)
  }

  /** `verifySeatsAvailability`: runs the date query, then reports on the requested ids. */
  method VerifySeatsAvailability(st: Store, busId: int, day: int, seatIds: seq<int>) returns (r: Outcome<AvailabilityReport>)
    requires st.Valid()
    modifies st`seats
    ensures st.Valid()
    ensures BusSeats(old(st.seats), busId) == map[] ==> r == Err(NoSeatsForBus) && st.seats == old(st.seats)
    ensures BusSeats(old(st.seats), busId) != map[] ==>
      && st.seats == WithDerivedStatus(old(st.seats), busId, CommittedSeats(st.bookings, busId, day))
      && r == Ok(Availability(BusSeats(st.seats, busId), busId, day, seatIds))
  {
    var seats := GetSeatsByBusIdAndDate(st, busId, day);
    if seats.Err? {
      return Err(seats.error);
    }
    r := Ok(Availability(seats.value, busId, day, seatIds));
  }

  /** After the date query, a requested id is reported unavailable exactly when it is a seat
      of the bus held by a booking that travels that day and is not cancelled; in particular
      ids outside the bus's catalogue are never reported. */
  lemma UnavailableMeansCommitted(seats: map<int, Seat>, bookings: map<int, Booking>, busId: int, day: int, requested: seq<int>, id: int)
    ensures var view := BusSeats(WithDerivedStatus(seats, busId, CommittedSeats(bookings, busId, day)), busId);
      id in UnavailableSeats(view, requested) <==>
        id in requested && id in BusSeats(seats, busId) && id in CommittedSeats(bookings, busId, day)
  {
    var committed := CommittedSeats(bookings, busId, day);
    var view := BusSeats(WithDerivedStatus(seats, busId, committed), busId);
    var u := UnavailableSeats(view, requested);
    if id in u {
      var i :| 0 <= i < |u| && u[i] == id;
      assert IsBookedIn(view, u[i]);
    }
    if id in requested && id in BusSeats(seats, busId) && id in committed {
      var i :| 0 <= i < |requested| && requested[i] == id;
      assert IsBookedIn(view, requested[i]);
    }
  }

  // ---------------------------------------------------------------------------------------
  // Catalogue edits

  /** Seats of the same bus carry different numbers. */
  ghost predicate NumbersUniquePerBus(seats: map<int, Seat>) {
    forall j, k :: j in seats && k in seats && j != k && seats[j].busId == seats[k].busId ==>
      seats[j].seatNumber != seats[k].seatNumber
  }

  /** Some seat of the bus carries the number. */
  predicate NumberTaken(seats: map<int, Seat>, busId: int, number: string) {
    exists k :: k in seats && seats[k].busId == busId && seats[k].seatNumber == number
  }

  /** `findByBusBusIdAndSeatNumber(busId, number).isPresent()` as a failure: one match means
      the number is taken, several make the single-row query itself fail. */
  function DuplicateNumber(seats: map<int, Seat>, busId: int, number: string): (r: Option<Failure>)
    ensures r.None? <==> !NumberTaken(seats, busId, number)
    ensures r.Some? ==> r.value == SeatNumberExists || r.value == NonUniqueResult
    ensures NumbersUniquePerBus(seats) && r.Some? ==> r.value == SeatNumberExists
  {
    match FindUnique(seats, (s: Seat) => s.busId == busId && s.seatNumber == number)
    case NoRow => None
    case OneRow(_) => Some(SeatNumberExists)
    case ManyRows => Some(NonUniqueResult)
  }

  /** What `addSeat` returns: the bus must exist, the number must be free on that bus, and
      the seat is then saved under the save rule of the store. */
  function AddSeatOutcome(seats: map<int, Seat>, identity: int, buses: set<int>, dto: SeatDto): (r: Outcome<Seat>)
    ensures dto.busId !in buses ==> r == Err(BusNotFound)
    ensures dto.busId in buses && NumberTaken(seats, dto.busId, dto.seatNumber) ==>
      r.Err? && (r.error == SeatNumberExists || r.error == NonUniqueResult)
    ensures r.Ok? <==> dto.busId in buses && !NumberTaken(seats, dto.busId, dto.seatNumber)
    ensures r.Ok? ==> r.value == SavedSeat(seats, identity, ToEntity(dto, dto.busId))
  {
    if dto.busId !in buses then Err(BusNotFound)
    else match DuplicateNumber(seats, dto.busId, dto.seatNumber)
      case Some(f) => Err(f)
      case None => Ok(SavedSeat(seats, identity, ToEntity(dto, dto.busId)))
  }

  /** `addSeat`. */
  method AddSeat(st: Store, dto: SeatDto) returns (r: Outcome<Seat>)
    requires st.Valid()
    modifies st`seats, st`seatIdentity
    ensures st.Valid()
    ensures r == AddSeatOutcome(old(st.seats), old(st.seatIdentity), st.buses, dto)
    ensures r.Err? ==> st.seats == old(st.seats) && st.seatIdentity == old(st.seatIdentity)
    ensures r.Ok? ==> st.seats == old(st.seats)[r.value.seatId := r.value]
  {
    if dto.busId !in st.buses {
      return Err(BusNotFound);
    }
    var duplicate := DuplicateNumber(st.seats, dto.busId, dto.seatNumber);
    if duplicate.Some? {
      return Err(duplicate.value);
    }
    var saved := st.SaveSeat(ToEntity(dto, dto.busId));
    r := Ok(saved);
  }

  /** A successful `addSeat` keeps seat numbers unique within every bus. */
  lemma AddSeatKeepsNumbersUnique(seats: map<int, Seat>, identity: int, buses: set<int>, dto: SeatDto)
    requires SeatsKeyed(seats, identity) && NumbersUniquePerBus(seats)
    requires AddSeatOutcome(seats, identity, buses, dto).Ok?
    ensures var saved := AddSeatOutcome(seats, identity, buses, dto).value;
      NumbersUniquePerBus(seats[saved.seatId := saved])
  {
    var saved := AddSeatOutcome(seats, identity, buses, dto).value;
    var after := seats[saved.seatId := saved];
    forall j, k | j in after && k in after && j != k && after[j].busId == after[k].busId
      ensures after[j].seatNumber != after[k].seatNumber
    {
      if j == saved.seatId {
        assert k in seats && seats[k].busId == dto.busId;
      } else if k == saved.seatId {
        assert j in seats && seats[j].busId == dto.busId;
      }
    }
  }

  /** What `updateSeat` returns. The seat must exist; a changed number must be free on the
      bus the seat is currently on (an unchanged number is never checked); the target bus
      must exist; the DTO then overwrites the seat. */
  function UpdateSeatOutcome(seats: map<int, Seat>, buses: set<int>, dto: SeatDto): (r: Outcome<Seat>)
    ensures r == Err(SeatNotFound) <==> dto.seatId !in seats
    ensures r.Ok? ==> r.value == ToEntity(dto, dto.busId) && dto.busId in buses
    ensures r.Ok? && seats[dto.seatId].seatNumber != dto.seatNumber ==>
      !NumberTaken(seats, seats[dto.seatId].busId, dto.seatNumber)
    ensures (dto.seatId in seats && seats[dto.seatId].seatNumber != dto.seatNumber &&
             NumberTaken(seats, seats[dto.seatId].busId, dto.seatNumber)) ==>
      r == Err(SeatNumberExists) || r == Err(NonUniqueResult)
    ensures dto.seatId in seats && seats[dto.seatId].seatNumber == dto.seatNumber ==>
      r == if dto.busId in buses then Ok(ToEntity(dto, dto.busId)) else Err(BusNotFound)
  {
    if dto.seatId !in seats then Err(SeatNotFound)
    else
      var existing := seats[dto.seatId];
      var duplicate := if existing.seatNumber != dto.seatNumber
        then DuplicateNumber(seats, existing.busId, dto.seatNumber) else None;
      if duplicate.Some? then Err(duplicate.value)
      else if dto.busId !in buses then Err(BusNotFound)
      else Ok(ToEntity(dto, dto.busId))
  }

  /** `updateSeat`. */
  method UpdateSeat(st: Store, dto: SeatDto) returns (r: Outcome<Seat>)
    requires st.Valid()
    modifies st`seats, st`seatIdentity
    ensures st.Valid()
    ensures r == UpdateSeatOutcome(old(st.seats), st.buses, dto)
    ensures st.seatIdentity == old(st.seatIdentity)
    ensures st.seats == if r.Ok? then old(st.seats)[dto.seatId := r.value] else old(st.seats)
  {
    if dto.seatId !in st.seats {
      return Err(SeatNotFound);
    }
    var existing := st.seats[dto.seatId];
    if existing.seatNumber != dto.seatNumber {
      var duplicate := DuplicateNumber(st.seats, existing.busId, dto.seatNumber);
      if duplicate.Some? {
        return Err(duplicate.value);
      }
    }
    if dto.busId !in st.buses {
      return Err(BusNotFound);
    }
    var saved := st.SaveSeat(ToEntity(dto, dto.busId));
    r := Ok(saved);
  }

  /** An update that keeps the seat on its bus keeps seat numbers unique within every bus. */
  lemma UpdateSeatOnSameBusKeepsNumbersUnique(seats: map<int, Seat>, buses: set<int>, dto: SeatDto)
    requires NumbersUniquePerBus(seats)
    requires UpdateSeatOutcome(seats, buses, dto).Ok?
    requires seats[dto.seatId].busId == dto.busId
    ensures NumbersUniquePerBus(seats[dto.seatId := ToEntity(dto, dto.busId)])
  {
    var after := seats[dto.seatId := ToEntity(dto, dto.busId)];
    forall j, k | j in after && k in after && j != k && after[j].busId == after[k].busId
      ensures after[j].seatNumber != after[k].seatNumber
    {
      if j == dto.seatId {
        assert k in seats && seats[k].busId == dto.busId;
      } else if k == dto.seatId {
        assert j in seats && seats[j].busId == dto.busId;
      }
    }
  }

  /** The duplicate check looks at the bus the seat is on, not the bus the DTO names, and is
      skipped when the number is unchanged: moving seat 1 ("A1" on bus 1) to bus 2, which
      already has an "A1", succeeds and leaves bus 2 with two seats numbered "A1". */
  lemma UpdateSeatAcrossBusesCanDuplicate()
    ensures var seats := map[1 := Seat(1, "A1", "Window", "Available", 1), 2 := Seat(2, "A1", "Window", "Available", 2)];
      var dto := SeatDto(1, 2, "A1", "Window", "Available");
      && NumbersUniquePerBus(seats)
      && UpdateSeatOutcome(seats, {1, 2}, dto).Ok?
      && !NumbersUniquePerBus(seats[1 := ToEntity(dto, 2)])
  {
    var seats := map[1 := Seat(1, "A1", "Window", "Available", 1), 2 := Seat(2, "A1", "Window", "Available", 2)];
    var after := seats[1 := ToEntity(SeatDto(1, 2, "A1", "Window", "Available"), 2)];
    assert after[1].busId == after[2].busId && after[1].seatNumber == after[2].seatNumber;
  }

  // ---------------------------------------------------------------------------------------
  // Bulk replacement

  /** A seat table together with its identity counter. */
  datatype SeatTable = SeatTable(rows: map<int, Seat>, identity: int)

  /** The table after `save(s)`. */
  function SaveOne(t: SeatTable, s: Seat): SeatTable {
    var saved := SavedSeat(t.rows, t.identity, s);
    SeatTable(t.rows[saved.seatId := saved], if s.seatId in t.rows then t.identity else t.identity + 1)
  }

  /** The table after `saveAll(rows)`, saving the rows in list order. */
  function SaveAll(t: SeatTable, rows: seq<Seat>): SeatTable
    decreases |rows|
  {
    if rows == [] then t else SaveOne(SaveAll(t, rows[..|rows| - 1]), rows[|rows| - 1])
  }

  /** One seat of the bus per DTO, in DTO order. */
  function NewSeats(dtos: seq<SeatDto>, busId: int): (r: seq<Seat>)
    ensures |r| == |dtos|
    ensures forall i :: 0 <= i < |dtos| ==> r[i] == ToEntity(dtos[i], busId)
  {
    seq(|dtos|, i requires 0 <= i < |dtos| => ToEntity(dtos[i], busId))
  }

  /** Some seat of the catalogue carries the stored flag "Booked". */
  predicate HasBookedFlag(catalogue: map<int, Seat>) {
    exists k :: k in catalogue && catalogue[k].seatStatus == "Booked"
  }

  /** `bulkUpdateSeats`: the bus must exist; if any of its seats is flagged "Booked" nothing
      changes; otherwise its seats are deleted and one seat per DTO is saved. */
  method BulkUpdateSeats(st: Store, busId: int, dtos: seq<SeatDto>) returns (r: Outcome<()>)
    requires st.Valid()
    modifies st`seats, st`seatIdentity
    ensures st.Valid()
    ensures busId !in st.buses ==> r == Err(BusNotFound)
    ensures busId in st.buses && HasBookedFlag(BusSeats(old(st.seats), busId)) ==> r == Err(BulkUpdateWithBookedSeats)
    ensures r.Err? ==> st.seats == old(st.seats) && st.seatIdentity == old(st.seatIdentity)
    ensures busId in st.buses && !HasBookedFlag(BusSeats(old(st.seats), busId)) ==>
      && r == Ok(())
      && SeatTable(st.seats, st.seatIdentity) ==
         SaveAll(SeatTable(old(st.seats) - BusSeats(old(st.seats), busId).Keys, old(st.seatIdentity)), NewSeats(dtos, busId))
  {
    if busId !in st.buses {
      return Err(BusNotFound);
    }
    var existing := BusSeats(st.seats, busId);
    if existing != map[] {
      if HasBookedFlag(existing) {
        return Err(BulkUpdateWithBookedSeats);
      }
      st.seats := st.seats - existing.Keys;
    }
    assert st.seats == old(st.seats) - BusSeats(old(st.seats), busId).Keys;
    ghost var start := SeatTable(st.seats, st.seatIdentity);
    var rows := NewSeats(dtos, busId);
    var i := 0;
    while i < |rows|
      invariant 0 <= i <= |rows|
      invariant st.Valid()
      invariant SeatTable(st.seats, st.seatIdentity) == SaveAll(start, rows[..i])
    {
      assert rows[..i + 1][..i] == rows[..i];
      var _ := st.SaveSeat(rows[i]);
      i := i + 1;
    }
    assert rows[..|rows|] == rows;
    r := Ok(());
  }

  /** Saving rows whose ids are neither in the table nor ids the table will still generate
      inserts them under consecutive new ids and leaves every existing row alone. */
  lemma {:induction false} SaveAllInsertsFresh(t: SeatTable, rows: seq<Seat>)
    requires forall k :: k in t.rows ==> k < t.identity
    requires forall i :: 0 <= i < |rows| ==> rows[i].seatId !in t.rows && rows[i].seatId < t.identity
    ensures SaveAll(t, rows).identity == t.identity + |rows|
    ensures forall k :: k in SaveAll(t, rows).rows <==> k in t.rows || t.identity <= k < t.identity + |rows|
    ensures forall k :: k in t.rows ==> SaveAll(t, rows).rows[k] == t.rows[k]
    ensures forall i :: 0 <= i < |rows| ==> SaveAll(t, rows).rows[t.identity + i] == rows[i].(seatId := t.identity + i)
    decreases |rows|
  {
    if rows != [] {
      var init := rows[..|rows| - 1];
      SaveAllInsertsFresh(t, init);
      var before := SaveAll(t, init);
      var last := rows[|rows| - 1];
      assert last.seatId !in before.rows;
      var after := SaveAll(t, rows);
      assert after == SaveOne(before, last);
      assert after.rows == before.rows[before.identity := last.(seatId := before.identity)];
      forall i | 0 <= i < |rows|
        ensures after.rows[t.identity + i] == rows[i].(seatId := t.identity + i)
      {
        if i < |init| {
          assert init[i] == rows[i];
          assert before.rows[t.identity + i] == init[i].(seatId := t.identity + i);
        }
      }
    }
  }

  /** When no DTO reuses the id of a seat of another bus or an id not yet generated, the bus's
      catalogue after a bulk update is exactly one new seat per DTO, under consecutive new ids
      and in DTO order, and every seat of another bus is kept. */
  lemma BulkUpdateReplacesCatalogue(seats: map<int, Seat>, identity: int, busId: int, dtos: seq<SeatDto>)
    requires SeatsKeyed(seats, identity)
    requires forall i :: 0 <= i < |dtos| ==>
      dtos[i].seatId < identity && (dtos[i].seatId in seats ==> seats[dtos[i].seatId].busId == busId)
    ensures var after := SaveAll(SeatTable(seats - BusSeats(seats, busId).Keys, identity), NewSeats(dtos, busId));
      && after.identity == identity + |dtos|
      && (forall k :: k in BusSeats(after.rows, busId) <==> identity <= k < identity + |dtos|)
      && (forall i :: 0 <= i < |dtos| ==>
            identity + i in after.rows && after.rows[identity + i] == ToEntity(dtos[i], busId).(seatId := identity + i))
      && (forall k :: k in seats && seats[k].busId != busId ==> k in after.rows && after.rows[k] == seats[k])
  {
    var base := SeatTable(seats - BusSeats(seats, busId).Keys, identity);
    var rows := NewSeats(dtos, busId);
    SaveAllInsertsFresh(base, rows);
    var after := SaveAll(base, rows);
    forall k | k in base.rows
      ensures after.rows[k].busId != busId
    {
    }
    forall k | identity <= k < identity + |dtos|
      ensures k in BusSeats(after.rows, busId)
    {
      assert after.rows[identity + (k - identity)] == rows[k - identity].(seatId := k);
    }
  }

  // ---------------------------------------------------------------------------------------
  // Status changes and deletion

  /** `updateSeatStatus`: the status must be "Available" or "Booked" (checked first) and the
      seat must exist; only that seat's status changes. */
  method UpdateSeatStatus(st: Store, seatId: int, status: string) returns (r: Outcome<Seat>)
    requires st.Valid()
    modifies st`seats, st`seatIdentity
    ensures st.Valid()
    ensures st.seatIdentity == old(st.seatIdentity)
    ensures !IsSeatStatus(status) ==> r == Err(InvalidSeatStatus)
    ensures IsSeatStatus(status) && seatId !in old(st.seats) ==> r == Err(SeatNotFound)
    ensures r.Err? ==> st.seats == old(st.seats)
    ensures IsSeatStatus(status) && seatId in old(st.seats) ==>
      && r == Ok(old(st.seats)[seatId].(seatStatus := status))
      && st.seats == old(st.seats)[seatId := r.value]
  {
    if !IsSeatStatus(status) {
      return Err(InvalidSeatStatus);
    }
    if seatId !in st.seats {
      return Err(SeatNotFound);
    }
    var seat := st.seats[seatId].(seatStatus := status);
    var saved := st.SaveSeat(seat);
    r := Ok(saved);
  }

  /** Some booking with a status other than "Cancelled" holds the seat, on any day. */
  predicate HeldByLiveBooking(bookings: map<int, Booking>, seatId: int) {
    exists k :: k in bookings && seatId in bookings[k].seats && StatusNotCancelled(bookings[k].status)
  }

  /** `deleteSeat`: the seat must exist and no live booking may hold it; only that seat is
      removed. */
  method DeleteSeat(st: Store, seatId: int) returns (r: Outcome<string>)
    requires st.Valid()
    modifies st`seats
    ensures st.Valid()
    ensures seatId !in old(st.seats) ==> r == Err(SeatNotFound)
    ensures seatId in old(st.seats) && HeldByLiveBooking(st.bookings, seatId) ==> r == Err(SeatInActiveBooking)
    ensures r.Err? ==> st.seats == old(st.seats)
    ensures seatId in old(st.seats) && !HeldByLiveBooking(st.bookings, seatId) ==>
      r == Ok("Seat deleted successfully") && st.seats == old(st.seats) - {seatId}
  {
    if seatId !in st.seats {
      return Err(SeatNotFound);
    }
    if HeldByLiveBooking(st.bookings, seatId) {
      return Err(SeatInActiveBooking);
    }
    st.seats := st.seats - {seatId};
    r := Ok("Seat deleted successfully");
  }

  // ---------------------------------------------------------------------------------------
  // Marking seats booked

  /** The seat table after `markSeatsAsBooked(seatIds, busId)`: the seats of the bus whose
      ids are listed are flagged "Booked"; every other seat, including listed seats of other
      buses, is unchanged. */
  function MarkBooked(seats: map<int, Seat>, busId: int, seatIds: seq<int>): (r: map<int, Seat>)
    ensures r.Keys == seats.Keys
    ensures forall k :: k in seats && seats[k].busId == busId && k in seatIds ==>
      r[k] == seats[k].(seatStatus := "Booked")
    ensures forall k :: k in seats && !(seats[k].busId == busId && k in seatIds) ==> r[k] == seats[k]
  {
    map k | k in seats :: if seats[k].busId == busId && k in seatIds then seats[k].(seatStatus := "Booked") else seats[k]
  }

  /** `markSeatsAsBooked`. */
  method MarkSeatsAsBooked(st: Store, seatIds: seq<int>, busId: int)
    requires st.Valid()
    modifies st`seats
    ensures st.Valid()
    ensures st.seats == MarkBooked(old(st.seats), busId, seatIds)
  {
    WriteBookedFlags(st, BusSeats(st.seats, busId).Keys, seatIds, busId);
    MarkBookedKeepsKeys(old(st.seats), busId, seatIds, st.seatIdentity);
  }

  /** The loop of `markSeatsAsBooked`: each seat of the bus in turn is flagged "Booked" when
      its id is listed. */
  method WriteBookedFlags(st: Store, catalogue: set<int>, seatIds: seq<int>, busId: int)
    requires catalogue == BusSeats(st.seats, busId).Keys
    modifies st`seats
    ensures st.seats == MarkBooked(old(st.seats), busId, seatIds)
  {
    var todo := catalogue;
    ghost var target := MarkBooked(st.seats, busId, seatIds);
    while todo != {}
      invariant todo <= catalogue
      invariant st.seats.Keys == target.Keys
      invariant forall k :: k in st.seats ==> st.seats[k] == if k in todo then old(st.seats)[k] else target[k]
      decreases |todo|
    {
      NonEmptyHasElement(todo);
      var k :| k in todo;
      if k in seatIds {
        st.seats := st.seats[k := st.seats[k].(seatStatus := "Booked")];
      }
      todo := todo - {k};
    }
    assert forall k :: k in st.seats ==> st.seats[k] == target[k];
  }

  /** Flagging seats keeps every seat under its own id. */
  lemma MarkBookedKeepsKeys(seats: map<int, Seat>, busId: int, seatIds: seq<int>, identity: int)
    requires SeatsKeyed(seats, identity)
    ensures SeatsKeyed(MarkBooked(seats, busId, seatIds), identity)
  {
  }

  /** Marking the same seats twice is the same as marking them once. */
  lemma MarkBookedIdempotent(seats: map<int, Seat>, busId: int, seatIds: seq<int>)
    ensures MarkBooked(MarkBooked(seats, busId, seatIds), busId, seatIds) == MarkBooked(seats, busId, seatIds)
  {
  }

  /** Once a seat of the bus has been marked, bulk replacement of the bus's seats is refused. */
  lemma MarkedSeatBlocksBulkUpdate(seats: map<int, Seat>, busId: int, seatIds: seq<int>, k: int)
    requires k in seats && seats[k].busId == busId && k in seatIds
    ensures HasBookedFlag(BusSeats(MarkBooked(seats, busId, seatIds), busId))
  {
    assert k in BusSeats(MarkBooked(seats, busId, seatIds), busId);
  }

  /** A date query for a day on which no booking holds a seat clears its flag again, so a
      seat marked for one day no longer blocks bulk replacement once another day has been
      queried. */
  lemma DateQueryClearsMarks(seats: map<int, Seat>, busId: int, seatIds: seq<int>, k: int, committed: set<int>)
    requires k in seats && seats[k].busId == busId && k !in committed
    ensures WithDerivedStatus(MarkBooked(seats, busId, seatIds), busId, committed)[k].seatStatus == "Available"
  {
  }

  // ---------------------------------------------------------------------------------------
  // Finders

  /** `getSeatsByBusId`: the bus's seats, or a failure when it has none. */
  function GetSeatsByBusId(seats: map<int, Seat>, busId: int): (r: Outcome<map<int, Seat>>)
    ensures r.Err? <==> forall k :: k in seats ==> seats[k].busId != busId
    ensures r.Err? ==> r.error == NoSeatsForBus
    ensures r.Ok? ==> forall k :: k in r.value <==> k in seats && seats[k].busId == busId
    ensures r.Ok? ==> forall k :: k in r.value ==> r.value[k] == seats[k]
  {
    var found := BusSeats(seats, busId);
    EmptyIffNoKeys(found);
    RequireRows(found, NoSeatsForBus)
  }

  /** `getSeatsByBusIdAndSeatStatus`. */
  function GetSeatsByBusIdAndSeatStatus(seats: map<int, Seat>, busId: int, status: string): (r: Outcome<map<int, Seat>>)
    ensures r.Err? <==> forall k :: k in seats ==> !(seats[k].busId == busId && seats[k].seatStatus == status)
    ensures r.Err? ==> r.error == NoSeatsWithStatus
    ensures r.Ok? ==> forall k :: k in r.value <==> k in seats && seats[k].busId == busId && seats[k].seatStatus == status
    ensures r.Ok? ==> forall k :: k in r.value ==> r.value[k] == seats[k]
  {
    var found := Select(seats, (s: Seat) => s.busId == busId && s.seatStatus == status);
    EmptyIffNoKeys(found);
    RequireRows(found, NoSeatsWithStatus)
  }

  /** `getSeatsByBusIdAndSeatType`. */
  function GetSeatsByBusIdAndSeatType(seats: map<int, Seat>, busId: int, seatType: string): (r: Outcome<map<int, Seat>>)
    ensures r.Err? <==> forall k :: k in seats ==> !(seats[k].busId == busId && seats[k].seatType == seatType)
    ensures r.Err? ==> r.error == NoSeatsWithType
    ensures r.Ok? ==> forall k :: k in r.value <==> k in seats && seats[k].busId == busId && seats[k].seatType == seatType
    ensures r.Ok? ==> forall k :: k in r.value ==> r.value[k] == seats[k]
  {
    var found := Select(seats, (s: Seat) => s.busId == busId && s.seatType == seatType);
    EmptyIffNoKeys(found);
    RequireRows(found, NoSeatsWithType)
  }

  /** `getSeatsBySeatStatus`: matching seats of every bus. */
  function GetSeatsBySeatStatus(seats: map<int, Seat>, status: string): (r: Outcome<map<int, Seat>>)
    ensures r.Err? <==> forall k :: k in seats ==> seats[k].seatStatus != status
    ensures r.Err? ==> r.error == NoSeatsWithStatus
    ensures r.Ok? ==> forall k :: k in r.value <==> k in seats && seats[k].seatStatus == status
    ensures r.Ok? ==> forall k :: k in r.value ==> r.value[k] == seats[k]
  {
    var found := Select(seats, (s: Seat) => s.seatStatus == status);
    EmptyIffNoKeys(found);
    RequireRows(found, NoSeatsWithStatus)
  }

  /** `getSeatsBySeatType`: matching seats of every bus. */
  function GetSeatsBySeatType(seats: map<int, Seat>, seatType: string): (r: Outcome<map<int, Seat>>)
    ensures r.Err? <==> forall k :: k in seats ==> seats[k].seatType != seatType
    ensures r.Err? ==> r.error == NoSeatsWithType
    ensures r.Ok? ==> forall k :: k in r.value <==> k in seats && seats[k].seatType == seatType
    ensures r.Ok? ==> forall k :: k in r.value ==> r.value[k] == seats[k]
  {
    var found := Select(seats, (s: Seat) => s.seatType == seatType);
    EmptyIffNoKeys(found);
    RequireRows(found, NoSeatsWithType)
  }
}
