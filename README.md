# FastX seat inventory, bookings, payments and cancellations in Dafny

FastX is a bus-ticket reservation system: a Spring back end over a relational store and
React pages in front of it. This project models its seat-inventory and booking core and
proves properties of that model. The core covers:

- the seat catalogue of each bus, and the seat statuses derived for a travel date from the
  bookings of that day;
- the booking ledger: creating, replacing, deleting and finding bookings;
- recording a payment, the e-ticket decision that follows it, and the payment finders;
- the one request that books, pays and marks seats;
- storing cancellations and totalling a day's refunds;
- the client pages:
  - the seat grid and the seat selection;
  - the operator's seat editor;
  - the payment form and the registration form, with their validators and formatters;
  - the operator's booking list;
  - the duration shown in the bus list;
  - the cancellation request on the passenger's bookings page.

The store (`Database.Store`) is a class with one map per table and one identity counter
per table of seats, bookings, payments and cancellations. Every one of these keys is taken
to be generated by the database. Seat.java:29-30 declares this; for the other three it is an
assumption (see "## Left out"). Its `save` methods follow the JPA rule for a generated key:

- a row whose id is already stored replaces that row;
- any other row is inserted under the next generated id.

The services are methods on the store, and each `modifies` only the tables it writes. Its
`ensures` gives the new tables as a function of the old ones. The finders are functions
over the maps. The pages are functions from a page state and the outcome of each server
call to the new state and the requests issued. The parts that loop are methods with loop
invariants:

- the date query;
- marking seats as booked;
- the bulk seat replacement;
- grouping seats into rows and building the generated seat layout;
- the two form validators.

Where the code departs from what its names and comments suggest, the model follows the code:

- **Availability is written back.** The date query derives each seat's status for the day
  and then writes it into the bus-wide stored flag (`SeatService.LastDateQueryWins`,
  `SeatService.DateQueryClearsMarks`).
- **No availability check on booking.** `addBooking` does not re-check that the seats are
  free (`BookingService.DoubleBookingAccepted`).
- **The bus of a seat is not checked.** `addBooking` accepts seats of another bus, which
  the seat marking then leaves untouched (`PaymentController.SeatOfOtherBusHeldButNotMarked`).
- **The passenger count is never taken from the seats.** Its fallback is always 0
  (`BookingService.PassengerCountIgnoresSeatIds`).
- **Numbers are checked on the current bus.** `updateSeat` looks for a duplicate seat
  number on the bus the seat is on now (`SeatService.UpdateSeatAcrossBusesCanDuplicate`).
- **The refund is fixed.** It is 80% of the total amount, with no cutoff policy.
- **Each step commits on its own.** No operation of `processPayment` is wrapped in a
  transaction with the others.
- **Some finders do not match their declarations.** `PaymentRepository` declares
  `findByBookingBookingId` as returning a `Payment`. Yet `getPaymentByBookingId` calls
  `orElseThrow` on its result (PaymentRepository.java:12, PaymentServiceImpl.java:216-217).
  The model reads that finder as returning an optional row
  (`PaymentService.GetPaymentByBookingId`).
- **Three queries are not declared.** `BookingRepository` declares neither the day query
  `findByBusBusIdAndTravelDateAndStatusNot` nor `existsBySeatIdAndStatusNot`
  (SeatServiceImpl.java:104-105 and 205). `SeatRepository` does not declare
  `findByBusBusIdAndSeatNumber` (SeatServiceImpl.java:46 and 65). All three are modelled as
  the queries their names and arguments describe, the last as an optional single row
  (`SeatService.DuplicateNumber`). Their `status <> 'Cancelled'` does not match a booking whose status is
  NULL, so such a booking holds no seat (`Entities.StatusNotCancelled`).
- **A seat conflict empties the seat grid.** After a failed availability check the seat
  page fetches the seats again. The service already answers with the seat array, whose
  `data` is undefined, so the page falls back to no seats at all
  (`SeatsPage.ConflictLeavesNoRows`).

## Model

| member | source | states |
|---|---|---|
| Database.Store.SaveSeat | src/main/java/com/hexaware/fastx/repository/SeatRepository.java:7 | saving a seat replaces the row with its id if stored, else inserts it under the next identity; the table stays keyed by id below the counter |
| Database.Store.SaveBooking | src/main/java/com/hexaware/fastx/repository/BookingRepository.java:9 | the same save rule for bookings |
| Database.Store.SavePayment | src/main/java/com/hexaware/fastx/repository/PaymentRepository.java:10 | the same save rule for payments |
| Database.Store.SaveCancellation | src/main/java/com/hexaware/fastx/repository/CancellationRepository.java:13 | the same save rule for cancellations |
| Entities.RefundWindowIsDay | src/main/java/com/hexaware/fastx/service/CancellationServiceImpl.java:47-51 | the inclusive start-to-end-of-day window of the refund total is exactly the half-open day window of the seat query |
| SeatService.BusSeats | src/main/java/com/hexaware/fastx/service/SeatServiceImpl.java:95 | the catalogue of a bus is exactly the stored seats of that bus, unchanged |
| SeatService.CommittedSeats | src/main/java/com/hexaware/fastx/service/SeatServiceImpl.java:100-112 | a seat is committed exactly when a booking of the bus, travelling that day, with a status that is set and is not "Cancelled", holds it |
| SeatService.WithDerivedStatus | src/main/java/com/hexaware/fastx/service/SeatServiceImpl.java:115-121 | every seat of the bus gets "Booked" when committed and "Available" otherwise; all other seats and all keys stay as they were |
| SeatService.GetSeatsByBusIdAndDate | src/main/java/com/hexaware/fastx/service/SeatServiceImpl.java:91-124 | fails leaving the table untouched when the bus has no seats; otherwise writes the derived statuses and returns the bus's seats as written |
| SeatService.DateQueryKeepsCatalogue | src/main/java/com/hexaware/fastx/service/SeatServiceImpl.java:115-121 | the query returns the same seat ids as the catalogue, each seat changed in its status only |
| SeatService.DateQueryIgnoresStoredFlags | src/main/java/com/hexaware/fastx/service/SeatServiceImpl.java:115-121 | two tables that differ only in their stored flags give the same answer |
| SeatService.LastDateQueryWins | src/main/java/com/hexaware/fastx/service/SeatServiceImpl.java:115-121 | a second date query overwrites everything the first wrote |
| SeatService.UnavailableSeats | src/main/java/com/hexaware/fastx/service/SeatServiceImpl.java:135-140 | the unavailable ids are the requested ids naming a booked seat, in request order, and no others |
| SeatService.Availability | src/main/java/com/hexaware/fastx/service/SeatServiceImpl.java:142-146 | echoes the request, bus and date; all-available holds exactly when no requested seat is booked |
| SeatService.VerifySeatsAvailability | src/main/java/com/hexaware/fastx/service/SeatServiceImpl.java:128-149 | fails on a bus without seats; otherwise runs the date query and reports on the requested ids |
| SeatService.UnavailableMeansCommitted | src/main/java/com/hexaware/fastx/service/SeatServiceImpl.java:128-149 | after the query a requested id is reported unavailable exactly when it is a seat of the bus committed on that day |
| SeatService.DuplicateNumber | src/main/java/com/hexaware/fastx/service/SeatServiceImpl.java:46-50 | the duplicate check fails exactly when the bus already has a seat with the number; a second match is a non-unique-result error |
| SeatService.AddSeatOutcome | src/main/java/com/hexaware/fastx/service/SeatServiceImpl.java:41-54 | unknown bus, then taken number, fail; otherwise the saved seat is the DTO's seat on that bus |
| SeatService.AddSeat | src/main/java/com/hexaware/fastx/service/SeatServiceImpl.java:41-54 | returns that outcome; a failure changes nothing and a success stores exactly the saved seat |
| SeatService.AddSeatKeepsNumbersUnique | src/main/java/com/hexaware/fastx/service/SeatServiceImpl.java:46-50 | a successful add keeps seat numbers unique within every bus |
| SeatService.UpdateSeatOutcome | src/main/java/com/hexaware/fastx/service/SeatServiceImpl.java:57-76 | a missing seat fails; a changed number must be free on the seat's current bus; then the bus must exist |
| SeatService.UpdateSeat | src/main/java/com/hexaware/fastx/service/SeatServiceImpl.java:57-76 | returns that outcome and replaces only that seat on success; the identity counter is unchanged |
| SeatService.UpdateSeatOnSameBusKeepsNumbersUnique | src/main/java/com/hexaware/fastx/service/SeatServiceImpl.java:64-71 | an update that keeps the seat on its bus keeps numbers unique per bus |
| SeatService.UpdateSeatAcrossBusesCanDuplicate | src/main/java/com/hexaware/fastx/service/SeatServiceImpl.java:64-71 | example: moving a seat to another bus can create a duplicate number there |
| SeatService.NewSeats | src/main/java/com/hexaware/fastx/service/SeatServiceImpl.java:173-180 | one seat of the bus per DTO, in DTO order |
| SeatService.BulkUpdateSeats | src/main/java/com/hexaware/fastx/service/SeatServiceImpl.java:153-181 | unknown bus, then a seat flagged "Booked", fail and change nothing; otherwise the bus's seats are deleted and the new ones saved in order |
| SeatService.SaveAllInsertsFresh | src/main/java/com/hexaware/fastx/service/SeatServiceImpl.java:180 | saving fresh rows inserts each under the next identity, in order, and keeps every old row |
| SeatService.BulkUpdateReplacesCatalogue | src/main/java/com/hexaware/fastx/service/SeatServiceImpl.java:169-180 | the bus's catalogue afterwards is exactly the new seats, and other buses' seats are untouched |
| SeatService.UpdateSeatStatus | src/main/java/com/hexaware/fastx/service/SeatServiceImpl.java:184-196 | a status other than "Available"/"Booked" fails first, then a missing seat; otherwise only that seat's status changes |
| SeatService.DeleteSeat | src/main/java/com/hexaware/fastx/service/SeatServiceImpl.java:199-212 | a missing seat, or one held by a booking whose status is set and is not "Cancelled", fails and changes nothing; otherwise only that seat is removed |
| SeatService.MarkBooked | src/main/java/com/hexaware/fastx/service/SeatServiceImpl.java:259-265 | the seats of the bus among the ids become "Booked"; every other seat and every key is unchanged |
| SeatService.MarkSeatsAsBooked | src/main/java/com/hexaware/fastx/service/SeatServiceImpl.java:255-269 | the new seat table is that marking of the old one |
| SeatService.MarkBookedIdempotent | src/main/java/com/hexaware/fastx/service/SeatServiceImpl.java:259-265 | marking twice is marking once |
| SeatService.MarkedSeatBlocksBulkUpdate | src/main/java/com/hexaware/fastx/service/SeatServiceImpl.java:160-167 | once a seat of the bus is marked, bulk replacement is refused |
| SeatService.DateQueryClearsMarks | src/main/java/com/hexaware/fastx/service/SeatServiceImpl.java:115-121 | a date query on which the seat is not committed resets a mark to "Available" |
| SeatService.GetSeatsByBusId | src/main/java/com/hexaware/fastx/service/SeatServiceImpl.java:81-88 | the bus's seats, failing exactly when it has none |
| SeatService.GetSeatsByBusIdAndSeatStatus | src/main/java/com/hexaware/fastx/service/SeatServiceImpl.java:215-222 | the bus's seats with that stored status, failing exactly when none |
| SeatService.GetSeatsByBusIdAndSeatType | src/main/java/com/hexaware/fastx/service/SeatServiceImpl.java:225-232 | the bus's seats of that type, failing exactly when none |
| SeatService.GetSeatsBySeatStatus | src/main/java/com/hexaware/fastx/service/SeatServiceImpl.java:235-242 | the seats of every bus with that status, failing exactly when none |
| SeatService.GetSeatsBySeatType | src/main/java/com/hexaware/fastx/service/SeatServiceImpl.java:245-252 | the seats of every bus of that type, failing exactly when none |
| BookingService.ResolveSeats | src/main/java/com/hexaware/fastx/service/BookingServiceImpl.java:84 | the booking holds exactly the requested ids that name a stored seat, of any bus |
| BookingService.NewBooking | src/main/java/com/hexaware/fastx/service/BookingServiceImpl.java:62-89 | unknown user, then unknown route, fail; otherwise the DTO's fields, passenger count the DTO's when positive else 0, and the resolved seats |
| BookingService.AddBooking | src/main/java/com/hexaware/fastx/service/BookingServiceImpl.java:62-89 | a failure stores nothing; a success saves exactly that booking |
| BookingService.PassengerCountIgnoresSeatIds | src/main/java/com/hexaware/fastx/service/BookingServiceImpl.java:76-80 | the passenger count does not depend on the seat ids and is 0 without a positive count |
| BookingService.DoubleBookingAccepted | src/main/java/com/hexaware/fastx/service/BookingServiceImpl.java:83-86 | a seat that a live booking (status set and not "Cancelled") holds on the same bus and day is held by the new booking too |
| BookingService.UpdateBooking | src/main/java/com/hexaware/fastx/service/BookingServiceImpl.java:92-99 | a missing booking fails and changes nothing; otherwise the booking is replaced wholesale |
| BookingService.GetBookingById | src/main/java/com/hexaware/fastx/service/BookingServiceImpl.java:102-105 | the stored booking, failing exactly when there is none |
| BookingService.GetAllBookings | src/main/java/com/hexaware/fastx/service/BookingServiceImpl.java:108-115 | every booking, failing exactly when there is none |
| BookingService.DeleteByBookingId | src/main/java/com/hexaware/fastx/service/BookingServiceImpl.java:118-125 | a missing booking fails; otherwise only it is removed |
| BookingService.DeletedBookingNotFound | src/main/java/com/hexaware/fastx/service/BookingServiceImpl.java:118-125 | after deletion the booking is not found and every other lookup is unchanged |
| BookingService.FindBookingsByUserEmail | src/main/java/com/hexaware/fastx/service/BookingServiceImpl.java:128-130 | exactly the bookings whose user has that e-mail |
| PaymentService.NewPayment | src/main/java/com/hexaware/fastx/service/PaymentServiceImpl.java:61-68 | amount, status and method from the DTO, linked to the booking, dated by the DTO or else now |
| PaymentService.CreatePayment | src/main/java/com/hexaware/fastx/service/PaymentServiceImpl.java:59-82 | stores that payment under the next identity; the ticket is attempted exactly for status "success" in any case, and a mail failure does not fail the payment |
| PaymentService.GetPaymentByBookingId | src/main/java/com/hexaware/fastx/service/PaymentServiceImpl.java:215-218 | the booking's only payment; not found exactly when it has none, non-unique when it has two |
| PaymentService.GetPaymentsByUserId | src/main/java/com/hexaware/fastx/service/PaymentServiceImpl.java:221-227 | the payments of the user's bookings, failing exactly when none |
| PaymentService.GetPaymentsByPaymentStatus | src/main/java/com/hexaware/fastx/service/PaymentServiceImpl.java:230-236 | the payments with exactly that status, failing exactly when none |
| PaymentService.IsPaymentSuccessfulForBooking | src/main/java/com/hexaware/fastx/service/PaymentServiceImpl.java:244-246 | true exactly when some payment of the booking has status exactly "Success" |
| PaymentService.SuccessfulIffThePaymentSucceeded | src/main/java/com/hexaware/fastx/service/PaymentServiceImpl.java:244-246 | with a single payment, the booking is paid exactly when that payment's status is "Success" |
| PaymentService.TicketSentForUnsuccessfulBooking | src/main/java/com/hexaware/fastx/service/PaymentServiceImpl.java:73 | status "SUCCESS" sends a ticket although the booking does not count as paid |
| PaymentService.ChecksAgreeOnValidatedStatuses | src/main/java/com/hexaware/fastx/dto/PaymentDto.java:37-39 | on the statuses a validated DTO admits, the ticket check and the paid check agree |
| PaymentController.ProcessPayment | src/main/java/com/hexaware/fastx/restcontroller/PaymentRestController.java:55-86 | a failed booking changes nothing; otherwise the booking is saved, its payment stored and the DTO's seats of the DTO's bus marked, and both are returned |
| PaymentController.MarkingNothingChangesNothing | src/main/java/com/hexaware/fastx/restcontroller/PaymentRestController.java:72-79 | the empty-ids guard changes nothing: marking no seats is the identity |
| PaymentController.SeatOfOtherBusHeldButNotMarked | src/main/java/com/hexaware/fastx/restcontroller/PaymentRestController.java:72-79 | a seat of another bus is held by the booking but stays "Available" |
| CancellationService.StoredRefundStatus | src/main/java/com/hexaware/fastx/entities/Cancellation.java:28-29 | NULL stays NULL; a status equal to an ENUM member up to case is stored as that member; any other status is refused |
| CancellationService.StoredRefundStatusExamples | src/main/java/com/hexaware/fastx/entities/Cancellation.java:28-29 | example: "pending" is stored as "Pending", "REFUNDED" as "Refunded", and "Approved" is refused |
| CancellationService.CancelBooking | src/main/java/com/hexaware/fastx/service/CancellationServiceImpl.java:22-24 | saves the cancellation under the save rule, with its refund status as the column stores it, and returns the cancellation as given plus its id; a refund status that matches no ENUM member fails and stores nothing |
| CancellationService.GetCancellationByBookingId | src/main/java/com/hexaware/fastx/service/CancellationServiceImpl.java:27-29 | the booking's cancellation, null exactly when it has none, a non-unique error when it has two |
| CancellationService.GetCancellationsByUserId | src/main/java/com/hexaware/fastx/service/CancellationServiceImpl.java:32-34 | exactly the cancellations of the user's bookings |
| CancellationService.GetCancellationsByStatus | src/main/java/com/hexaware/fastx/service/CancellationServiceImpl.java:37-39 | exactly the cancellations with that refund status |
| CancellationService.IsBookingCancelled | src/main/java/com/hexaware/fastx/service/CancellationServiceImpl.java:42-44 | true exactly when a cancellation references the booking |
| CancellationService.CancelledIffLookupFinds | src/main/java/com/hexaware/fastx/service/CancellationServiceImpl.java:27-44 | a booking is cancelled exactly when its lookup does not answer null |
| CancellationService.CancelledOn | src/main/java/com/hexaware/fastx/repository/CancellationRepository.java:20-26 | exactly the cancellations dated inside the inclusive day window |
| CancellationService.GetTotalRefundsIssuedByDate | src/main/java/com/hexaware/fastx/service/CancellationServiceImpl.java:47-51 | null exactly when no cancellation is dated that day; otherwise the sum of those refunds |
| CancellationService.TotalAfterCancel | src/main/java/com/hexaware/fastx/service/CancellationServiceImpl.java:47-51 | a new cancellation dated that day adds its refund to the total; one dated otherwise leaves it |
| CancellationService.TotalNonNegative | src/main/java/com/hexaware/fastx/service/CancellationServiceImpl.java:47-51 | non-negative refunds give a non-negative total |
| CancellationService.TotalReadsOnlyTheDay | src/main/java/com/hexaware/fastx/service/CancellationServiceImpl.java:47-51 | the total depends only on the cancellations of that day |
| SeatGrid.InsertKeepsAscending | pages/Seats.js:139-143 | inserting a seat with a numeric suffix keeps a row ascending and is a permutation |
| SeatGrid.SortByAscending | pages/Seats.js:139-143 | the row sort is a permutation, ascending when every suffix is a number |
| SeatGrid.SeatsInRowCount | pages/Seats.js:130-136 | a row holds every seat of its key as often as the input, and no other seat |
| SeatGrid.FirstAppearanceKeys | pages/Seats.js:130-136 | the keys met are exactly the seats' keys, each once |
| SeatGrid.PropertyOrderIndexAscending | pages/Seats.js:138-146 | the digit keys of the dictionary order come first, in ascending numeric order |
| SeatGrid.PropertyOrderFacts | pages/Seats.js:138-146 | the dictionary order lists every key once, digit keys first in ascending order |
| SeatGrid.GroupByRowKey | pages/Seats.js:128-136 | the first pass maps every key to exactly the seats of that key, in order, and lists keys in first-use order |
| SeatGrid.OrganizeSeatsIntoRows | pages/Seats.js:123-147 | the rows are the grid: one per key in dictionary order, each the seats of that key sorted by suffix |
| SeatGrid.GridRowsKeyed | Frontend/src/pages/operator/EditSeats.js:102-120 | no row is empty and row n is the row of the n-th key |
| SeatGrid.GridOfNoSeats | Frontend/src/pages/operator/EditSeats.js:102-120 | no seats give no rows |
| SeatGrid.GridRowsDistinctAndOrdered | Frontend/src/pages/operator/EditSeats.js:102-120 | no two rows share a key, and digit keys come before all others |
| SeatGrid.GridRowCounts | Frontend/src/pages/operator/EditSeats.js:102-120 | every row holds each seat of its key as often as the input does and no other seat |
| SeatGrid.GridRowOf | Frontend/src/pages/operator/EditSeats.js:102-120 | every seat appears in the row of its key |
| SeatGrid.GridRowSorted | Frontend/src/pages/operator/EditSeats.js:102-120 | a row whose suffixes are all numbers is ascending by suffix |
| SeatGrid.Grid | Frontend/src/pages/operator/EditSeats.js:102-120 | the grid has one row per distinct row key |
| SeatGrid.HexSuffixes | pages/Seats.js:140-141 | example: the suffix of "A0x1F" reads 31 in base sixteen, and "A0x" has no number |
| SeatsPage.RowCount | pages/Seats.js:99 | the row count is the least one whose rows of four hold all the seats |
| SeatsPage.GeneratedSeatKeys | pages/Seats.js:103-108 | a generated seat is in its letter's row and its suffix reads as its position |
| SeatsPage.GenerateSeatLayout | pages/Seats.js:97-121 | the method's layout is the layout function |
| SeatsPage.LayoutShape | pages/Seats.js:97-121 | ceil(n/4) rows, each of four seats except a shorter last row |
| SeatsPage.Layout | pages/Seats.js:97-121 | no generated row is empty or holds more than four seats |
| SeatsPage.LayoutSeats | pages/Seats.js:106-115 | the seat at row r, position s has number letter-then-s, id 4r+s, type "Window" at positions 1 and 4 and "Normal" at the others, and status "Available" |
| SeatsPage.LayoutSeatIds | pages/Seats.js:97-121 | row after row the layout holds exactly the seats 1 to n in order |
| SeatsPage.HandleSeatSelect | pages/Seats.js:39-49 | a booked seat is ignored; a selected seat is removed; any other is appended |
| SeatsPage.SelectKeepsIdsDistinct | pages/Seats.js:39-49 | toggling keeps the selection free of repeated ids |
| SeatsPage.SelectTwiceRestores | pages/Seats.js:39-49 | selecting a free seat twice restores the selection |
| SeatsPage.HandleProceedToPayment | pages/Seats.js:51-95 | an empty selection sets the error and does nothing else; when some seat is taken and the refetch succeeds, the error is reported and both the selection and the seat list are emptied; a failed check or refetch only sets the error; otherwise the page goes to payment with the selection and seats times fare |
| SeatsPage.TotalIsSeatsTimesFare | pages/Seats.js:79 | each further seat adds exactly one fare to the amount |
| SeatsPage.ConflictLeavesNoRows | pages/Seats.js:84-89 | after a conflict whose refetch succeeds, the page draws no row at all |
| EditSeatsPage.DefaultStatuses | Frontend/src/pages/operator/EditSeats.js:33-36 | every loaded seat keeps its fields and a missing status reads "Available" |
| EditSeatsPage.WithDefaultStatus | Frontend/src/pages/operator/EditSeats.js:33-36 | a seat keeps its id, number and type; a missing status reads "Available" and any other is kept |
| EditSeatsPage.LoadedSeatsHaveStatus | Frontend/src/pages/operator/EditSeats.js:33-36 | after loading no seat is without a status |
| EditSeatsPage.DefaultStatusesIdempotent | Frontend/src/pages/operator/EditSeats.js:33-36 | defaulting twice is defaulting once |
| EditSeatsPage.LoadSeats | Frontend/src/pages/operator/EditSeats.js:28-44 | success shows the defaulted seats and clears the error; failure keeps the seats and sets the error |
| EditSeatsPage.HandleSearchBus | Frontend/src/pages/operator/EditSeats.js:19-26 | without a bus id the error is set and nothing fetched; otherwise the bus's seats are fetched |
| EditSeatsPage.HandleChange | Frontend/src/pages/operator/EditSeats.js:46-48 | only the named input's field changes |
| EditSeatsPage.HandleSubmit | Frontend/src/pages/operator/EditSeats.js:50-68 | without a bus id only the error is set; otherwise an update while editing and an add otherwise, then reset and reload on success or the error on failure |
| EditSeatsPage.HandleEdit | Frontend/src/pages/operator/EditSeats.js:70-78 | the form takes the seat's fields and switches to editing |
| EditSeatsPage.HandleDelete | Frontend/src/pages/operator/EditSeats.js:80-89 | nothing without confirmation; then a delete, with a reload on success or the error on failure |
| EditSeatsPage.ResetForm | Frontend/src/pages/operator/EditSeats.js:91-99 | the empty form of a new seat, not editing, the rest unchanged |
| EditSeatsPage.SubmitAfterResetAdds | Frontend/src/pages/operator/EditSeats.js:50-68 | after a reset, submitting adds a new seat |
| EditSeatsPage.SubmitAfterEditUpdates | Frontend/src/pages/operator/EditSeats.js:50-78 | after picking a seat, submitting updates that seat by its id |
| EditSeatsPage.SubmitThenAddsAgain | Frontend/src/pages/operator/EditSeats.js:50-68 | a successful submission leaves the editor ready to add |
| EmailRule.EmailHasOneAt | Frontend/src/pages/Payment.js:43-46 | an accepted address has exactly one "@" and no whitespace |
| EmailRule.EmailExamples | Frontend/src/pages/Payment.js:43-46 | examples: sample addresses the pattern accepts and rejects |
| PaymentPage.FormatCardNumberShape | Frontend/src/pages/Payment.js:137-141 | the card formatter shows at most 19 characters, digits in groups of four separated by single spaces |
| PaymentPage.FormatCardNumberIsChunked | Frontend/src/pages/Payment.js:137-141 | the formatted number is the first sixteen digits typed, in groups of four |
| PaymentPage.FormattedCardValidIffSixteenDigits | Frontend/src/pages/Payment.js:48-51 | a formatted number passes the card validator exactly when sixteen digits were typed |
| PaymentPage.FormatCardNumberIdempotent | Frontend/src/pages/Payment.js:137-141 | formatting a formatted number changes nothing |
| PaymentPage.ValidateCardNumber | Frontend/src/pages/Payment.js:48-51 | an accepted card number is at least sixteen characters long |
| PaymentPage.FormatCardNumber | Frontend/src/pages/Payment.js:137-141 | the card formatter shows at most 19 characters |
| PaymentPage.ExpiryDateValidIff | Frontend/src/pages/Payment.js:53-66 | an expiry passes exactly when it has the MM/YY shape and is not before the current month and year |
| PaymentPage.FormatExpiryShape | Frontend/src/pages/Payment.js:151-154 | the expiry formatter shows the digits, with a slash after two of them once there are more |
| PaymentPage.FormatExpiryIdempotent | Frontend/src/pages/Payment.js:151-154 | formatting a formatted expiry changes nothing |
| PaymentPage.FormattedExpiryShapeIff | Frontend/src/pages/Payment.js:53-66 | a formatted expiry has the MM/YY shape exactly when four digits with a month 01 to 12 were typed |
| PaymentPage.ValidateExpiryDate | Frontend/src/pages/Payment.js:53-66 | an accepted expiry date has the MM/YY shape |
| PaymentPage.FormatExpiry | Frontend/src/pages/Payment.js:151-154 | the expiry formatter shows at most five characters |
| PaymentPage.FormattedCVVValidIff | Frontend/src/pages/Payment.js:68-70 | a formatted CVV passes exactly when three or four digits were typed |
| PaymentPage.FormatCVVIdempotent | Frontend/src/pages/Payment.js:164 | formatting a formatted CVV changes nothing |
| PaymentPage.ValidateCVV | Frontend/src/pages/Payment.js:68-70 | an accepted CVV is made of digits only |
| PaymentPage.FormatCVV | Frontend/src/pages/Payment.js:164 | the CVV formatter shows at most four characters, all digits |
| PaymentPage.FieldErrorMeaning | Frontend/src/pages/Payment.js:84-126 | a field has no error exactly when it is filled in and valid; an empty one gets the required message, an invalid one the format message |
| PaymentPage.ValidateForm | Frontend/src/pages/Payment.js:72-130 | records each field's message and allows submission exactly when every field is filled in and valid |
| PaymentPage.HandleInputChange | Frontend/src/pages/Payment.js:132-184 | the field stores its formatted value; card number, expiry date and CVV keep their errors as they were, while any other field has its own error cleared; no other field changes |
| RegisterPage.NameValidIff | pages/Register.js:24-30 | a name passes exactly when it is letters and spaces with at least one letter |
| RegisterPage.NameBlankIff | pages/Register.js:24-30 | a name is reported blank exactly when it is all whitespace |
| RegisterPage.EmailValidIff | pages/Register.js:32-38 | an e-mail passes exactly when it matches the pattern, and is reported blank exactly when all whitespace |
| RegisterPage.ContactValidIff | pages/Register.js:46-52 | a contact passes exactly when it is ten digits starting 6 to 9, and is blank exactly when all whitespace |
| RegisterPage.PasswordAccepted | pages/Register.js:40-44 | example: a password with each kind of character passes |
| RegisterPage.PasswordsRefused | pages/Register.js:40-44 | examples: passwords missing a kind, too short, or with a space are refused |
| RegisterPage.OtherFieldsPass | pages/Register.js:54-55 | a field other than the four validated ones has no message |
| RegisterPage.ValidateField | pages/Register.js:20-58 | a blank value is refused in each of the four validated fields |
| RegisterPage.BlankPasswordRefused | pages/Register.js:40-44 | a password of whitespace alone does not match the pattern |
| RegisterPage.ValidateForm | pages/Register.js:85-100 | records the error of every checked field that has one and allows submission exactly when none has |
| RegisterPage.HandleChange | pages/Register.js:61-71 | the field takes the value and only its own error is dropped |
| RegisterPage.HandleBlur | pages/Register.js:73-83 | the field's error is recorded when it has one; no error is ever removed |
| RegisterPage.ChangeThenBlurValid | pages/Register.js:61-83 | typing and leaving a valid value leaves the field without an error |
| RegisterPage.BlurRecordsError | pages/Register.js:73-83 | after leaving a field its recorded error is the validator's message |
| ViewBookingsPage.StatusVariantIgnoresCase | Frontend/src/pages/operator/ViewBookings.js:53-67 | the badge depends on the status only up to case |
| ViewBookingsPage.StatusVariants | Frontend/src/pages/operator/ViewBookings.js:53-67 | each of the four known statuses in any case has its own colour |
| ViewBookingsPage.GetStatusVariant | Frontend/src/pages/operator/ViewBookings.js:53-67 | one of five colours, "secondary" exactly when the status is none of the four known ones in any case |
| ViewBookingsPage.FilterBookingsIsFilter | Frontend/src/pages/operator/ViewBookings.js:70-92 | the two filters in a row are one filter by status-and-search |
| ViewBookingsPage.FilterBookings | Frontend/src/pages/operator/ViewBookings.js:70-92 | the list shown is no longer than the bookings, and every booking in it passes both filters |
| ViewBookingsPage.FilterBookingsIsSubsequence | Frontend/src/pages/operator/ViewBookings.js:70-92 | the list shown keeps the bookings' order and drops some of them |
| ViewBookingsPage.FilterBookingsMembership | Frontend/src/pages/operator/ViewBookings.js:70-92 | a booking is shown exactly when it is listed and passes both filters |
| ViewBookingsPage.FilterAllShowsEverything | Frontend/src/pages/operator/ViewBookings.js:72-78 | "all" with no term shows every booking |
| ViewBookingsPage.StatusFilterDropsMissingStatus | Frontend/src/pages/operator/ViewBookings.js:72-78 | a status filter drops every booking without a status |
| ViewBookingsPage.MarkRefunded | Frontend/src/pages/operator/ViewBookings.js:142-146 | exactly the bookings with that id become "Refunded"; the list keeps its length |
| ViewBookingsPage.MarkRefundedIdempotent | Frontend/src/pages/operator/ViewBookings.js:142-146 | marking again changes nothing |
| ViewBookingsPage.HandleRefund | Frontend/src/pages/operator/ViewBookings.js:130-151 | without a cancellation only the error is set; otherwise the refund is requested, and success marks the booking and sets the message, failure the error |
| ViewBookingsPage.RefundTouchesOnlyThatBooking | Frontend/src/pages/operator/ViewBookings.js:142-146 | a refund changes only the status of that booking |
| BusList.DurationSplitsWholeMinutes | Frontend/src/components/BusList.js:26-33 | for a trip that does not end before it starts, minutes lie in 0 to 59 and hours and minutes make up the whole minutes |
| BusList.DurationText | Frontend/src/components/BusList.js:26-33 | the text shown for such a trip |
| BusList.FormatDuration | Frontend/src/components/BusList.js:26-33 | the text ends in "m", and a trip shorter than a minute shows "0h 0m" |
| BusList.NegativeDurationExample | Frontend/src/components/BusList.js:26-33 | example: an arrival one millisecond early shows "-1h -1m" |
| BusList.HandleBookSeat | Frontend/src/components/BusList.js:8-17 | goes to the seat page with the bus, the route and the search date |
| BookingsPage.RefundWithinTotal | Frontend/src/pages/Bookings.js:109 | the refund asked for lies between 0 and a non-negative total |
| BookingsPage.RefundAmount | Frontend/src/pages/Bookings.js:109 | a fifth of the total is withheld from the refund |
| BookingsPage.CanCancelBooking | Frontend/src/pages/Bookings.js:139-141 | a booking can be cancelled exactly when its badge is "success", that is, when its status is exactly "Confirmed" |
| BookingsPage.GetStatusVariant | Frontend/src/pages/Bookings.js:124-137 | one of five colours, "secondary" exactly when the status is none of the four known ones as written |
| BookingsPage.PaymentIdFor | Frontend/src/pages/Bookings.js:108 | the nested payment id when there is one, else the flat one |
| BookingsPage.CancellationRequestFor | Frontend/src/pages/Bookings.js:106-111 | the request names the booking, its payment, the reason and 80% of the total |
| BookingsPage.ConfirmCancellation | Frontend/src/pages/Bookings.js:104-122 | success closes the dialog, sets the message and reloads; failure sets the error |
| BookingsPage.StatusVariantsAgreeOnServerStatuses | Frontend/src/pages/Bookings.js:124-137 | on the statuses as the server writes them the two pages' badges agree |
| BookingsPage.StatusVariantsDifferInCase | Frontend/src/pages/Bookings.js:124-137 | example: on "confirmed" the two pages' badges differ |

## Left out

- Entities and DTOs keep only the fields the modelled code reads or writes. Names,
  genders, seat-number strings on bookings and the like are not modelled.
- Repositories return rows in an order the code does not fix. Tables are maps and query
  results are maps, so no result order is modelled.
- JPA cascades, lazy loading and the many-to-many join table are not modelled. A booking
  holds the set of its seat ids.
- Transactions, concurrency and isolation are not modelled. Every operation runs alone
  against the store.
- `equalsIgnoreCase` and `toLowerCase` are modelled for ASCII letters only.
- JsText.ParseInt: the value of a long run of digits is exact, whereas JavaScript rounds a
  value beyond 2^53 to the nearest double. The order of seats whose suffixes are that large
  is therefore not modelled.
- CancellationService.CancelBooking: the refusal of a refund status outside the ENUM
  assumes the database's strict SQL mode; in non-strict mode the column would store the
  empty string instead. The case-insensitive match assumes a case-insensitive collation.
  The empty string stands for NULL, so a refund status that is a literal empty string is
  accepted as NULL, where a strict-mode ENUM column would refuse it.
- Database.Store.SaveBooking, Database.Store.SavePayment, Database.Store.SaveCancellation:
  generated keys are assumed for bookings, payments and cancellations. Booking.java:28-29,
  Payment.java:22-23 and Cancellation.java:22-23 declare a plain assigned `@Id` with no
  generator, under which `save` would keep the id it is given, so a second new row with id
  0 would replace or clash with the first. These entity files are older than the services
  that use them (Payment.java has no `paymentMethod`, which PaymentServiceImpl.java:67 sets;
  Booking.java has no `travelDate`), so the model follows the services.
- The other finders compare strings exactly, as under a case-sensitive collation
  (`CancellationService.GetCancellationsByStatus`, the payment and seat finders). With a
  case-insensitive collation the database would ignore case there.
- The e-ticket PDF and its mail are a delivery outcome: a parameter says whether sending
  succeeds.
- The payment page's submission handler (request assembly and navigation) is left out. So
  is all rendering.
- HTTP calls made by the pages are outcome parameters of the page functions. The seat
  page's fetch fallback, which builds the generated layout, is modelled only as
  `SeatsPage.GenerateSeatLayout`.
- Money is `real`. Floating-point rounding, `parseFloat`, `toFixed` and `Intl` formatting
  are not modelled.
- Dates and times are integers: instants in nanoseconds, days as numbers and instants
  as milliseconds in the bus list. The clock (`now`, the current year and month) is a
  parameter.
- SeatGrid.SortByAscending: ascending order is proved only for rows whose suffixes all
  parse as numbers. With a NaN comparator the order is whatever the insertion sort gives,
  which need not match the browser's sort.
- SeatsPage.GenerateSeatLayout: modelled only up to `MaxGeneratedSeats`, so that every row
  letter is a character below the surrogate range.
- JsText.Rem models the JavaScript `%` only for a positive divisor, the only one the code
  uses.
- Inputs that are not arrays (a missing booking list, a missing seat list) cannot be
  represented, so the guards against them are not modelled.
- RegisterPage.ValidateForm: the order in which the form's keys are visited is not
  modelled. The errors and the verdict do not depend on it.
- String lengths are counted in characters, not UTF-16 code units (card holder, password
  length).
- A template that renders an absent id as "undefined" is modelled with the id as a
  number.
- BusList.FormatDuration: invalid dates, which give NaN, are not modelled.
- The refund processing behind the operator's refund call is not part of this model. The
  call's outcome is a parameter of `ViewBookingsPage.HandleRefund`.
