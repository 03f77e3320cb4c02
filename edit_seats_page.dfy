/** The operator's seat editor: loading a bus's seats, the seat form used for adding and
    editing, and the guards in front of each service call. The grid it draws is
    `SeatGrid.OrganizeSeatsIntoRows`. The service calls themselves are requests the page
    issues; their outcomes are parameters. */
module EditSeatsPage {
  import opened Wrappers
  import opened SeatGrid

  /** The seat form. `seatId` is `None` while the form holds the empty string of a new seat. */
  datatype SeatForm = SeatForm(seatId: Option<int>, seatNumber: string, seatType: string, seatStatus: string)

  /** The page's state: the Bus ID typed, the seats shown, the form, the error banner (empty
      when none) and whether the form edits an existing seat. */
  datatype EditorState = EditorState(busId: string, seats: seq<SeatCell>, form: SeatForm, error: string, editing: bool)

  /** A call the page makes to the seat service. */
  datatype Request =
    | FetchSeats(busId: string)
    | UpdateSeat(form: SeatForm, busId: string)
    | AddSeat(form: SeatForm, busId: string)
    | DeleteSeat(seatId: int)

  /** The form `resetForm` restores and the page starts with. */
  const EmptyForm := SeatForm(None, "", "Normal", "Available")

  /** The page as it first renders. */
  const Initial := EditorState("", [], EmptyForm, "", false)

  /** `seat.seatStatus || "Available"`: a missing status reads as available. */
  function WithDefaultStatus(seat: SeatCell): (r: SeatCell)
    ensures r.seatId == seat.seatId && r.seatNumber == seat.seatNumber && r.seatType == seat.seatType
    ensures seat.seatStatus != "" ==> r.seatStatus == seat.seatStatus
    ensures seat.seatStatus == "" ==> r.seatStatus == "Available"
  {
    seat.(seatStatus := if seat.seatStatus != "" then seat.seatStatus else "Available")
  }

  /** The `map` of `loadSeats` over the fetched seats. */
  function DefaultStatuses(seats: seq<SeatCell>): (r: seq<SeatCell>)
    ensures |r| == |seats|
    ensures forall i :: 0 <= i < |seats| ==> r[i] == WithDefaultStatus(seats[i])
  {
    seq(|seats|, i requires 0 <= i < |seats| => WithDefaultStatus(seats[i]))
  }

  /** After loading, no seat is without a status. */
  lemma LoadedSeatsHaveStatus(seats: seq<SeatCell>)
    ensures forall i :: 0 <= i < |seats| ==> DefaultStatuses(seats)[i].seatStatus != ""
  {
  }

  /** Defaulting the statuses twice is defaulting them once. */
  lemma DefaultStatusesIdempotent(seats: seq<SeatCell>)
    ensures DefaultStatuses(DefaultStatuses(seats)) == DefaultStatuses(seats)
  {
  }

  /** `loadSeats` once the fetch has answered: `Some` holds the seats fetched, `None` a failed
      request. Success shows the seats with their statuses defaulted and clears the error;
      failure keeps the seats shown and sets the error. */
  function LoadSeats(st: EditorState, fetched: Option<seq<SeatCell>>): (r: EditorState)
    ensures r.busId == st.busId && r.form == st.form && r.editing == st.editing
    ensures fetched.Some? ==> r.seats == DefaultStatuses(fetched.value) && r.error == ""
    ensures fetched.None? ==> r.seats == st.seats && r.error == "Failed to fetch seats"
  {
    match fetched
    case Some(seats) => st.(seats := DefaultStatuses(seats), error := "")
    case None => st.(error := "Failed to fetch seats")
  }

  /** `handleSearchBus`: without a Bus ID it sets the error and fetches nothing; otherwise it
      asks for the bus's seats. */
  function HandleSearchBus(st: EditorState): (r: (EditorState, Option<Request>))
    ensures st.busId == "" ==> r.0 == st.(error := "Please enter a Bus ID") && r.1 == None
    ensures st.busId != "" ==> r.0 == st && r.1 == Some(FetchSeats(st.busId))
  {
    if st.busId == "" then (st.(error := "Please enter a Bus ID"), None)
    else (st, Some(FetchSeats(st.busId)))
  }

  /** `resetForm`. */
  function ResetForm(st: EditorState): (r: EditorState)
    ensures r.form.seatId == None && r.form.seatNumber == ""
    ensures r.form.seatType == "Normal" && r.form.seatStatus == "Available"
    ensures !r.editing
    ensures r.busId == st.busId && r.seats == st.seats && r.error == st.error
  {
    st.(form := EmptyForm, editing := false)
  }

  /** `handleEdit`: the form takes the seat's fields and switches to editing. */
  function HandleEdit(st: EditorState, seat: SeatCell): (r: EditorState)
    ensures r.form == SeatForm(Some(seat.seatId), seat.seatNumber, seat.seatType, seat.seatStatus)
    ensures r.editing
    ensures r.busId == st.busId && r.seats == st.seats && r.error == st.error
  {
    st.(form := SeatForm(Some(seat.seatId), seat.seatNumber, seat.seatType, seat.seatStatus), editing := true)
  }

  /** The inputs of the seat form, by their `name` attribute. */
  datatype FormInput = SeatNumberInput | SeatTypeInput | SeatStatusInput

  /** `handleChange`: the named input's field takes the value; nothing else changes. */
  function HandleChange(st: EditorState, input: FormInput, value: string): (r: EditorState)
    ensures r.form.seatId == st.form.seatId
    ensures r.form.seatNumber == if input == SeatNumberInput then value else st.form.seatNumber
    ensures r.form.seatType == if input == SeatTypeInput then value else st.form.seatType
    ensures r.form.seatStatus == if input == SeatStatusInput then value else st.form.seatStatus
    ensures r.(form := st.form) == st
  {
    match input
    case SeatNumberInput => st.(form := st.form.(seatNumber := value))
    case SeatTypeInput => st.(form := st.form.(seatType := value))
    case SeatStatusInput => st.(form := st.form.(seatStatus := value))
  }

  /** What `handleSubmit` does. */
  datatype SubmitResult = SubmitResult(state: EditorState, save: Option<Request>, reload: Option<Request>)

  /** `handleSubmit`, with `saveSucceeds` the outcome of the save call. Without a Bus ID it
      sets the error and calls nothing. Otherwise it saves the form for the bus, as an update
      while editing and as an addition otherwise; a failed save sets the error and keeps the
      form, a successful one resets the form and reloads the bus's seats. */
  function HandleSubmit(st: EditorState, saveSucceeds: bool): (r: SubmitResult)
    ensures st.busId == "" ==> r == SubmitResult(st.(error := "Please enter a Bus ID first"), None, None)
    ensures st.busId != "" ==> r.save == Some(if st.editing then UpdateSeat(st.form, st.busId) else AddSeat(st.form, st.busId))
    ensures st.busId != "" && saveSucceeds ==> r.state == ResetForm(st) && r.reload == Some(FetchSeats(st.busId))
    ensures st.busId != "" && !saveSucceeds ==> r.state == st.(error := "Error saving seat") && r.reload == None
    ensures r.state.seats == st.seats && r.state.busId == st.busId
  {
    if st.busId == "" then
      SubmitResult(st.(error := "Please enter a Bus ID first"), None, None)
    else
      var save := if st.editing then UpdateSeat(st.form, st.busId) else AddSeat(st.form, st.busId);
      if saveSucceeds then SubmitResult(ResetForm(st), Some(save), Some(FetchSeats(st.busId)))
      else SubmitResult(st.(error := "Error saving seat"), Some(save), None)
  }

  /** After the form is reset, submitting adds a new seat built from the fresh form. */
  lemma SubmitAfterResetAdds(st: EditorState, saveSucceeds: bool)
    requires st.busId != ""
    ensures HandleSubmit(ResetForm(st), saveSucceeds).save == Some(AddSeat(EmptyForm, st.busId))
  {
  }

  /** After a seat is picked for editing, submitting updates that seat, keyed by its id. */
  lemma SubmitAfterEditUpdates(st: EditorState, seat: SeatCell, saveSucceeds: bool)
    requires st.busId != ""
    ensures var save := HandleSubmit(HandleEdit(st, seat), saveSucceeds).save;
      save.Some? && save.value.UpdateSeat? && save.value.form.seatId == Some(seat.seatId)
  {
  }

  /** A successful submission leaves the editor ready for a new seat. */
  lemma SubmitThenAddsAgain(st: EditorState)
    requires st.busId != ""
    ensures var next := HandleSubmit(st, true).state;
      !next.editing && HandleSubmit(next, true).save == Some(AddSeat(EmptyForm, st.busId))
  {
  }

  /** `handleDelete`, with `confirmed` the answer to the confirmation dialog and
      `deleteSucceeds` the outcome of the call: nothing happens unless confirmed; then the
      seat is deleted and the seats reloaded, or the error is set. */
  function HandleDelete(st: EditorState, seatId: int, confirmed: bool, deleteSucceeds: bool): (r: SubmitResult)
    ensures !confirmed ==> r == SubmitResult(st, None, None)
    ensures confirmed ==> r.save == Some(DeleteSeat(seatId))
    ensures confirmed && deleteSucceeds ==> r.state == st && r.reload == Some(FetchSeats(st.busId))
    ensures confirmed && !deleteSucceeds ==> r.state == st.(error := "Failed to delete seat") && r.reload == None
  {
    if !confirmed then SubmitResult(st, None, None)
    else if deleteSucceeds then SubmitResult(st, Some(DeleteSeat(seatId)), Some(FetchSeats(st.busId)))
    else SubmitResult(st.(error := "Failed to delete seat"), Some(DeleteSeat(seatId)), None)
  }
}
