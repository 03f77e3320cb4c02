/** The passenger's seat page: the fallback seat layout it generates for a bus, toggling seats
    in and out of the selection, and the decision taken on "proceed to payment". The grid the
    page draws from fetched seats is `SeatGrid.OrganizeSeatsIntoRows`. */
module SeatsPage {
  import opened Wrappers
  import opened Sequences
  import JsText
  import opened SeatGrid

  const SeatsPerRow := 4

  /** `Math.ceil(totalSeats / 4)`: the least row count whose rows hold `totalSeats` seats. */
  function RowCount(totalSeats: int): (n: int)
    ensures SeatsPerRow * n >= totalSeats
    ensures SeatsPerRow * (n - 1) < totalSeats
  {
    (totalSeats + SeatsPerRow - 1) / SeatsPerRow
  }

  /** `String.fromCharCode(65 + r)`: "A" for the first row, "B" for the next, and so on. */
  function RowLetter(r: nat): char
    requires 65 + r < 0xD800
  {
    (65 + r) as char
  }

  /** The largest seat count whose row letters are all characters below the surrogate range. */
  const MaxGeneratedSeats := SeatsPerRow * (0xD800 - 65)

  /** The seat the layout puts at row `r`, position `s` (counted from 1). */
  function GeneratedSeat(r: nat, s: nat): SeatCell
    requires 1 <= s <= SeatsPerRow && 65 + r < 0xD800
  {
    SeatCell(r * SeatsPerRow + s, [RowLetter(r), JsText.DigitChar(s)],
             if s == 1 || s == SeatsPerRow then "Window" else "Normal", "Available")
  }

  /** A generated seat is in the row of its letter, and its number after the letter reads
      as its position: the grid puts the layout back in the same rows and order. */
  lemma GeneratedSeatKeys(r: nat, s: nat)
    requires 1 <= s <= SeatsPerRow && 65 + r < 0xD800
    ensures RowKey(GeneratedSeat(r, s)) == Some(RowLetter(r))
    ensures Suffix(GeneratedSeat(r, s)) == Some(s)
  {
    var seat := GeneratedSeat(r, s);
    var d := [JsText.DigitChar(s)];
    assert seat.seatNumber[1..] == d;
    assert JsText.AllDigits(d) && d[..|d| - 1] == [];
    assert JsText.DigitsValue(d) == s;
  }

  /** The number of seats in row `r`: four, except that the last row holds what is left. */
  function RowLength(totalSeats: int, r: nat): (n: nat)
    ensures n <= SeatsPerRow
  {
    if totalSeats - SeatsPerRow * r >= SeatsPerRow then SeatsPerRow
    else if totalSeats - SeatsPerRow * r > 0 then totalSeats - SeatsPerRow * r
    else 0
  }

  /** Row `r` of the generated layout. */
  function LayoutRow(totalSeats: int, r: nat): seq<SeatCell>
    requires 65 + r < 0xD800
  {
    seq(RowLength(totalSeats, r), i requires 0 <= i < RowLength(totalSeats, r) => GeneratedSeat(r, i + 1))
  }

  /** The layout `generateSeatLayout` returns for `totalSeats` seats. */
  function Layout(totalSeats: int): (r: seq<seq<SeatCell>>)
    requires totalSeats <= MaxGeneratedSeats
    ensures forall q :: 0 <= q < |r| ==> 0 < |r[q]| <= SeatsPerRow
  {
    var rows := if totalSeats > 0 then RowCount(totalSeats) else 0;
    seq(rows, r requires 0 <= r < rows => LayoutRow(totalSeats, r))
  }

  /** `generateSeatLayout`: rows of four seats until `totalSeats` seats are placed. */
  method GenerateSeatLayout(totalSeats: int) returns (layout: seq<seq<SeatCell>>)
    requires totalSeats <= MaxGeneratedSeats
    ensures layout == Layout(totalSeats)
  {
    var rows := RowCount(totalSeats);
    var seatCount := 0;
    layout := [];
    var r := 0;
    while r < rows
      invariant 0 <= r && (rows >= 0 ==> r <= rows)
      invariant |layout| == r
      invariant r > 0 ==> seatCount == if totalSeats < SeatsPerRow * r then totalSeats else SeatsPerRow * r
      invariant r == 0 ==> seatCount == 0
      invariant forall q :: 0 <= q < r ==> 65 + q < 0xD800 && layout[q] == LayoutRow(totalSeats, q)
    {
      var rowSeats := [];
      var s := 1;
      while s <= SeatsPerRow && seatCount < totalSeats
        invariant 1 <= s <= SeatsPerRow + 1
        invariant seatCount == SeatsPerRow * r + s - 1
        invariant seatCount <= totalSeats
        invariant |rowSeats| == s - 1
        invariant forall i :: 0 <= i < s - 1 ==> rowSeats[i] == GeneratedSeat(r, i + 1)
      {
        rowSeats := rowSeats + [GeneratedSeat(r, s)];
        seatCount := seatCount + 1;
        s := s + 1;
      }
      assert |rowSeats| == RowLength(totalSeats, r);
      assert rowSeats == LayoutRow(totalSeats, r);
      layout := layout + [rowSeats];
      r := r + 1;
    }
  }

  /** The layout has ceil(totalSeats / 4) rows (none for no seats); every row but the last
      holds four seats, and the last holds between one and four. */
  lemma LayoutShape(totalSeats: int)
    requires totalSeats <= MaxGeneratedSeats
    ensures var layout := Layout(totalSeats);
      && |layout| == (if totalSeats > 0 then RowCount(totalSeats) else 0)
      && (forall r :: 0 <= r < |layout| - 1 ==> |layout[r]| == SeatsPerRow)
      && (|layout| > 0 ==> 1 <= |layout[|layout| - 1]| <= SeatsPerRow)
  {
  }

  /** The seat at row `r`, position `s`: number "row letter, then s", id `4r + s`, "Window"
      exactly at positions 1 and 4, and "Available". */
  lemma LayoutSeats(totalSeats: int, r: nat, s: nat)
    requires totalSeats <= MaxGeneratedSeats
    requires r < |Layout(totalSeats)| && 1 <= s <= |Layout(totalSeats)[r]|
    ensures var seat := Layout(totalSeats)[r][s - 1];
      && 65 + r < 0xD800
      && seat.seatNumber == [RowLetter(r), JsText.DigitChar(s)]
      && seat.seatId == SeatsPerRow * r + s
      && (seat.seatType == "Window" <==> s == 1 || s == SeatsPerRow)
      && (seat.seatType != "Window" ==> seat.seatType == "Normal")
      && seat.seatStatus == "Available"
  {
  }

  /** The `j`-th generated seat in reading order. */
  function LayoutSeat(j: nat): SeatCell
    requires j < MaxGeneratedSeats
  {
    GeneratedSeat(j / SeatsPerRow, j % SeatsPerRow + 1)
  }

  lemma LayoutSeatInRow(r: nat, i: nat)
    requires i < SeatsPerRow && 65 + r < 0xD800
    ensures r * SeatsPerRow + i < MaxGeneratedSeats
    ensures LayoutSeat(r * SeatsPerRow + i) == GeneratedSeat(r, i + 1)
  {
    var j := r * SeatsPerRow + i;
    assert j / SeatsPerRow == r && j % SeatsPerRow == i;
  }

  /** `rows` are the layout's first rows: row `r` is `LayoutRow(totalSeats, r)`, and a row
      past the last one that holds seats is not among them. */
  predicate LayoutPrefix(totalSeats: int, rows: seq<seq<SeatCell>>) {
    && (|rows| == 0 || SeatsPerRow * (|rows| - 1) < totalSeats)
    && 65 + |rows| <= 0xD800
    && forall r :: 0 <= r < |rows| ==> rows[r] == LayoutRow(totalSeats, r)
  }

  /** Dropping the last of the layout's first rows leaves its first rows. */
  lemma LayoutRowsPrefix(totalSeats: int, rows: seq<seq<SeatCell>>)
    requires rows != [] && LayoutPrefix(totalSeats, rows)
    ensures LayoutPrefix(totalSeats, rows[..|rows| - 1])
  {
    var init := rows[..|rows| - 1];
    assert |init| == |rows| - 1;
    assert |init| == 0 || SeatsPerRow * (|init| - 1) < totalSeats;
    forall r | 0 <= r < |init| ensures init[r] == LayoutRow(totalSeats, r) {
      assert init[r] == rows[r];
    }
    assert LayoutPrefix(totalSeats, init);
  }

  /** Rows 0, 1, … of the layout, read one after the other, are the first seats in reading
      order. */
  lemma {:induction false} FlattenLayoutRows(totalSeats: int, rows: seq<seq<SeatCell>>)
    requires LayoutPrefix(totalSeats, rows)
    ensures |Flatten(rows)| == if |rows| > 0 && totalSeats < SeatsPerRow * |rows| then totalSeats else SeatsPerRow * |rows|
    ensures forall j :: 0 <= j < |Flatten(rows)| ==> j < MaxGeneratedSeats && Flatten(rows)[j] == LayoutSeat(j)
  {
    if rows != [] {
      var r := |rows| - 1;
      var init := rows[..r];
      LayoutRowsPrefix(totalSeats, rows);
      FlattenLayoutRows(totalSeats, init);
      assert 65 + r < 0xD800 && rows[r] == LayoutRow(totalSeats, r);
      assert Flatten(rows) == Flatten(init) + rows[r];
      AppendLayoutRow(totalSeats, r, Flatten(init), rows[r]);
    }
  }

  /** The first `4r` seats in reading order followed by row `r` are the first seats of the
      rows up to `r`. */
  lemma AppendLayoutRow(totalSeats: int, r: nat, a: seq<SeatCell>, b: seq<SeatCell>)
    requires 65 + r < 0xD800 && b == LayoutRow(totalSeats, r) && |a| == SeatsPerRow * r
    requires forall j :: 0 <= j < |a| ==> j < MaxGeneratedSeats && a[j] == LayoutSeat(j)
    ensures forall j :: 0 <= j < |a + b| ==> j < MaxGeneratedSeats && (a + b)[j] == LayoutSeat(j)
  {
    forall j | 0 <= j < |a + b|
      ensures j < MaxGeneratedSeats && (a + b)[j] == LayoutSeat(j)
    {
      if j < |a| {
        assert (a + b)[j] == a[j];
      } else {
        assert (a + b)[j] == b[j - |a|] == GeneratedSeat(r, j - |a| + 1);
        LayoutSeatInRow(r, j - |a|);
      }
    }
  }

  /** Read row after row, the layout holds exactly `totalSeats` seats (none for a count of
      zero or less), with ids 1, 2, 3, … in order; so no two seats share an id. */
  lemma LayoutSeatIds(totalSeats: int)
    requires totalSeats <= MaxGeneratedSeats
    ensures var seats := Flatten(Layout(totalSeats));
      && |seats| == (if totalSeats > 0 then totalSeats else 0)
      && (forall j :: 0 <= j < |seats| ==> seats[j].seatId == j + 1)
      && KeysDistinct(seats, SeatIdOf)
  {
    var layout := Layout(totalSeats);
    FlattenLayoutRows(totalSeats, layout);
    var seats := Flatten(layout);
    forall j | 0 <= j < |seats| ensures seats[j].seatId == j + 1 {
      var q, m := j / SeatsPerRow, j % SeatsPerRow;
      assert seats[j] == LayoutSeat(j);
      assert q * SeatsPerRow + m == j;
    }
  }

  /** `s.seatId`. */
  function SeatIdOf(s: SeatCell): int { s.seatId }

  /** `selectedSeats.some(s => s.seatId === id)`. */
  predicate IsSelected(selected: seq<SeatCell>, id: int) {
    exists i :: 0 <= i < |selected| && selected[i].seatId == id
  }

  /** No seat id occurs twice in the selection. */
  predicate IdsDistinct(selected: seq<SeatCell>) {
    KeysDistinct(selected, SeatIdOf)
  }

  /** `handleSeatSelect`: a booked seat is ignored; a seat whose id is selected is removed
      (every entry with that id goes); any other seat is appended. */
  function HandleSeatSelect(selected: seq<SeatCell>, seat: SeatCell): (r: seq<SeatCell>)
    ensures seat.seatStatus == "Booked" ==> r == selected
    ensures seat.seatStatus != "Booked" ==> (IsSelected(r, seat.seatId) <==> !IsSelected(selected, seat.seatId))
    ensures forall id :: id != seat.seatId ==> (IsSelected(r, id) <==> IsSelected(selected, id))
    ensures IsSubsequence(r, selected) || r == selected + [seat]
  {
    if seat.seatStatus == "Booked" then
      SubsequenceOfItself(selected);
      selected
    else if IsSelected(selected, seat.seatId) then
      var kept := Filter(selected, (s: SeatCell) => s.seatId != seat.seatId);
      FilterIsSubsequence(selected, (s: SeatCell) => s.seatId != seat.seatId);
      assert forall id :: id != seat.seatId && IsSelected(selected, id) ==> IsSelected(kept, id) by {
        forall id | id != seat.seatId && IsSelected(selected, id) ensures IsSelected(kept, id) {
          var i :| 0 <= i < |selected| && selected[i].seatId == id;
          assert selected[i] in kept;
        }
      }
      kept
    else
      var added := selected + [seat];
      assert added[|selected|].seatId == seat.seatId;
      assert forall i :: 0 <= i < |selected| ==> added[i] == selected[i];
      added
  }

  /** Toggling keeps the selection free of repeated ids. */
  lemma SelectKeepsIdsDistinct(selected: seq<SeatCell>, seat: SeatCell)
    requires IdsDistinct(selected)
    ensures IdsDistinct(HandleSeatSelect(selected, seat))
  {
    if seat.seatStatus != "Booked" {
      if IsSelected(selected, seat.seatId) {
        FilterKeepsKeysDistinct(selected, SeatIdOf, (s: SeatCell) => s.seatId != seat.seatId);
      } else {
        var r := selected + [seat];
        forall i, j | 0 <= i < j < |r| ensures SeatIdOf(r[i]) != SeatIdOf(r[j]) {
          if j == |selected| {
            assert r[i] == selected[i];
          } else {
            assert r[i] == selected[i] && r[j] == selected[j];
          }
        }
      }
    }
  }

  /** Selecting a free seat and then selecting it again restores the selection. */
  lemma SelectTwiceRestores(selected: seq<SeatCell>, seat: SeatCell)
    requires seat.seatStatus != "Booked" && !IsSelected(selected, seat.seatId)
    ensures HandleSeatSelect(HandleSeatSelect(selected, seat), seat) == selected
  {
    var added := selected + [seat];
    assert HandleSeatSelect(selected, seat) == added;
    assert added[|selected|].seatId == seat.seatId;
    var p := (s: SeatCell) => s.seatId != seat.seatId;
    FilterAppendLast(selected, seat, p);
    FilterAll(selected, p);
  }

  lemma {:induction false} FilterAppendLast(s: seq<SeatCell>, x: SeatCell, p: SeatCell -> bool)
    requires !p(x)
    ensures Filter(s + [x], p) == Filter(s, p)
  {
    if s == [] {
      assert Filter([x], p) == [] + Filter([x][1..], p);
    } else {
      assert (s + [x])[1..] == s[1..] + [x];
      FilterAppendLast(s[1..], x, p);
    }
  }

  /** What `verifySeatsAvailability` told the page: whether every selected seat is free, or
      that the request failed. */
  datatype Verification = Verified(allAvailable: bool) | VerifyFailed

  /** The state handed to the payment page. */
  datatype PaymentState = PaymentState(selectedSeats: seq<SeatCell>, totalAmount: real, passengerCount: int)

  /** The error message set (`None`: left as it was), the selection afterwards, and where the
      page navigates (`None`: it stays). */
  /** What `handleProceedToPayment` leaves behind: the error shown, the selection, where the
      page navigates, and the page's new seat list (`None` when the list is left as it was). */
  datatype ProceedResult = ProceedResult(
    error: Option<string>,
    selection: seq<SeatCell>,
    navigation: Option<PaymentState>,
    seats: Option<seq<SeatCell>>)

  const NoSeatSelected := "Please select at least one seat"
  const SeatsTaken := "Some selected seats are no longer available. Please refresh and select again."
  const VerifyError := "Failed to verify seat availability. Please try again."

  /** `handleProceedToPayment`, with the fare already read as a number. An empty selection is
      refused before anything is asked of the server. When every seat is free the page moves
      on with the selection, its size and size × fare. When some seat is taken the seats are
      fetched again and, if that succeeds, the selection is cleared and so is the seat list:
      the service answers with the seat array itself, whose `data` is undefined, so the page
      falls back to no seats. If the refetch fails the failure message replaces the first. */
  function HandleProceedToPayment(selected: seq<SeatCell>, fare: real, verification: Verification, refetchSucceeds: bool): (r: ProceedResult)
    ensures selected == [] ==> r == ProceedResult(Some(NoSeatSelected), selected, None, None)
    ensures r.navigation.Some? <==> selected != [] && verification == Verified(true)
    ensures r.navigation.Some? ==>
      r.navigation.value == PaymentState(selected, |selected| as real * fare, |selected|) && r.error.None?
    ensures r.selection == [] <==> selected == [] || (verification == Verified(false) && refetchSucceeds)
    ensures r.selection != [] ==> r.selection == selected
    ensures r.seats.Some? <==> selected != [] && verification == Verified(false) && refetchSucceeds
    ensures r.seats.Some? ==> r.seats.value == [] && r.error == Some(SeatsTaken)
  {
    if |selected| == 0 then ProceedResult(Some(NoSeatSelected), selected, None, None)
    else match verification
      case VerifyFailed => ProceedResult(Some(VerifyError), selected, None, None)
      case Verified(allAvailable) =>
        if allAvailable then ProceedResult(None, selected, Some(PaymentState(selected, |selected| as real * fare, |selected|)), None)
        else if refetchSucceeds then ProceedResult(Some(SeatsTaken), [], None, Some([]))
        else ProceedResult(Some(VerifyError), selected, None, None)
  }

  /** After a conflict whose refetch succeeds, the page draws an empty grid: no row at all,
      whatever seats the server holds. */
  lemma ConflictLeavesNoRows(selected: seq<SeatCell>, fare: real)
    requires selected != []
    ensures var r := HandleProceedToPayment(selected, fare, Verified(false), true);
      r.seats.Some? && Grid(r.seats.value) == []
  {
    RowKeysFacts([]);
  }

  /** The amount handed on grows with each further seat by exactly one fare. */
  lemma TotalIsSeatsTimesFare(selected: seq<SeatCell>, seat: SeatCell, fare: real)
    requires selected != []
    ensures var before := HandleProceedToPayment(selected, fare, Verified(true), true).navigation;
      var after := HandleProceedToPayment(selected + [seat], fare, Verified(true), true).navigation;
      before.Some? && after.Some? && after.value.totalAmount == before.value.totalAmount + fare
  {
  }
}
