/** The search results list: the trip duration shown on each card, and the hand-over to the
    seat page when a bus is picked. Times are milliseconds since the epoch, as `Date`
    subtraction gives them. */
module BusList {
  import JsText

  const MillisPerHour := 1000 * 60 * 60
  const MillisPerMinute := 1000 * 60

  /** The hours of `formatDuration`: `Math.floor(diffMs / 3600000)`. */
  function Hours(diffMs: int): int {
    diffMs / MillisPerHour
  }

  /** The minutes of `formatDuration`: `Math.floor((diffMs % 3600000) / 60000)`, with
      JavaScript's remainder, which keeps the sign of `diffMs`. */
  function Minutes(diffMs: int): int {
    JsText.Rem(diffMs, MillisPerHour) / MillisPerMinute
  }

  /** `formatDuration`: "{hours}h {minutes}m" for the time from departure to arrival. */
  function FormatDuration(departure: int, arrival: int): (r: string)
    ensures 0 <= arrival - departure < MillisPerMinute ==> r == "0h 0m"
    ensures |r| >= 4 && r[|r| - 1] == 'm'
  {
    var diffMs := arrival - departure;
    JsText.DecimalString(Hours(diffMs)) + "h " + JsText.DecimalString(Minutes(diffMs)) + "m"
  }

  /** For a trip that does not end before it starts, the minutes lie in 0..59 and hours and
      minutes together are the whole minutes of the trip: leftover seconds are dropped. */
  lemma DurationSplitsWholeMinutes(diffMs: int)
    requires diffMs >= 0
    ensures 0 <= Minutes(diffMs) < 60
    ensures Hours(diffMs) * 60 + Minutes(diffMs) == diffMs / MillisPerMinute
  {
    var h, rest := diffMs / MillisPerHour, diffMs % MillisPerHour;
    assert diffMs == MillisPerHour * h + rest;
    var m, s := rest / MillisPerMinute, rest % MillisPerMinute;
    assert rest == MillisPerMinute * m + s;
    assert diffMs == MillisPerMinute * (60 * h + m) + s;
  }

  /** The text shown for a trip that does not end before it starts. */
  lemma DurationText(departure: int, arrival: int)
    requires arrival >= departure
    ensures FormatDuration(departure, arrival) ==
      JsText.NatString(Hours(arrival - departure)) + "h " + JsText.NatString(Minutes(arrival - departure)) + "m"
  {
    DurationSplitsWholeMinutes(arrival - departure);
  }

  /** An arrival one millisecond before the departure is shown as "-1h -1m": the floored
      hours and the truncated remainder do not add up to the floored minutes for a negative
      difference. */
  lemma NegativeDurationExample()
    ensures FormatDuration(1, 0) == "-1h -1m"
    ensures Hours(-1) * 60 + Minutes(-1) != -1 / MillisPerMinute
  {
    assert Hours(-1) == -1 && Minutes(-1) == -1;
    assert JsText.DecimalString(-1) == "-1";
  }

  /** The navigation state `handleBookSeat` passes to the seat page. */
  datatype SeatPageState<Bus, Route, Date> = SeatPageState(bus: Bus, route: Route, date: Date)

  /** `handleBookSeat`: goes to the seat page with the bus, the route and the search date
      exactly as they were. */
  function HandleBookSeat<Bus, Route, Date>(bus: Bus, route: Route, searchDate: Date): (r: (string, SeatPageState<Bus, Route, Date>))
    ensures r.0 == "/seats"
    ensures r.1.bus == bus && r.1.route == route && r.1.date == searchDate
  {
    ("/seats", SeatPageState(bus, route, searchDate))
  }
}
