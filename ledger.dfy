/** The operation of the `BookingService` class (service/BookingService.java) as a function of
    the tables it reads, and the seat exclusivity it keeps. */
module Ledger {
  import opened Model
  import opened BookingStore
  import opened ShowtimeStore

  /** `createBooking`: resolve the showtime, check the seat, then insert. */
  function CreateBooking(showtimes: ShowtimeTable, t: BookingTable, dto: BookingDto): (out: Step<Booking, BookingTable>)
    requires t.Valid()
    ensures out.state.Valid()
    ensures dto.showtimeId !in showtimes.rows ==> out == Step(Err(ShowtimeNotFound), t)
    ensures dto.showtimeId in showtimes.rows && t.ExistsByShowtimeIdAndSeatNumber(dto.showtimeId, dto.seatNumber) ==>
              out == Step(Err(SeatAlreadyBooked), t)
    ensures out.result.Ok? <==> dto.showtimeId in showtimes.rows && !t.ExistsByShowtimeIdAndSeatNumber(dto.showtimeId, dto.seatNumber)
    ensures out.result.Ok? ==>
              var b := out.result.value;
              CarriesBooking(b, dto) && b.id !in t.rows && out.state.rows == t.rows[b.id := b]
    ensures t.SeatsExclusive() ==> out.state.SeatsExclusive()
  {
    if showtimes.FindById(dto.showtimeId).None? then Step(Err(ShowtimeNotFound), t)
    else if t.ExistsByShowtimeIdAndSeatNumber(dto.showtimeId, dto.seatNumber) then Step(Err(SeatAlreadyBooked), t)
    else
      var out := t.Save(NewBooking(dto));
      InsertKeepsSeatsExclusive(t, out.result.value);
      out
  }

  /** Adding a booking for a seat nobody holds keeps every seat held at most once. */
  lemma InsertKeepsSeatsExclusive(t: BookingTable, b: Booking)
    requires b.id !in t.rows && !t.ExistsByShowtimeIdAndSeatNumber(b.showtimeId, b.seatNumber)
    ensures t.SeatsExclusive() ==> t.(rows := t.rows[b.id := b]).SeatsExclusive()
  {
    if t.SeatsExclusive() {
      var rows' := t.rows[b.id := b];
      forall i, j | i in rows' && j in rows' && i != j
        ensures !SameSeat(rows'[i], rows'[j])
      {
        if i == b.id {
          assert rows'[j] == t.rows[j];
        } else if j == b.id {
          assert rows'[i] == t.rows[i];
        }
      }
    }
  }

  /** The seat query is keyed on the pair: with seats 1, 2 and 3 of one showtime booked, seat 1
      is reported taken and seat 999 of the same showtime free. */
  lemma SeatQueryFixture()
    ensures var t := BookingTable(map[1 := Booking(1, 1, 1, "84438967-f68f-4fa0-b620-0f08217e76af"),
                                      2 := Booking(2, 1, 2, "84438967-f68f-4fa0-b620-0f08217e76af"),
                                      3 := Booking(3, 1, 3, "another-user")], 4);
            t.ExistsByShowtimeIdAndSeatNumber(1, 1) && !t.ExistsByShowtimeIdAndSeatNumber(1, 999)
  {
    var t := BookingTable(map[1 := Booking(1, 1, 1, "84438967-f68f-4fa0-b620-0f08217e76af"),
                              2 := Booking(2, 1, 2, "84438967-f68f-4fa0-b620-0f08217e76af"),
                              3 := Booking(3, 1, 3, "another-user")], 4);
    assert t.rows[1].showtimeId == 1 && t.rows[1].seatNumber == 1;
  }

  /** Seat 3 of a showtime booked by "alice": "bob" cannot book seat 3, but can book seat 4. */
  lemma TakenSeatRefusedNeighbourFree(showtimes: ShowtimeTable, t: BookingTable, s: ShowtimeId)
    requires t.Valid() && s in showtimes.rows
    requires t.rows == map[1 := Booking(1, s, 3, "alice")]
    ensures CreateBooking(showtimes, t, BookingDto(s, 3, "bob")) == Step(Err(SeatAlreadyBooked), t)
    ensures CreateBooking(showtimes, t, BookingDto(s, 4, "bob")).result.Ok?
  {
    assert t.rows[1].seatNumber == 3;
  }
}
