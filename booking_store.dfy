/** The `bookings` table: its rows, the seat query the ledger relies on, and the repository object
    that holds the table. */
module BookingStore {
  import opened Model

  /** Two bookings claim the same seat of the same showtime. */
  predicate SameSeat(a: Booking, b: Booking) {
    a.showtimeId == b.showtimeId && a.seatNumber == b.seatNumber
  }

  datatype BookingTable = BookingTable(rows: map<BookingId, Booking>, nextId: BookingId) {

    /** Every row sits under its own id, drawn from the id generator. */
    ghost predicate Valid() {
      1 <= nextId && forall k :: k in rows ==> 1 <= k < nextId && rows[k].id == k
    }

    /** No two distinct bookings claim the same seat of the same showtime. */
    ghost predicate SeatsExclusive() {
      forall i, j :: i in rows && j in rows && i != j ==> !SameSeat(rows[i], rows[j])
    }

    /** `existsByShowtimeIdAndSeatNumber`. */
    predicate ExistsByShowtimeIdAndSeatNumber(showtimeId: ShowtimeId, seatNumber: int) {
      exists k :: k in rows && rows[k].showtimeId == showtimeId && rows[k].seatNumber == seatNumber
    }

    /** `save`: an entity whose id names a stored row replaces that row; any other entity is
        inserted under a freshly generated id. */
    function Save(b: Booking): (out: Step<Booking, BookingTable>)
      requires Valid()
      ensures out.state.Valid() && out.result.Ok?
      ensures out.result.value.id in out.state.rows && out.state.rows == rows[out.result.value.id := out.result.value]
      ensures b.id in rows ==> out.result.value == b
      ensures b.id !in rows ==> out.result.value.id !in rows && out.result.value == b.(id := out.result.value.id)
    {
      if b.id in rows then Step(Ok(b), this.(rows := rows[b.id := b]))
      else
        var saved := b.(id := nextId);
        Step(Ok(saved), BookingTable(rows[nextId := saved], nextId + 1))
    }
  }

  /** The repository object: one in-memory table. */
  class BookingRepository {
    var rows: map<BookingId, Booking>
    var nextId: BookingId

    constructor ()
      ensures Table() == BookingTable(map[], 1) && Valid()
    {
      rows, nextId := map[], 1;
    }

    function Table(): BookingTable
      reads this
    {
      BookingTable(rows, nextId)
    }

    ghost predicate Valid()
      reads this
    {
      Table().Valid()
    }

    method Save(b: Booking) returns (saved: Booking)
      requires Valid()
      modifies this
      ensures Valid()
      ensures Step(Ok(saved), Table()) == old(Table()).Save(b)
    {
      if b.id in rows {
        saved := b;
        rows := rows[b.id := b];
      } else {
        saved := b.(id := nextId);
        rows := rows[nextId := saved];
        nextId := nextId + 1;
      }
    }
  }
}
