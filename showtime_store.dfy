/** The `showtimes` table: its rows, the repository queries the scheduler relies on, and the
    repository object that holds the table. */
module ShowtimeStore {
  import opened Model

  /** Half-open intervals [aStart, aEnd) and [bStart, bEnd) overlap when each starts before the
      other ends; intervals that only touch do not. */
  predicate Overlaps(aStart: int, aEnd: int, bStart: int, bEnd: int) {
    aStart < bEnd && bStart < aEnd
  }

  /** The filter of `findOverlappingShowtimes(theater, start, end)`: a showtime of that theater
      whose interval overlaps [start, end). */
  predicate InConflict(s: Showtime, theater: string, start: int, end: int) {
    s.theater == theater && Overlaps(s.startTime, s.endTime, start, end)
  }

  /** Two showtimes of one theater whose intervals overlap. */
  predicate Clash(a: Showtime, b: Showtime) {
    InConflict(a, b.theater, b.startTime, b.endTime)
  }

  lemma ClashSymmetric(a: Showtime, b: Showtime)
    ensures Clash(a, b) <==> Clash(b, a)
  {
  }

  datatype ShowtimeTable = ShowtimeTable(rows: map<ShowtimeId, Showtime>, nextId: ShowtimeId) {

    /** Every row sits under its own id, drawn from the identity counter. */
    ghost predicate Valid() {
      1 <= nextId && forall k :: k in rows ==> 1 <= k < nextId && rows[k].id == k
    }

    /** No two distinct showtimes of the same theater overlap. */
    ghost predicate NoOverlap() {
      forall i, j :: i in rows && j in rows && i != j ==> !Clash(rows[i], rows[j])
    }

    /** `findById`. */
    function FindById(id: ShowtimeId): Option<Showtime> {
      if id in rows then Some(rows[id]) else None
    }

    /** `existsById`. */
    predicate ExistsById(id: ShowtimeId) {
      id in rows
    }

    /** `findOverlappingShowtimes`: the showtimes of `theater` overlapping [start, end), in
        ascending id order. */
    function FindOverlapping(theater: string, start: int, end: int): (r: seq<Showtime>)
      requires Valid()
      ensures forall i :: 0 <= i < |r| ==>
                r[i].id in rows && rows[r[i].id] == r[i] && InConflict(r[i], theater, start, end)
      ensures forall k :: k in rows && InConflict(rows[k], theater, start, end) ==> rows[k] in r
      ensures forall i, j :: 0 <= i < j < |r| ==> r[i].id < r[j].id
    {
      OverlappingFrom(theater, start, end, 1)
    }

    /** The part of the overlap query over ids `k` and above. */
    function OverlappingFrom(theater: string, start: int, end: int, k: ShowtimeId): (r: seq<Showtime>)
      requires Valid()
      decreases nextId - k
      ensures forall i :: 0 <= i < |r| ==>
                k <= r[i].id && r[i].id in rows && rows[r[i].id] == r[i] && InConflict(r[i], theater, start, end)
      ensures forall j :: k <= j && j in rows && InConflict(rows[j], theater, start, end) ==> rows[j] in r
      ensures forall i, j :: 0 <= i < j < |r| ==> r[i].id < r[j].id
    {
      if k >= nextId then []
      else if k in rows && InConflict(rows[k], theater, start, end) then
        [rows[k]] + OverlappingFrom(theater, start, end, k + 1)
      else
        OverlappingFrom(theater, start, end, k + 1)
    }

    /** `save`: an entity whose id names a stored row replaces that row; any other entity is
        inserted under a fresh id. */
    function Save(s: Showtime): (out: Step<Showtime, ShowtimeTable>)
      requires Valid()
      ensures out.state.Valid() && out.result.Ok?
      ensures out.result.value.id in out.state.rows && out.state.rows == rows[out.result.value.id := out.result.value]
      ensures s.id in rows ==> out.result.value == s
      ensures s.id !in rows ==> out.result.value.id !in rows && out.result.value == s.(id := out.result.value.id)
    {
      if s.id in rows then Step(Ok(s), this.(rows := rows[s.id := s]))
      else
        var saved := s.(id := nextId);
        Step(Ok(saved), ShowtimeTable(rows[nextId := saved], nextId + 1))
    }

    /** `deleteById`. */
    function DeleteById(id: ShowtimeId): (t: ShowtimeTable)
      ensures t.rows.Keys == rows.Keys - {id}
      ensures forall k :: k in t.rows ==> t.rows[k] == rows[k]
      ensures Valid() ==> t.Valid()
      ensures NoOverlap() ==> t.NoOverlap()
    {
      this.(rows := rows - {id})
    }
  }

  /** The repository object: one in-memory table shared by the services that use it. */
  class ShowtimeRepository {
    var rows: map<ShowtimeId, Showtime>
    var nextId: ShowtimeId

    constructor ()
      ensures Table() == ShowtimeTable(map[], 1) && Valid()
    {
      rows, nextId := map[], 1;
    }

    function Table(): ShowtimeTable
      reads this
    {
      ShowtimeTable(rows, nextId)
    }

    ghost predicate Valid()
      reads this
    {
      Table().Valid()
    }

    method Save(s: Showtime) returns (saved: Showtime)
      requires Valid()
      modifies this
      ensures Valid()
      ensures Step(Ok(saved), Table()) == old(Table()).Save(s)
    {
      if s.id in rows {
        saved := s;
        rows := rows[s.id := s];
      } else {
        saved := s.(id := nextId);
        rows := rows[nextId := saved];
        nextId := nextId + 1;
      }
    }

    method DeleteById(id: ShowtimeId)
      requires Valid()
      modifies this
      ensures Valid()
      ensures Table() == old(Table()).DeleteById(id)
    {
      rows := rows - {id};
    }
  }
}
