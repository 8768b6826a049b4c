/** The operations of the `ShowtimeService` class (service/ShowtimeService.java) as functions of
    the tables it reads, and the non-overlap invariant those operations keep (or, in one case, do
    not keep). */
module Scheduler {
  import opened Model
  import opened ShowtimeStore
  import opened MovieStore

  /** The stored showtime `k` belongs to the request's theater and overlaps its interval. */
  ghost predicate ConflictsAt(t: ShowtimeTable, k: ShowtimeId, dto: ShowtimeDto) {
    k in t.rows && InConflict(t.rows[k], dto.theater, dto.startTime, dto.endTime)
  }

  /** Some stored showtime conflicts with the request. */
  ghost predicate HasConflict(t: ShowtimeTable, dto: ShowtimeDto) {
    exists k :: ConflictsAt(t, k, dto)
  }

  /** Some stored showtime other than `id` conflicts with the request. */
  ghost predicate ConflictsWithOther(t: ShowtimeTable, id: ShowtimeId, dto: ShowtimeDto) {
    exists k :: ConflictsAt(t, k, dto) && k != id
  }

  /** The conflicting showtime with the smallest id is not `id`: some other showtime conflicts,
      and either it comes before `id` or `id` itself does not conflict. */
  ghost predicate FirstConflictIsOther(t: ShowtimeTable, id: ShowtimeId, dto: ShowtimeDto) {
    exists k :: ConflictsAt(t, k, dto) && k != id && (k < id || !ConflictsAt(t, id, dto))
  }

  /** `getShowtimeById`. */
  function GetShowtimeById(t: ShowtimeTable, id: ShowtimeId): (r: Result<Showtime>)
    requires t.Valid()
    ensures r.Ok? <==> id in t.rows
    ensures r.Ok? ==> r.value == t.rows[id] && r.value.id == id
    ensures r.Err? ==> r.error == ShowtimeNotFound
  {
    match t.FindById(id)
    case Some(s) => Ok(s)
    case None => Err(ShowtimeNotFound)
  }

  /** `createShowtime`: resolve the movie, query for overlaps, then insert. */
  function CreateShowtime(movies: MovieTable, t: ShowtimeTable, dto: ShowtimeDto): (out: Step<Showtime, ShowtimeTable>)
    requires t.Valid()
    ensures out.state.Valid()
    ensures dto.movieId !in movies.rows ==> out == Step(Err(MovieNotFound), t)
    ensures dto.movieId in movies.rows && HasConflict(t, dto) ==> out == Step(Err(OverlappingShowtimes), t)
    ensures out.result.Ok? <==> dto.movieId in movies.rows && !HasConflict(t, dto)
    ensures out.result.Ok? ==>
              var s := out.result.value;
              CarriesShowtime(s, dto) && s.id !in t.rows && out.state.rows == t.rows[s.id := s]
    ensures t.NoOverlap() ==> out.state.NoOverlap()
  {
    if movies.FindById(dto.movieId).None? then Step(Err(MovieNotFound), t)
    else
      var overlapping := t.FindOverlapping(dto.theater, dto.startTime, dto.endTime);
      if |overlapping| > 0 then
        assert ConflictsAt(t, overlapping[0].id, dto);
        Step(Err(OverlappingShowtimes), t)
      else
        var out := t.Save(NewShowtime(dto));
        InsertKeepsNoOverlap(t, out.result.value, dto);
        out
  }

  /** Adding a showtime that conflicts with nothing stored keeps the table free of overlaps. */
  lemma InsertKeepsNoOverlap(t: ShowtimeTable, s: Showtime, dto: ShowtimeDto)
    requires !ConflictsWithOther(t, s.id, dto) && CarriesShowtime(s, dto)
    ensures t.NoOverlap() ==> t.(rows := t.rows[s.id := s]).NoOverlap()
  {
    if t.NoOverlap() {
      var rows' := t.rows[s.id := s];
      forall i, j | i in rows' && j in rows' && i != j
        ensures !Clash(rows'[i], rows'[j])
      {
        if i == s.id {
          assert !ConflictsAt(t, j, dto);
          ClashSymmetric(rows'[i], rows'[j]);
        } else if j == s.id {
          assert !ConflictsAt(t, i, dto);
        }
      }
    }
  }

  /** The first element of the ordered overlap list is another showtime exactly when
      FirstConflictIsOther holds. */
  lemma FirstOfOverlapping(t: ShowtimeTable, id: ShowtimeId, dto: ShowtimeDto)
    requires t.Valid()
    ensures var q := t.FindOverlapping(dto.theater, dto.startTime, dto.endTime);
            (|q| > 0 && q[0].id != id) <==> FirstConflictIsOther(t, id, dto)
  {
    var q := t.FindOverlapping(dto.theater, dto.startTime, dto.endTime);
    if |q| > 0 && q[0].id != id {
      var k := q[0].id;
      assert ConflictsAt(t, k, dto);
      if ConflictsAt(t, id, dto) {
        assert t.rows[id] in q;
        var i :| 0 <= i < |q| && q[i] == t.rows[id];
        assert q[i].id == id;
      }
    }
    if FirstConflictIsOther(t, id, dto) {
      var k :| ConflictsAt(t, k, dto) && k != id && (k < id || !ConflictsAt(t, id, dto));
      assert t.rows[k] in q;
      var i :| 0 <= i < |q| && q[i] == t.rows[k];
      assert q[i].id == k;
      assert i == 0 || q[0].id < k;
    }
  }

  /** `updateShowtime` as written: resolve the showtime, then the movie, then accept the request
      unless the FIRST element of the overlap list is a showtime other than `id`. */
  function UpdateShowtime(movies: MovieTable, t: ShowtimeTable, id: ShowtimeId, dto: ShowtimeDto): (out: Step<Showtime, ShowtimeTable>)
    requires t.Valid()
    ensures out.state.Valid()
    ensures id !in t.rows ==> out == Step(Err(ShowtimeNotFound), t)
    ensures id in t.rows && dto.movieId !in movies.rows ==> out == Step(Err(MovieNotFound), t)
    ensures id in t.rows && dto.movieId in movies.rows ==>
              (out.result.Err? <==> FirstConflictIsOther(t, id, dto))
    ensures out.result.Err? ==> out.state == t
    ensures out.result.Err? && id in t.rows && dto.movieId in movies.rows ==> out.result.error == OverlappingShowtimes
    ensures out.result.Ok? ==>
              var s := out.result.value;
              s.id == id && CarriesShowtime(s, dto) && out.state.rows == t.rows[id := s]
  {
    match GetShowtimeById(t, id)
    case Err(e) => Step(Err(e), t)
    case Ok(existing) =>
      if movies.FindById(dto.movieId).None? then Step(Err(MovieNotFound), t)
      else
        var overlapping := t.FindOverlapping(dto.theater, dto.startTime, dto.endTime);
        FirstOfOverlapping(t, id, dto);
        if |overlapping| > 0 && overlapping[0].id != id then Step(Err(OverlappingShowtimes), t)
        else t.Save(NewShowtime(dto).(id := existing.id))
  }

  /** `updateShowtime` with the evidently intended check: the showtime's own row is left out of
      the whole overlap list, not only when it comes first. */
  function UpdateShowtimeExcludingSelf(movies: MovieTable, t: ShowtimeTable, id: ShowtimeId, dto: ShowtimeDto): (out: Step<Showtime, ShowtimeTable>)
    requires t.Valid()
    ensures out.state.Valid()
    ensures id !in t.rows ==> out == Step(Err(ShowtimeNotFound), t)
    ensures id in t.rows && dto.movieId !in movies.rows ==> out == Step(Err(MovieNotFound), t)
    ensures id in t.rows && dto.movieId in movies.rows ==>
              (out.result.Err? <==> ConflictsWithOther(t, id, dto))
    ensures out.result.Err? ==> out.state == t
    ensures out.result.Err? && id in t.rows && dto.movieId in movies.rows ==> out.result.error == OverlappingShowtimes
    ensures out.result.Ok? ==>
              var s := out.result.value;
              s.id == id && CarriesShowtime(s, dto) && out.state.rows == t.rows[id := s]
    ensures t.NoOverlap() ==> out.state.NoOverlap()
  {
    match GetShowtimeById(t, id)
    case Err(e) => Step(Err(e), t)
    case Ok(existing) =>
      if movies.FindById(dto.movieId).None? then Step(Err(MovieNotFound), t)
      else
        var overlapping := t.FindOverlapping(dto.theater, dto.startTime, dto.endTime);
        if exists i :: 0 <= i < |overlapping| && overlapping[i].id != id then
          assert ConflictsWithOther(t, id, dto) by {
            var i :| 0 <= i < |overlapping| && overlapping[i].id != id;
            assert ConflictsAt(t, overlapping[i].id, dto);
          }
          Step(Err(OverlappingShowtimes), t)
        else
          var out := t.Save(NewShowtime(dto).(id := existing.id));
          InsertKeepsNoOverlap(t, out.result.value, dto);
          out
  }

  /** `deleteShowtime`. */
  function DeleteShowtime(t: ShowtimeTable, id: ShowtimeId): (out: Step<(), ShowtimeTable>)
    requires t.Valid()
    ensures out.state.Valid()
    ensures id !in t.rows ==> out == Step(Err(ShowtimeNotFound), t)
    ensures id in t.rows ==> out.result.Ok? && out.state.rows.Keys == t.rows.Keys - {id}
    ensures forall k :: k in out.state.rows ==> out.state.rows[k] == t.rows[k]
    ensures t.NoOverlap() ==> out.state.NoOverlap()
  {
    if !t.ExistsById(id) then Step(Err(ShowtimeNotFound), t)
    else Step(Ok(()), t.DeleteById(id))
  }

  /** The first-element check lets a second, foreign conflict through: a table free of overlaps,
      an update of showtime 1 that overlaps both its own old slot (first in the list) and
      showtime 2, accepted, and a table with an overlap afterwards. */
  lemma UpdateShowtimeBreaksNoOverlap()
    ensures var movies := MovieTable(map[1 := Movie(1, "The Matrix", "Sci-Fi", 136, 8.7, 1999)], 2);
            var t := ShowtimeTable(map[1 := Showtime(1, 12.99, 1, "Theater 1", 0, 10),
                                       2 := Showtime(2, 12.99, 1, "Theater 1", 10, 20)], 3);
            var dto := ShowtimeDto(1, 12.99, "Theater 1", 5, 15);
            var out := UpdateShowtime(movies, t, 1, dto);
            t.Valid() && t.NoOverlap() && out.result.Ok? && !out.state.NoOverlap()
  {
    var movies := MovieTable(map[1 := Movie(1, "The Matrix", "Sci-Fi", 136, 8.7, 1999)], 2);
    var t := ShowtimeTable(map[1 := Showtime(1, 12.99, 1, "Theater 1", 0, 10),
                               2 := Showtime(2, 12.99, 1, "Theater 1", 10, 20)], 3);
    var dto := ShowtimeDto(1, 12.99, "Theater 1", 5, 15);
    assert ConflictsAt(t, 1, dto);
    assert !FirstConflictIsOther(t, 1, dto);
    var out := UpdateShowtime(movies, t, 1, dto);
    assert out.state.rows[1].id == 1 && out.state.rows[2] == t.rows[2];
    assert Clash(out.state.rows[1], out.state.rows[2]);
  }

  /** The same request is refused by the corrected check. */
  lemma UpdateShowtimeExcludingSelfRefuses()
    ensures var movies := MovieTable(map[1 := Movie(1, "The Matrix", "Sci-Fi", 136, 8.7, 1999)], 2);
            var t := ShowtimeTable(map[1 := Showtime(1, 12.99, 1, "Theater 1", 0, 10),
                                       2 := Showtime(2, 12.99, 1, "Theater 1", 10, 20)], 3);
            var dto := ShowtimeDto(1, 12.99, "Theater 1", 5, 15);
            UpdateShowtimeExcludingSelf(movies, t, 1, dto) == Step(Err(OverlappingShowtimes), t)
  {
    var t := ShowtimeTable(map[1 := Showtime(1, 12.99, 1, "Theater 1", 0, 10),
                               2 := Showtime(2, 12.99, 1, "Theater 1", 10, 20)], 3);
    var dto := ShowtimeDto(1, 12.99, "Theater 1", 5, 15);
    assert ConflictsAt(t, 2, dto);
  }

  /** The overlap query returns only showtimes of the requested theater, and nothing for an
      interval no stored showtime of that theater overlaps (the repository test's fixture: two
      showtimes in "Theater 1", one in "Theater 2"). */
  lemma OverlapQueryFixture()
    ensures var t := ShowtimeTable(map[1 := Showtime(1, 12.99, 1, "Theater 1", 1000, 1136),
                                       2 := Showtime(2, 12.99, 1, "Theater 1", 1180, 1316),
                                       3 := Showtime(3, 12.99, 1, "Theater 2", 2440, 2576)], 4);
            var found := t.FindOverlapping("Theater 1", 970, 1240);
            |found| == 2 && (forall i :: 0 <= i < |found| ==> found[i].theater == "Theater 1")
            && t.FindOverlapping("Theater 1", 3880, 4016) == []
  {
    var t := ShowtimeTable(map[1 := Showtime(1, 12.99, 1, "Theater 1", 1000, 1136),
                               2 := Showtime(2, 12.99, 1, "Theater 1", 1180, 1316),
                               3 := Showtime(3, 12.99, 1, "Theater 2", 2440, 2576)], 4);
    assert t.OverlappingFrom("Theater 1", 970, 1240, 4) == [];
    assert t.OverlappingFrom("Theater 1", 970, 1240, 3) == [];
    assert t.OverlappingFrom("Theater 1", 970, 1240, 2) == [t.rows[2]];
    assert t.OverlappingFrom("Theater 1", 970, 1240, 1) == [t.rows[1], t.rows[2]];
    assert t.OverlappingFrom("Theater 1", 3880, 4016, 4) == [];
    assert t.OverlappingFrom("Theater 1", 3880, 4016, 3) == [];
    assert t.OverlappingFrom("Theater 1", 3880, 4016, 2) == [];
    assert t.OverlappingFrom("Theater 1", 3880, 4016, 1) == [];
  }

  /** A slot that only touches an existing one in the same theater is accepted; one that
      overlaps it is refused. */
  lemma TouchingSlotAccepted(movies: MovieTable, t: ShowtimeTable, s: Showtime)
    requires t.Valid() && t.NoOverlap()
    requires t.rows == map[s.id := s] && s.movieId in movies.rows && s.startTime < s.endTime
    ensures CreateShowtime(movies, t, ShowtimeDto(s.movieId, s.price, s.theater, s.endTime, s.endTime + 120)).result.Ok?
    ensures CreateShowtime(movies, t, ShowtimeDto(s.movieId, s.price, s.theater, s.endTime - 1, s.endTime + 120))
            == Step(Err(OverlappingShowtimes), t)
  {
    assert ConflictsAt(t, s.id, ShowtimeDto(s.movieId, s.price, s.theater, s.endTime - 1, s.endTime + 120));
  }
}
