/** The operations of the `MovieService` class (service/MovieService.java) as functions of the
    movie table, and the title uniqueness those operations keep. */
module Catalog {
  import opened Model
  import opened MovieStore

  /** `createMovie`: refuse a title already present, otherwise insert. */
  function CreateMovie(t: MovieTable, dto: MovieDto): (out: Step<Movie, MovieTable>)
    requires t.Valid()
    ensures out.state.Valid()
    ensures t.ExistsByTitle(dto.title) ==> out == Step(Err(DuplicateTitle), t)
    ensures out.result.Ok? <==> !t.ExistsByTitle(dto.title)
    ensures out.result.Ok? ==>
              var m := out.result.value;
              CarriesMovie(m, dto) && m.id !in t.rows && out.state.rows == t.rows[m.id := m]
    ensures t.TitlesUnique() ==> out.state.TitlesUnique()
  {
    if t.ExistsByTitle(dto.title) then Step(Err(DuplicateTitle), t)
    else t.Save(NewMovie(dto))
  }

  /** `getAllMovies`: every stored movie, each once, in ascending id order. */
  function GetAllMovies(t: MovieTable): (r: seq<Movie>)
    requires t.Valid()
    ensures forall i :: 0 <= i < |r| ==> r[i].id in t.rows && t.rows[r[i].id] == r[i]
    ensures forall k :: k in t.rows ==> t.rows[k] in r
    ensures forall i, j :: 0 <= i < j < |r| ==> r[i] != r[j]
  {
    t.FindAll()
  }

  /** `getMovieByTitle`: the stored movie with that title, or not-found. */
  function GetMovieByTitle(t: MovieTable, title: string): (r: Result<Movie>)
    requires t.Valid()
    ensures r.Ok? <==> t.ExistsByTitle(title)
    ensures r.Ok? ==> r.value.title == title && r.value.id in t.rows && t.rows[r.value.id] == r.value
    ensures r.Err? ==> r.error == MovieNotFound
  {
    match t.FindByTitle(title)
    case Some(m) => Ok(m)
    case None => Err(MovieNotFound)
  }

  /** With unique titles, the lookup returns exactly the movie stored under that title. */
  lemma GetMovieByTitleFindsTheMovie(t: MovieTable, k: MovieId)
    requires t.Valid() && t.TitlesUnique() && k in t.rows
    ensures GetMovieByTitle(t, t.rows[k].title) == Ok(t.rows[k])
  {
    var r := GetMovieByTitle(t, t.rows[k].title);
    assert r.value.id == k;
  }

  /** `updateMovie`: look the movie up by its current title, then save the request's columns
      under the existing id. The service does not compare the new title with other movies;
      only the title column's unique constraint refuses a clash. */
  function UpdateMovie(t: MovieTable, title: string, dto: MovieDto): (out: Step<Movie, MovieTable>)
    requires t.Valid()
    ensures out.state.Valid()
    ensures !t.ExistsByTitle(title) ==> out == Step(Err(MovieNotFound), t)
    ensures out.result.Err? ==> out.state == t
    ensures out.result.Ok? ==>
              var m := out.result.value;
              CarriesMovie(m, dto) && m.id in t.rows && t.rows[m.id].title == title
              && out.state.rows == t.rows[m.id := m]
    ensures t.TitlesUnique() && t.ExistsByTitle(title) ==>
              (out.result.Ok? <==> (dto.title == title || !t.ExistsByTitle(dto.title)))
    ensures t.TitlesUnique() && t.ExistsByTitle(title) && out.result.Err? ==> out.result.error == TitleConstraintViolation
    ensures t.TitlesUnique() ==> out.state.TitlesUnique()
  {
    match GetMovieByTitle(t, title)
    case Err(e) => Step(Err(e), t)
    case Ok(existing) =>
      var updated := NewMovie(dto).(id := existing.id);
      assert t.TitlesUnique() && dto.title == title ==> !t.TitleHeldByOther(dto.title, existing.id);
      assert t.ExistsByTitle(dto.title) && dto.title != title ==> t.TitleHeldByOther(dto.title, existing.id);
      t.Save(updated)
  }

  /** `deleteMovie`: refuse an absent title, otherwise delete by title. */
  function DeleteMovie(t: MovieTable, title: string): (out: Step<(), MovieTable>)
    requires t.Valid()
    ensures out.state.Valid()
    ensures !t.ExistsByTitle(title) ==> out == Step(Err(MovieNotFound), t)
    ensures t.ExistsByTitle(title) ==> out.result.Ok?
    ensures !out.state.ExistsByTitle(title)
    ensures forall k :: k in t.rows && t.rows[k].title != title ==> k in out.state.rows && out.state.rows[k] == t.rows[k]
    ensures out.state.rows.Keys <= t.rows.Keys
    ensures t.TitlesUnique() ==> out.state.TitlesUnique()
  {
    if !t.ExistsByTitle(title) then Step(Err(MovieNotFound), t)
    else Step(Ok(()), t.DeleteByTitle(title))
  }

  /** `n` consecutive calls of `createMovie` with the same request: their results in order, and
      the table after them. */
  function CreateRepeatedly(t: MovieTable, dto: MovieDto, n: nat): (seq<Result<Movie>>, MovieTable)
    requires t.Valid()
    decreases n
  {
    if n == 0 then ([], t)
    else
      var first := CreateMovie(t, dto);
      var (results, last) := CreateRepeatedly(first.state, dto, n - 1);
      ([first.result] + results, last)
  }

  /** Repeating a create whose title is taken fails every time with the same error and never
      changes the table. */
  lemma {:induction false} DuplicateCreateIsStable(t: MovieTable, dto: MovieDto, n: nat)
    requires t.Valid() && t.ExistsByTitle(dto.title)
    ensures var (results, last) := CreateRepeatedly(t, dto, n);
            last == t && |results| == n && forall i :: 0 <= i < n ==> results[i] == Err(DuplicateTitle)
  {
    if n > 0 {
      DuplicateCreateIsStable(t, dto, n - 1);
    }
  }

  /** Creating the same movie twice fails the second time with a duplicate title; deleting it
      by title and creating it again succeeds. */
  lemma CreateDeleteRecreate(t: MovieTable, dto: MovieDto)
    requires t.Valid() && !t.ExistsByTitle(dto.title)
    ensures var first := CreateMovie(t, dto);
            var second := CreateMovie(first.state, dto);
            var deleted := DeleteMovie(second.state, dto.title);
            var third := CreateMovie(deleted.state, dto);
            first.result.Ok? && second == Step(Err(DuplicateTitle), first.state)
            && deleted.result.Ok? && third.result.Ok?
  {
    var first := CreateMovie(t, dto);
    assert first.state.rows[first.result.value.id].title == dto.title;
  }
}
