/** The `movies` table: its rows, the repository queries the catalog relies on, the unique title
    column, and the repository object that holds the table. */
module MovieStore {
  import opened Model

  datatype MovieTable = MovieTable(rows: map<MovieId, Movie>, nextId: MovieId) {

    /** Every row sits under its own id, drawn from the identity counter. */
    ghost predicate Valid() {
      1 <= nextId && forall k :: k in rows ==> 1 <= k < nextId && rows[k].id == k
    }

    /** No two distinct movies share a title. */
    ghost predicate TitlesUnique() {
      forall i, j :: i in rows && j in rows && i != j ==> rows[i].title != rows[j].title
    }

    /** `findById`. */
    function FindById(id: MovieId): Option<Movie> {
      if id in rows then Some(rows[id]) else None
    }

    /** `existsByTitle`. */
    predicate ExistsByTitle(title: string) {
      exists k :: k in rows && rows[k].title == title
    }

    /** A row other than the one stored under `id` holds `title`. */
    predicate TitleHeldByOther(title: string, id: MovieId) {
      exists k :: k in rows && k != id && rows[k].title == title
    }

    /** `findByTitle`: the first movie, in ascending id order, with that title. */
    function FindByTitle(title: string): (r: Option<Movie>)
      requires Valid()
      ensures r.Some? ==> r.value.id in rows && rows[r.value.id] == r.value && r.value.title == title
      ensures r.None? <==> !ExistsByTitle(title)
    {
      TitleFrom(title, 1)
    }

    /** The title search over ids `k` and above. */
    function TitleFrom(title: string, k: MovieId): (r: Option<Movie>)
      requires Valid()
      decreases nextId - k
      ensures r.Some? ==> k <= r.value.id && r.value.id in rows && rows[r.value.id] == r.value && r.value.title == title
      ensures r.None? <==> forall j :: k <= j && j in rows ==> rows[j].title != title
    {
      if k >= nextId then None
      else if k in rows && rows[k].title == title then Some(rows[k])
      else TitleFrom(title, k + 1)
    }

    /** `findAll`: every movie, in ascending id order. */
    function FindAll(): (r: seq<Movie>)
      requires Valid()
      ensures forall i :: 0 <= i < |r| ==> r[i].id in rows && rows[r[i].id] == r[i]
      ensures forall k :: k in rows ==> rows[k] in r
      ensures forall i, j :: 0 <= i < j < |r| ==> r[i].id < r[j].id
    {
      AllFrom(1)
    }

    /** The movies with ids `k` and above. */
    function AllFrom(k: MovieId): (r: seq<Movie>)
      requires Valid()
      decreases nextId - k
      ensures forall i :: 0 <= i < |r| ==> k <= r[i].id && r[i].id in rows && rows[r[i].id] == r[i]
      ensures forall j :: k <= j && j in rows ==> rows[j] in r
      ensures forall i, j :: 0 <= i < j < |r| ==> r[i].id < r[j].id
    {
      if k >= nextId then []
      else if k in rows then [rows[k]] + AllFrom(k + 1)
      else AllFrom(k + 1)
    }

    /** `save`, with the title column's unique constraint: a title another row already holds is
        refused; otherwise an entity whose id names a stored row replaces that row, and any other
        entity is inserted under a fresh id. */
    function Save(m: Movie): (out: Step<Movie, MovieTable>)
      requires Valid()
      ensures out.state.Valid()
      ensures TitleHeldByOther(m.title, m.id) <==> out == Step(Err(TitleConstraintViolation), this)
      ensures out.result.Ok? <==> !TitleHeldByOther(m.title, m.id)
      ensures out.result.Ok? ==>
                out.result.value.id in out.state.rows && out.state.rows == rows[out.result.value.id := out.result.value]
      ensures out.result.Ok? && m.id in rows ==> out.result.value == m
      ensures out.result.Ok? && m.id !in rows ==>
                out.result.value.id !in rows && out.result.value == m.(id := out.result.value.id)
      ensures TitlesUnique() ==> out.state.TitlesUnique()
    {
      if TitleHeldByOther(m.title, m.id) then Step(Err(TitleConstraintViolation), this)
      else if m.id in rows then Step(Ok(m), this.(rows := rows[m.id := m]))
      else
        var saved := m.(id := nextId);
        Step(Ok(saved), MovieTable(rows[nextId := saved], nextId + 1))
    }

    /** `deleteByTitle`: removes every row with that title. */
    function DeleteByTitle(title: string): (t: MovieTable)
      ensures t.rows.Keys <= rows.Keys
      ensures forall k :: k in t.rows ==> t.rows[k] == rows[k] && t.rows[k].title != title
      ensures forall k :: k in rows && rows[k].title != title ==> k in t.rows
      ensures Valid() ==> t.Valid()
      ensures TitlesUnique() ==> t.TitlesUnique()
    {
      this.(rows := map k | k in rows && rows[k].title != title :: rows[k])
    }
  }

  /** The repository object: one in-memory table shared by the services that use it. */
  class MovieRepository {
    var rows: map<MovieId, Movie>
    var nextId: MovieId

    constructor ()
      ensures Table() == MovieTable(map[], 1) && Valid()
    {
      rows, nextId := map[], 1;
    }

    function Table(): MovieTable
      reads this
    {
      MovieTable(rows, nextId)
    }

    ghost predicate Valid()
      reads this
    {
      Table().Valid()
    }

    method Save(m: Movie) returns (r: Result<Movie>)
      requires Valid()
      modifies this
      ensures Valid()
      ensures Step(r, Table()) == old(Table()).Save(m)
    {
      if Table().TitleHeldByOther(m.title, m.id) {
        r := Err(TitleConstraintViolation);
      } else if m.id in rows {
        r := Ok(m);
        rows := rows[m.id := m];
      } else {
        var saved := m.(id := nextId);
        r := Ok(saved);
        rows := rows[nextId := saved];
        nextId := nextId + 1;
      }
    }

    method DeleteByTitle(title: string)
      requires Valid()
      modifies this
      ensures Valid()
      ensures Table() == old(Table()).DeleteByTitle(title)
    {
      rows := map k | k in rows && rows[k].title != title :: rows[k];
    }
  }
}
