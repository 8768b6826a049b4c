/** The three services as objects over shared repositories. Each write runs its resolve, check
    and save steps against the repositories and is proved to do exactly what the matching
    function of Catalog, Scheduler or Ledger describes. */
module Services {
  import opened Model
  import opened MovieStore
  import opened ShowtimeStore
  import opened BookingStore
  import Catalog
  import Scheduler
  import Ledger

  /** `MovieService`: owns the movie repository. */
  class MovieService {
    const movies: MovieRepository

    constructor (movies: MovieRepository)
      ensures this.movies == movies
    {
      this.movies := movies;
    }

    ghost predicate Valid()
      reads movies
    {
      movies.Valid()
    }

    /** No two movies share a title. */
    ghost predicate Consistent()
      reads movies
    {
      movies.Table().TitlesUnique()
    }

    method CreateMovie(dto: MovieDto) returns (r: Result<Movie>)
      requires Valid()
      modifies movies
      ensures Valid()
      ensures Step(r, movies.Table()) == Catalog.CreateMovie(old(movies.Table()), dto)
      ensures old(Consistent()) ==> Consistent()
    {
      if movies.Table().ExistsByTitle(dto.title) {
        return Err(DuplicateTitle);
      }
      r := movies.Save(NewMovie(dto));
    }

    method UpdateMovie(title: string, dto: MovieDto) returns (r: Result<Movie>)
      requires Valid()
      modifies movies
      ensures Valid()
      ensures Step(r, movies.Table()) == Catalog.UpdateMovie(old(movies.Table()), title, dto)
      ensures old(Consistent()) ==> Consistent()
    {
      var existing := Catalog.GetMovieByTitle(movies.Table(), title);
      if existing.Err? {
        return Err(existing.error);
      }
      var updated := NewMovie(dto).(id := existing.value.id);
      r := movies.Save(updated);
    }

    method DeleteMovie(title: string) returns (r: Result<()>)
      requires Valid()
      modifies movies
      ensures Valid()
      ensures Step(r, movies.Table()) == Catalog.DeleteMovie(old(movies.Table()), title)
      ensures old(Consistent()) ==> Consistent()
    {
      if !movies.Table().ExistsByTitle(title) {
        return Err(MovieNotFound);
      }
      movies.DeleteByTitle(title);
      r := Ok(());
    }
  }

  /** `ShowtimeService`: writes the showtime repository, reads the movie repository. */
  class ShowtimeService {
    const showtimes: ShowtimeRepository
    const movies: MovieRepository

    constructor (showtimes: ShowtimeRepository, movies: MovieRepository)
      ensures this.showtimes == showtimes && this.movies == movies
    {
      this.showtimes := showtimes;
      this.movies := movies;
    }

    ghost predicate Valid()
      reads showtimes
    {
      showtimes.Valid()
    }

    /** No two showtimes of one theater overlap. */
    ghost predicate Consistent()
      reads showtimes
    {
      showtimes.Table().NoOverlap()
    }

    method CreateShowtime(dto: ShowtimeDto) returns (r: Result<Showtime>)
      requires Valid()
      modifies showtimes
      ensures Valid()
      ensures Step(r, showtimes.Table()) == Scheduler.CreateShowtime(movies.Table(), old(showtimes.Table()), dto)
      ensures old(Consistent()) ==> Consistent()
    {
      if movies.Table().FindById(dto.movieId).None? {
        return Err(MovieNotFound);
      }
      var overlapping := showtimes.Table().FindOverlapping(dto.theater, dto.startTime, dto.endTime);
      if |overlapping| > 0 {
        return Err(OverlappingShowtimes);
      }
      var saved := showtimes.Save(NewShowtime(dto));
      r := Ok(saved);
    }

    /** As written: only the first overlapping showtime is compared with `id`, so the table may
        lose its freedom from overlaps (Scheduler.UpdateShowtimeBreaksNoOverlap). */
    method UpdateShowtime(id: ShowtimeId, dto: ShowtimeDto) returns (r: Result<Showtime>)
      requires Valid()
      modifies showtimes
      ensures Valid()
      ensures Step(r, showtimes.Table()) == Scheduler.UpdateShowtime(movies.Table(), old(showtimes.Table()), id, dto)
    {
      var existing := Scheduler.GetShowtimeById(showtimes.Table(), id);
      if existing.Err? {
        return Err(existing.error);
      }
      if movies.Table().FindById(dto.movieId).None? {
        return Err(MovieNotFound);
      }
      var overlapping := showtimes.Table().FindOverlapping(dto.theater, dto.startTime, dto.endTime);
      if |overlapping| > 0 && overlapping[0].id != id {
        return Err(OverlappingShowtimes);
      }
      var saved := showtimes.Save(NewShowtime(dto).(id := existing.value.id));
      r := Ok(saved);
    }

    /** Corrected: every overlapping showtime other than `id` refuses the update. */
    method UpdateShowtimeExcludingSelf(id: ShowtimeId, dto: ShowtimeDto) returns (r: Result<Showtime>)
      requires Valid()
      modifies showtimes
      ensures Valid()
      ensures Step(r, showtimes.Table()) == Scheduler.UpdateShowtimeExcludingSelf(movies.Table(), old(showtimes.Table()), id, dto)
      ensures old(Consistent()) ==> Consistent()
    {
      var existing := Scheduler.GetShowtimeById(showtimes.Table(), id);
      if existing.Err? {
        return Err(existing.error);
      }
      if movies.Table().FindById(dto.movieId).None? {
        return Err(MovieNotFound);
      }
      var overlapping := showtimes.Table().FindOverlapping(dto.theater, dto.startTime, dto.endTime);
      if exists i :: 0 <= i < |overlapping| && overlapping[i].id != id {
        return Err(OverlappingShowtimes);
      }
      var saved := showtimes.Save(NewShowtime(dto).(id := existing.value.id));
      r := Ok(saved);
    }

    method DeleteShowtime(id: ShowtimeId) returns (r: Result<()>)
      requires Valid()
      modifies showtimes
      ensures Valid()
      ensures Step(r, showtimes.Table()) == Scheduler.DeleteShowtime(old(showtimes.Table()), id)
      ensures old(Consistent()) ==> Consistent()
    {
      if !showtimes.Table().ExistsById(id) {
        return Err(ShowtimeNotFound);
      }
      showtimes.DeleteById(id);
      r := Ok(());
    }
  }

  /** `BookingService`: writes the booking repository, reads the showtime repository. */
  class BookingService {
    const bookings: BookingRepository
    const showtimes: ShowtimeRepository

    constructor (bookings: BookingRepository, showtimes: ShowtimeRepository)
      ensures this.bookings == bookings && this.showtimes == showtimes
    {
      this.bookings := bookings;
      this.showtimes := showtimes;
    }

    ghost predicate Valid()
      reads bookings
    {
      bookings.Valid()
    }

    /** No seat of a showtime is booked twice. */
    ghost predicate Consistent()
      reads bookings
    {
      bookings.Table().SeatsExclusive()
    }

    method CreateBooking(dto: BookingDto) returns (r: Result<Booking>)
      requires Valid()
      modifies bookings
      ensures Valid()
      ensures Step(r, bookings.Table()) == Ledger.CreateBooking(showtimes.Table(), old(bookings.Table()), dto)
      ensures old(Consistent()) ==> Consistent()
    {
      if showtimes.Table().FindById(dto.showtimeId).None? {
        return Err(ShowtimeNotFound);
      }
      if bookings.Table().ExistsByShowtimeIdAndSeatNumber(dto.showtimeId, dto.seatNumber) {
        return Err(SeatAlreadyBooked);
      }
      var saved := bookings.Save(NewBooking(dto));
      r := Ok(saved);
    }
  }
}
