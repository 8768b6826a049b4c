/** Records, request shapes and failures shared by the cinema's three tables. */
module Model {

  /** Identity columns (Java `Long`). Stored rows carry ids from 1 upwards. */
  type MovieId = int
  type ShowtimeId = int
  /** The store generates a UUID for each booking; the model draws it from a counter. */
  type BookingId = int

  /** The id of an entity that has not been saved yet (Java's `null`). */
  const Unassigned: int := 0

  /** A row of the `movies` table; `rating` is a `Double` in the source and is never computed with. */
  datatype Movie = Movie(id: MovieId, title: string, genre: string, duration: int, rating: real, releaseYear: int)

  /** The request body of a movie create or update. */
  datatype MovieDto = MovieDto(title: string, genre: string, duration: int, rating: real, releaseYear: int)

  /** A row of the `showtimes` table; times are instants on an integer clock. */
  datatype Showtime = Showtime(id: ShowtimeId, price: real, movieId: MovieId, theater: string,
                               startTime: int, endTime: int)

  /** The request body of a showtime create or update. */
  datatype ShowtimeDto = ShowtimeDto(movieId: MovieId, price: real, theater: string, startTime: int, endTime: int)

  /** A row of the `bookings` table. */
  datatype Booking = Booking(id: BookingId, showtimeId: ShowtimeId, seatNumber: int, userId: string)

  /** The request body of a booking create. */
  datatype BookingDto = BookingDto(showtimeId: ShowtimeId, seatNumber: int, userId: string)

  /** `new Movie(dto)`: every column taken from the request, no id yet. */
  function NewMovie(dto: MovieDto): Movie {
    Movie(Unassigned, dto.title, dto.genre, dto.duration, dto.rating, dto.releaseYear)
  }

  /** `new Showtime(dto)`. */
  function NewShowtime(dto: ShowtimeDto): Showtime {
    Showtime(Unassigned, dto.price, dto.movieId, dto.theater, dto.startTime, dto.endTime)
  }

  /** `new Booking(dto)`. */
  function NewBooking(dto: BookingDto): Booking {
    Booking(Unassigned, dto.showtimeId, dto.seatNumber, dto.userId)
  }

  /** Every column of `m` except its id is the request's. */
  predicate CarriesMovie(m: Movie, dto: MovieDto) {
    m.title == dto.title && m.genre == dto.genre && m.duration == dto.duration
    && m.rating == dto.rating && m.releaseYear == dto.releaseYear
  }

  /** Every column of `s` except its id is the request's. */
  predicate CarriesShowtime(s: Showtime, dto: ShowtimeDto) {
    s.movieId == dto.movieId && s.price == dto.price && s.theater == dto.theater
    && s.startTime == dto.startTime && s.endTime == dto.endTime
  }

  /** Every column of `b` except its id is the request's. */
  predicate CarriesBooking(b: Booking, dto: BookingDto) {
    b.showtimeId == dto.showtimeId && b.seatNumber == dto.seatNumber && b.userId == dto.userId
  }

  /** The exceptions the services raise, and the one the title column's unique constraint raises. */
  datatype Error =
    | MovieNotFound            // EntityNotFoundException: no movie with that id or title
    | ShowtimeNotFound         // EntityNotFoundException: no showtime with that id
    | DuplicateTitle           // IllegalArgumentException: a movie with this title already exists
    | OverlappingShowtimes     // IllegalArgumentException: overlapping showtimes in this theater
    | SeatAlreadyBooked        // IllegalArgumentException: seat already booked for this showtime
    | TitleConstraintViolation // the store refuses a second row with the same title

  datatype Result<T> = Ok(value: T) | Err(error: Error)

  datatype Option<T> = None | Some(value: T)

  /** What a write returns, together with the table it leaves behind. */
  datatype Step<T, S> = Step(result: Result<T>, state: S)
}
