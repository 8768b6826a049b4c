# Popcorn Palace scheduling core, modelled in Dafny

Popcorn Palace keeps three tables: movies, showtimes and bookings. Three services keep them
consistent:

- **MovieService** (the catalog) refuses a second movie with the same title. It also finds,
  updates and deletes movies by title.
- **ShowtimeService** (the scheduler) checks that the movie a showtime names exists. It refuses a
  showtime that overlaps another one in the same theater.
- **BookingService** (the ledger) checks that the showtime a booking names exists. It refuses a
  seat of a showtime that is already booked.

Only the three creates and the showtime update ask a repository query for conflicts: a taken
title, an overlapping showtime or a booked seat. `updateMovie` looks the movie up by its title
and saves, with no conflict query; the unique title column is what can still refuse it.
`deleteMovie` and `deleteShowtime` only check that their key exists. A failure leaves every
table as it was.

The model has four layers, one module per file:

- `Model` (model.dfy): the rows (`Movie`, `Showtime`, `Booking`), the request bodies
  (`MovieDto`, `ShowtimeDto`, `BookingDto`), `new X(dto)`, and the failures as an `Error`
  datatype. A write returns a `Step`: its result plus the table it leaves.
- `MovieStore`, `ShowtimeStore`, `BookingStore`: each table as a value (`rows: map<id, row>`
  plus the identity counter `nextId`). Each carries the repository queries the services call
  (`findById`, `existsById`, `existsByTitle`, `findByTitle`, `findAll`,
  `findOverlappingShowtimes`, `existsByShowtimeIdAndSeatNumber`) and `save`/`delete`. Each also has a repository class that
  holds the map and reassigns it.
- `Catalog`, `Scheduler`, `Ledger`: each service operation as a function of the tables it
  reads. Each write returns a `Step`, and each read returns its result (a sequence or a
  `Result`). Their contracts state the source's promises: each error case, that
  nothing changes on failure, the exact row written on success, and that each invariant is
  kept. The invariants are unique titles, no overlap within one theater, and exclusive seats.
- `Services`: `MovieService`, `ShowtimeService` and `BookingService` as classes holding their
  repositories, as the Java constructors inject them. Each write method does its steps against
  the repositories and is proved equal to the matching function. It is also proved to keep the
  service's invariant, except the as-written `UpdateShowtime` (see Findings).

Abstractions:

- `LocalDateTime` is an `int` clock.
- `price` and `rating` (`Double`) are `real`, with no arithmetic on them.
- Ids come from a counter that starts at 1. Id 0 stands for an entity that has not been saved
  (Java's `null`).
- The repository queries return rows in ascending id order. A JPQL query without `ORDER BY` has
  no defined order, but the update check reads element 0, so the model has to pick one.
- `save` replaces the row whose id the entity carries. An entity whose id names no row is
  inserted under a fresh id.
- The title column is declared `unique = true`. The movie table's `save` models that
  constraint: it refuses a title that another row already holds.

## Model

| member | source | states |
|---|---|---|
| Model.NewMovie | src/main/java/com/att/tdp/popcorn_palace/model/Movie.java:42-48 | the `Movie(MovieDTO)` constructor: a movie with no id yet, whose title, genre, duration, rating and release year are the request's |
| Model.NewShowtime | src/main/java/com/att/tdp/popcorn_palace/model/Showtime.java:43-49 | the `Showtime(ShowtimeDTO)` constructor: a showtime with no id yet, whose movie id, price, theater, start and end are the request's |
| Model.NewBooking | src/main/java/com/att/tdp/popcorn_palace/model/Booking.java:37-41 | the `Booking(BookingDTO)` constructor: a booking with no id yet, whose showtime id, seat number and user id are the request's |
| MovieStore.MovieTable.FindById | src/main/java/com/att/tdp/popcorn_palace/service/ShowtimeService.java:29 | the stored movie under that id, or nothing when no movie has that id; the lookup also used at line 59 |
| MovieStore.MovieTable.ExistsByTitle | src/main/java/com/att/tdp/popcorn_palace/service/MovieService.java:25 | true exactly when some stored movie has that title; the check also used at line 66 |
| ShowtimeStore.ShowtimeTable.FindById | src/main/java/com/att/tdp/popcorn_palace/service/ShowtimeService.java:52 | the stored showtime under that id, or nothing when no showtime has that id; also the lookup at BookingService.java line 30 |
| ShowtimeStore.ShowtimeTable.ExistsById | src/main/java/com/att/tdp/popcorn_palace/service/ShowtimeService.java:79 | true exactly when a showtime is stored under that id |
| BookingStore.BookingTable.ExistsByShowtimeIdAndSeatNumber | src/main/java/com/att/tdp/popcorn_palace/service/BookingService.java:36 | true exactly when some stored booking has that showtime id and that seat number |
| ShowtimeStore.InConflict | src/main/java/com/att/tdp/popcorn_palace/service/ShowtimeService.java:32-36 | the filter of `findOverlappingShowtimes`: the showtime is in that theater and its interval overlaps the given one |
| ShowtimeStore.Overlaps | src/main/java/com/att/tdp/popcorn_palace/service/ShowtimeService.java:32-36 | two half-open time intervals overlap exactly when each starts before the other ends; intervals that only touch do not |
| MovieStore.MovieTable.FindByTitle | src/main/java/com/att/tdp/popcorn_palace/service/MovieService.java:46 | a found movie is stored and has that title; nothing is found exactly when no stored movie has the title |
| MovieStore.MovieTable.FindAll | src/main/java/com/att/tdp/popcorn_palace/service/MovieService.java:38 | every stored movie appears, everything returned is stored, in strictly ascending id order |
| MovieStore.MovieTable.Save | src/main/java/com/att/tdp/popcorn_palace/service/MovieService.java:32 | the save called here and at line 60 of the same file, under the unique title column of model/Movie.java line 22: refused with a constraint violation and the table unchanged exactly when another row holds the title, and succeeds exactly when none does; on success the row under the entity's id is replaced, or the entity is inserted under a fresh id, and nothing else changes; validity and unique titles are kept |
| MovieStore.MovieTable.DeleteByTitle | src/main/java/com/att/tdp/popcorn_palace/service/MovieService.java:70 | removes every row with the title and no other row; the remaining rows are unchanged; validity and unique titles are kept |
| MovieStore.MovieRepository.Save | src/main/java/com/att/tdp/popcorn_palace/service/MovieService.java:32 | the repository's new table and result are those of the table-level save on its old table |
| MovieStore.MovieRepository.DeleteByTitle | src/main/java/com/att/tdp/popcorn_palace/service/MovieService.java:70 | the repository's new table is the table-level delete of its old table |
| ShowtimeStore.ShowtimeTable.FindOverlapping | src/main/java/com/att/tdp/popcorn_palace/service/ShowtimeService.java:32-36 | sound (each returned showtime is stored, of that theater, overlapping the interval), complete (every such stored showtime is returned), ascending ids |
| ShowtimeStore.ShowtimeTable.Save | src/main/java/com/att/tdp/popcorn_palace/service/ShowtimeService.java:46 | always succeeds; replaces the row under the entity's id, or inserts under a fresh id; only that row changes; validity kept |
| ShowtimeStore.ShowtimeTable.DeleteById | src/main/java/com/att/tdp/popcorn_palace/service/ShowtimeService.java:82 | removes exactly that id, other rows unchanged; validity and freedom from overlap are kept |
| ShowtimeStore.ShowtimeRepository.Save | src/main/java/com/att/tdp/popcorn_palace/service/ShowtimeService.java:46 | the repository's new table and saved row are those of the table-level save |
| ShowtimeStore.ShowtimeRepository.DeleteById | src/main/java/com/att/tdp/popcorn_palace/service/ShowtimeService.java:82 | the repository's new table is the table-level delete of its old table |
| BookingStore.BookingTable.Save | src/main/java/com/att/tdp/popcorn_palace/service/BookingService.java:40-41 | always succeeds; replaces the row under the entity's id, or inserts under a fresh id; only that row changes; validity kept |
| BookingStore.BookingRepository.Save | src/main/java/com/att/tdp/popcorn_palace/service/BookingService.java:41 | the repository's new table and saved row are those of the table-level save |
| Catalog.CreateMovie | src/main/java/com/att/tdp/popcorn_palace/service/MovieService.java:23-33 | a taken title gives a duplicate-title error and no change; success exactly when the title is free, and then the new row carries the request under a fresh id and nothing else changes; unique titles are kept |
| Catalog.GetAllMovies | src/main/java/com/att/tdp/popcorn_palace/service/MovieService.java:35-41 | every stored movie exactly once, and only stored movies |
| Catalog.GetMovieByTitle | src/main/java/com/att/tdp/popcorn_palace/service/MovieService.java:43-51 | success exactly when some movie has the title, returning a stored movie with that title; otherwise a not-found error |
| Catalog.GetMovieByTitleFindsTheMovie | src/main/java/com/att/tdp/popcorn_palace/service/MovieService.java:43-51 | with unique titles the lookup by a stored movie's title returns that very movie |
| Catalog.UpdateMovie | src/main/java/com/att/tdp/popcorn_palace/service/MovieService.java:53-61 | an unknown title gives not-found and no change; any failure changes nothing; on success the request's columns are saved under the existing movie's id and nothing else changes; with unique titles it succeeds exactly when the new title is the old one or is free, and otherwise fails with the column's constraint violation; unique titles are kept |
| Catalog.DeleteMovie | src/main/java/com/att/tdp/popcorn_palace/service/MovieService.java:63-72 | an unknown title gives not-found and no change; otherwise succeeds; afterwards no movie has the title, every other movie is kept unchanged and no row is added; unique titles are kept |
| Catalog.DuplicateCreateIsStable | src/main/java/com/att/tdp/popcorn_palace/service/MovieService.java:24-28 | repeating a create with a taken title any number of times fails every time with a duplicate-title error and leaves the table as it was |
| Catalog.CreateDeleteRecreate | src/main/java/com/att/tdp/popcorn_palace/service/MovieService.java:23-72 | create succeeds, the same create again fails as a duplicate with no change, deleting by title succeeds, and the create then succeeds again |
| Scheduler.GetShowtimeById | src/main/java/com/att/tdp/popcorn_palace/service/ShowtimeService.java:49-54 | success exactly when the id is stored, returning that row; otherwise a showtime-not-found error |
| Scheduler.CreateShowtime | src/main/java/com/att/tdp/popcorn_palace/service/ShowtimeService.java:27-47 | an unknown movie gives movie-not-found and no change; an overlapping showtime in the theater gives an overlap error and no change; success exactly when the movie exists and nothing overlaps, and then the new row carries the request under a fresh id with nothing else changed; freedom from overlap is kept |
| Scheduler.InsertKeepsNoOverlap | src/main/java/com/att/tdp/popcorn_palace/service/ShowtimeService.java:32-46 | writing a showtime that overlaps no other stored showtime of its theater keeps the table free of overlaps |
| Scheduler.FirstOfOverlapping | src/main/java/com/att/tdp/popcorn_palace/service/ShowtimeService.java:66 | the as-written guard (non-empty query and element 0 is not the updated showtime) holds exactly when the lowest-id conflicting showtime is another one, or another one conflicts while the updated showtime itself does not |
| Scheduler.UpdateShowtime | src/main/java/com/att/tdp/popcorn_palace/service/ShowtimeService.java:56-74 | as written: unknown showtime, then unknown movie, give not-found errors and no change; with both present it fails exactly when the first overlapping row is another showtime; on success the request is written under the given id and nothing else changes |
| Scheduler.UpdateShowtimeExcludingSelf | src/main/java/com/att/tdp/popcorn_palace/service/ShowtimeService.java:56-74 | corrected: the same error cases, but it fails exactly when any other showtime of the theater overlaps; on success the request is written under the given id; freedom from overlap is kept |
| Scheduler.DeleteShowtime | src/main/java/com/att/tdp/popcorn_palace/service/ShowtimeService.java:76-83 | an unknown id gives not-found and no change; otherwise that row alone is removed; freedom from overlap is kept |
| Scheduler.UpdateShowtimeBreaksNoOverlap | src/main/java/com/att/tdp/popcorn_palace/service/ShowtimeService.java:66 | a table free of overlaps, an update the as-written guard accepts, and a resulting table with two overlapping showtimes in one theater |
| Scheduler.UpdateShowtimeExcludingSelfRefuses | src/main/java/com/att/tdp/popcorn_palace/service/ShowtimeService.java:66 | the corrected update refuses that same input with an overlap error |
| Scheduler.OverlapQueryFixture | src/test/java/com/att/tdp/popcorn_palace/repository/ShowtimeRepositoryTest.java:84-105 | with three stored showtimes, a query that covers both Theater 1 slots returns exactly those two, all in Theater 1; a query two days later returns nothing |
| Scheduler.TouchingSlotAccepted | src/main/java/com/att/tdp/popcorn_palace/service/ShowtimeService.java:32-40 | under the assumed half-open overlap filter, which no shown text fixes: a showtime that starts when another in the same theater ends is accepted; one that starts a minute earlier is refused as overlapping |
| Ledger.CreateBooking | src/main/java/com/att/tdp/popcorn_palace/service/BookingService.java:25-44 | an unknown showtime gives showtime-not-found and no change; a taken seat gives seat-already-booked and no change; success exactly when the showtime exists and the seat is free, and then the new row carries the request under a fresh id with nothing else changed; seats stay exclusive |
| Ledger.InsertKeepsSeatsExclusive | src/main/java/com/att/tdp/popcorn_palace/service/BookingService.java:36-41 | inserting a booking for a seat nobody holds keeps every seat of every showtime held at most once |
| Ledger.SeatQueryFixture | src/test/java/com/att/tdp/popcorn_palace/repository/BookingRepositoryTest.java:105-120 | with seats 1, 2 and 3 of a showtime booked, seat 1 is reported taken and seat 999 free |
| Ledger.TakenSeatRefusedNeighbourFree | src/main/java/com/att/tdp/popcorn_palace/service/BookingService.java:36-41 | a second user is refused the seat another user holds, with no change, and can book the next seat |
| Services.MovieService.constructor | src/main/java/com/att/tdp/popcorn_palace/service/MovieService.java:19-21 | the service holds the movie repository it is given |
| Services.MovieService.CreateMovie | src/main/java/com/att/tdp/popcorn_palace/service/MovieService.java:23-33 | the repository ends in the table, and the call returns the result, that Catalog.CreateMovie gives for the old table; unique titles are kept |
| Services.MovieService.UpdateMovie | src/main/java/com/att/tdp/popcorn_palace/service/MovieService.java:53-61 | the repository's new table and the result are those of Catalog.UpdateMovie; unique titles are kept |
| Services.MovieService.DeleteMovie | src/main/java/com/att/tdp/popcorn_palace/service/MovieService.java:63-72 | the repository's new table and the result are those of Catalog.DeleteMovie; unique titles are kept |
| Services.ShowtimeService.constructor | src/main/java/com/att/tdp/popcorn_palace/service/ShowtimeService.java:22-25 | the service holds the showtime and movie repositories it is given |
| Services.ShowtimeService.CreateShowtime | src/main/java/com/att/tdp/popcorn_palace/service/ShowtimeService.java:27-47 | the showtime repository's new table and the result are those of Scheduler.CreateShowtime over the movie table; freedom from overlap is kept |
| Services.ShowtimeService.UpdateShowtime | src/main/java/com/att/tdp/popcorn_palace/service/ShowtimeService.java:56-74 | the showtime repository's new table and the result are those of the as-written Scheduler.UpdateShowtime |
| Services.ShowtimeService.UpdateShowtimeExcludingSelf | src/main/java/com/att/tdp/popcorn_palace/service/ShowtimeService.java:56-74 | the showtime repository's new table and the result are those of Scheduler.UpdateShowtimeExcludingSelf; freedom from overlap is kept |
| Services.ShowtimeService.DeleteShowtime | src/main/java/com/att/tdp/popcorn_palace/service/ShowtimeService.java:76-83 | the showtime repository's new table and the result are those of Scheduler.DeleteShowtime; freedom from overlap is kept |
| Services.BookingService.constructor | src/main/java/com/att/tdp/popcorn_palace/service/BookingService.java:20-23 | the service holds the booking and showtime repositories it is given |
| Services.BookingService.CreateBooking | src/main/java/com/att/tdp/popcorn_palace/service/BookingService.java:25-44 | the booking repository's new table and the result are those of Ledger.CreateBooking over the showtime table; seats stay exclusive |

## Left out

- The REST controllers are not part of this model. Neither are HTTP status codes, JSON
  mapping or the exception-to-response translation. Each exception becomes an `Error` value, and
  its message text is dropped.
- Bean validation of the request bodies is not modelled. The services accept any request, and
  nothing here depends on those checks. The request classes declare:
  - required fields;
  - a non-blank title, genre, theater and user id;
  - a rating from 0 to 10 and a release year of at most 2025 (MovieDTO.java:29-35);
  - a positive price (ShowtimeDTO.java:21);
  - a positive showtime id and seat number (BookingDTO.java:16 and :21).

  The duration is only declared required, on a primitive `int` (MovieDTO.java:24-26). So no
  duration is refused, zero or negative included, and the model's `duration: int` carries no
  bound.
- `@Transactional`, concurrent requests and rollback are not modelled. Each service call is one
  atomic step, and a failing call leaves the tables as they were.
- Logging is left out.
- The repository interfaces and the JPQL text of `findOverlappingShowtimes` are not part of this
  model. The query's filter is taken to be "same theater, and the intervals overlap as
  half-open ranges", so two showtimes that only touch do not overlap. That boundary is an
  assumption. No text in the repository fixes it: the repository tests
  (ShowtimeRepositoryTest.java:84-105) give the same results under a closed-interval filter.
  The query's order is taken to be ascending id.
- `findAll`, `findByTitle` and `findOverlappingShowtimes` return rows in ascending id order.
  Without `ORDER BY`, the database promises no order.
- Booking ids are generated UUIDs in the source. Here they come from the same kind of counter
  as the other tables, so only their freshness is modelled.
- `Long`, `Integer` and `int` widths and overflow are not modelled. Ids, seats, durations and
  years are unbounded integers.
- `Double` is `real` and `LocalDateTime` is an `int` clock. The services do no arithmetic on
  either. They pass the times to `findOverlappingShowtimes`, and only that query compares them.
- Deleting a movie or a showtime leaves the showtimes or bookings that name it in place, just as
  the source does. No referential integrity is modelled.
- Services.ShowtimeService.UpdateShowtime: has no guarantee that the table stays free of
  overlaps, because the code as written does not keep that invariant (see Findings).
- Scheduler.UpdateShowtime: follows the code and not the intended rule. The intended rule
  refuses the update when any conflicting showtime other than the updated one exists. The code
  looks only at the first row of the query.
- Catalog.UpdateMovie: the service itself does not check the new title against the other movies.
  The refusal comes from the title column's unique constraint, modelled in
  `MovieStore.MovieTable.Save` as `TitleConstraintViolation`.

## Findings

| source | as written | input that shows it | evidently intended | confidence | as-written member | corrected member |
|---|---|---|---|---|---|---|
| src/main/java/com/att/tdp/popcorn_palace/service/ShowtimeService.java:66 | the update is refused only when the first overlapping showtime is not the one being updated | Theater 1 holds showtime 1 at [0, 10) and showtime 2 at [10, 20). Update showtime 1 to [5, 15) in Theater 1: the query returns [1, 2], element 0 is showtime 1 itself, so the update is saved and showtimes 1 and 2 now overlap | refuse the update when any overlapping showtime other than the updated one exists | not executed | Scheduler.UpdateShowtimeBreaksNoOverlap | Scheduler.UpdateShowtimeExcludingSelf |
