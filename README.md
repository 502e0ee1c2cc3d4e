# Movie ticket reservation: a Dafny model

This project models the `ReservationSystem` class of the movie ticket reservation
program. The class holds a list of movies and a map from seat keys to available-seat
counts. It has three operations:

- **Loading.** The catalog is read once from a comma-separated file at construction time.
  The header line is skipped. Lines with fewer than six fields are skipped. When a movie
  code is first seen, a new movie is appended to the list. Every accepted line appends its
  showtime to that movie and `put`s its seat count under the key `code + "_" + showtime`,
  so a later line for the same key overwrites the count. A seat count that does not parse
  ends the load, and everything the earlier lines did is kept.
- **Booking.** Booking checks, in this order:
  1. the movie code is known;
  2. the key has a seat entry;
  3. the count covers the request.

  The first two checks raise the same "invalid movie code" exception with different
  messages. The third raises the overbooking exception. On success, the count is
  decremented by the number of tickets.
- **Lookup.** `findMovie` is a linear search that returns the first movie with the given
  code.

Files:

- `cinema_model.dfy` (module `CinemaModel`): the data model and the specification
  functions.
  - `Movie` and `Catalog` are the data. The seat key is `Key(code, showtime)`.
  - `FirstIndex` specifies lookup.
  - `AddShowtime`, `LoadRecord`, `LoadRows` and `LoadCatalog` specify loading as a fold
    over the lines.
  - `BookResult` and `SeatsAfter` specify booking.
  - `ValidCatalog` is the state invariant: one movie per code, and the seat map's keys
    are exactly the keys of the movies' showtimes.
- `cinema_properties.dfy` (module `CinemaProperties`): lemmas about loading and booking.
- `reservation_system.dfy` (module `Cinema`): class `ReservationSystem`. It has the
  mutable fields `movies` and `availableSeats`, a constructor that loads the catalog, and
  the methods `InitializeMovies` (a `while` loop), `BookTickets` and `FindMovie` (a `for`
  loop with early return). Each method is proved against the functions above.

The input file is modelled as lines that are already split into fields
(`seq<seq<string>>`, header first). `Integer.parseInt` is modelled as a parameter
`parseInt: string -> Option<int>`. `None` stands for the `NumberFormatException` that
stops the load.

The model follows the code as written, including these points:

- A known code with an unknown showtime raises the same exception kind as an unknown
  code (`InvalidMovieCode(NoSuchShowtime)`). It is not a separate error kind.
- Counts are not kept non-negative. A negative ticket count passes the capacity check
  when the count is non-negative, and then raises the count (over mathematical integers;
  see "## Left out"). A parsed seat count may
  itself be negative, and a negative request can still be refused for overbooking
  against it.
- The seat key is the plain concatenation `code + "_" + showtime`, so two different
  (movie, showtime) pairs can share one entry. `KeyCollision` shows a booking for movie
  `A` at showtime `B_C` that passes every check and takes the seats of movie `A_B` at
  `C`.

## Model

| member | source | states |
|---|---|---|
| CinemaModel.FirstIndex | MovieTicketReservationGroup_YourGroupName.java:85-92 | The result is the position of a movie with the given code, and no earlier movie has that code. It is None exactly when no movie has the code. |
| CinemaModel.AddShowtimeEffect | MovieTicketReservationGroup_YourGroupName.java:51-57 | After one record, the record's movie can be found. Existing movies keep their position, code and title. The list grows by one, at the end, only for a new code. Exactly the found movie gets the showtime appended (repeats accumulate). One movie per code is preserved. |
| CinemaModel.BookResult | MovieTicketReservationGroup_YourGroupName.java:69-80 | A booking is refused with InvalidMovieCode(NoSuchMovie) exactly when no movie has the code, whatever the showtime or count. It is refused with InvalidMovieCode(NoSuchShowtime) exactly when the code is known and the key is absent. It is refused with Overbooking exactly when the key's count is below the request. Otherwise it is booked. |
| CinemaModel.SeatsAfter | MovieTicketReservationGroup_YourGroupName.java:74-81 | The set of keys never changes. Every other key keeps its count. A booked key's count becomes the old count minus the tickets. A refused booking leaves the map unchanged (no partial booking). |
| CinemaProperties.LoadRecordValid | MovieTicketReservationGroup_YourGroupName.java:44-60 | One accepted record keeps one movie per code. It keeps the seat keys equal to the keys of the movies' showtimes. |
| CinemaProperties.LoadRowsValid | MovieTicketReservationGroup_YourGroupName.java:43-66 | Folding any lines into a valid state gives a valid state. |
| CinemaProperties.LoadCatalogValid | MovieTicketReservationGroup_YourGroupName.java:34-67 | A loaded catalog has at most one movie per code. Every loaded showtime has a seat entry, and every seat entry belongs to a loaded showtime. |
| CinemaProperties.LoadRowsExtends | MovieTicketReservationGroup_YourGroupName.java:51-60 | Existing movies keep their position, code and title. Their showtimes only extend at the end, and no seat key is lost. |
| CinemaProperties.HeaderIgnored | MovieTicketReservationGroup_YourGroupName.java:42 | The first line is never processed: the catalog is the same whatever the header holds. |
| CinemaProperties.ShortLineIgnored | MovieTicketReservationGroup_YourGroupName.java:44-45 | A line with fewer than six fields, anywhere in the input, changes neither the movies nor the seat map. |
| CinemaProperties.AbortKeepsEarlierRecords | MovieTicketReservationGroup_YourGroupName.java:43-66 | A seat count that does not parse stops the load. The result equals loading only the lines before it. |
| CinemaProperties.KeyUntouched | MovieTicketReservationGroup_YourGroupName.java:43-61 | If no accepted line writes a key, loading leaves that key's entry as it was: present or absent, with the same count. |
| CinemaProperties.LastRecordWins | MovieTicketReservationGroup_YourGroupName.java:43-66 | Wherever the lines stand, an accepted line decides its key's count when no earlier seat count fails to parse and no later line that parses writes the same key. A later record overwrites an earlier count for the same key. The lines after it are all treated as reached. When a later seat count fails to parse, AbortKeepsEarlierRecords first cuts the input there. |
| CinemaProperties.CollidingRecordsOverwrite | MovieTicketReservationGroup_YourGroupName.java:60 | Loading `A_B` at `C` with 5 seats and then `A` at `B_C` with 7 leaves 7 under the shared key, for both pairs. |
| CinemaProperties.AddShowtimeOwn | MovieTicketReservationGroup_YourGroupName.java:51-57 | After one record, its code's movie is present, and that movie's showtimes are the old ones plus the record's showtime. |
| CinemaProperties.AddShowtimeOther | MovieTicketReservationGroup_YourGroupName.java:51-57 | One record leaves every other code's presence and showtimes unchanged. |
| CinemaProperties.AddShowtimeHeads | MovieTicketReservationGroup_YourGroupName.java:52-56 | One record appends the code and title of a new movie at the end of the list exactly when its code is not yet present. Otherwise no code or title changes. The set of codes grows by the record's code. |
| CinemaProperties.FirstSeenOrder | MovieTicketReservationGroup_YourGroupName.java:43-66 | After any load, the code and title of each movie, in list order, are those of the old list followed by one entry per code first named by an accepted line. The entries are in the order of those lines, each with that first line's title, and only lines before the first seat count that fails to parse are counted. Later lines for a known code never move or rename its movie. |
| CinemaProperties.AcceptedLineOf | MovieTicketReservationGroup_YourGroupName.java:44-60 | An accepted line lets the load continue past it. Its showtime is added to its own code's movie and to no other. |
| CinemaProperties.PresenceAccumulates | MovieTicketReservationGroup_YourGroupName.java:43-66 | After any load, a code has a movie exactly when it had one before or some accepted line before the first failed parse names it. |
| CinemaProperties.ShowtimesOfAccumulate | MovieTicketReservationGroup_YourGroupName.java:43-66 | After any load, the showtimes of a code's movie are its old ones followed by the showtime of every accepted line for the code, in line order, up to the first failed parse. |
| CinemaProperties.ShowtimesAccumulate | MovieTicketReservationGroup_YourGroupName.java:43-66 | After any load, a code has a movie exactly when it had one before or some accepted line names it. That movie's showtimes are its old ones followed by the showtime of every accepted line for the code, in line order, up to the first seat count that fails to parse. Repeats accumulate whether they are adjacent or not. |
| CinemaProperties.RecordIsLoaded | MovieTicketReservationGroup_YourGroupName.java:43-57 | Every accepted line that the load reaches leaves its movie in the list, with its showtime among that movie's showtimes, wherever the line stands and whatever follows it. |
| CinemaProperties.DuplicateRecordOverwrites | MovieTicketReservationGroup_YourGroupName.java:52-60 | For two consecutive records with the same code and showtime, the later count overwrites the earlier one. The showtime is listed twice, and the first-seen title is kept. |
| CinemaProperties.AddShowtimeTwice | MovieTicketReservationGroup_YourGroupName.java:52-57 | Two records with the same code and showtime find the movie, list the showtime twice, and keep the movie's existing title or, for a new movie, the first record's title. |
| CinemaProperties.BookingPreservesValid | MovieTicketReservationGroup_YourGroupName.java:74-81 | Booking keeps the catalog invariant, because no seat key is created or removed. |
| CinemaProperties.BookingKeepsNonNegative | MovieTicketReservationGroup_YourGroupName.java:78-81 | If all counts and the request are non-negative, no count becomes negative. |
| CinemaProperties.NegativeTicketsRaiseCount | MovieTicketReservationGroup_YourGroupName.java:78-81 | A negative request for an existing movie and key with a non-negative count is booked, and it raises the count over mathematical integers. |
| CinemaProperties.LoadedShowtimeIsBookable | MovieTicketReservationGroup_YourGroupName.java:57-77 | For every loaded movie and each of its showtimes, the booking passes both invalid-code checks. |
| CinemaProperties.AcceptedKeyHasSource | MovieTicketReservationGroup_YourGroupName.java:74-77 | A booking that passes the showtime check hits the entry of some loaded showtime whose key equals the requested key. |
| CinemaProperties.KeyCollision | MovieTicketReservationGroup_YourGroupName.java:60-81 | `A` + `B_C` and `A_B` + `C` give one key. Booking movie `A` at `B_C`, which `A` does not have, succeeds and takes seats from `A_B` at `C`. |
| CinemaProperties.RepeatedBookingExample | MovieTicketReservationGroup_YourGroupName.java:69-81 | With 5 seats, booking 3 succeeds and leaves 2. Booking 3 again is refused for overbooking and leaves 2. |
| Cinema.ReservationSystem.constructor | MovieTicketReservationGroup_YourGroupName.java:34-38 | The new object is valid, and its state is the catalog loaded from the lines. |
| Cinema.ReservationSystem.InitializeMovies | MovieTicketReservationGroup_YourGroupName.java:40-67 | The loop leaves the fields equal to the fold of the data lines into the old state, and it keeps the invariant. |
| Cinema.ReservationSystem.BookTickets | MovieTicketReservationGroup_YourGroupName.java:69-83 | The outcome is BookResult of the old state. The new seat map is SeatsAfter of the old state, the movie list is unchanged, and the invariant is kept. |
| Cinema.ReservationSystem.FindMovie | MovieTicketReservationGroup_YourGroupName.java:85-92 | Returns the position of the first movie with the code, or None when no movie has it. |

## Left out

- `main`: the console prompts, the integer check on the ticket count, and the printing of
  exception messages are interactive I/O.
- The CSV file path, `BufferedReader` and the `IOException` branch are not modelled. The
  constructor takes the lines instead. An I/O failure partway through reads as a shorter
  input.
- `String.split(",")` and `Integer.parseInt` are library calls and are taken as given. The
  lines arrive already split (with whatever trailing-field dropping `split` does), and
  `parseInt` is an arbitrary function.
- The text of the error and success messages is not modelled. Booking returns only which
  check failed.
- Cinema.ReservationSystem.FindMovie: returns the movie's position instead of a reference
  to the `Movie` object. The Java loader appends the showtime through that reference. The
  model updates the movie at that position instead, which is equivalent because the list
  is private and no reference escapes. Aliasing is not modelled.
- CinemaModel.SeatsAfter: counts are mathematical integers. Java's 32-bit `int` wraps
  around when `seats - tickets` overflows, and that is not modelled.
- Cinema.ReservationSystem.BookTickets: like SeatsAfter, it does not model the 32-bit
  wrap-around of the decrement.
- CinemaProperties.NegativeTicketsRaiseCount: the count rises over mathematical integers.
  In Java, a count of 2147483647 with a request of -1 wraps around to -2147483648, and
  the model does not capture that.
