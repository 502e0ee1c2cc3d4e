/** The state of the movie reservation system and the functions that specify
    its three operations: loading the catalog, looking up a movie and booking
    tickets. The class in module Cinema is proved against these functions. */
module CinemaModel {

  datatype Option<+T> = None | Some(value: T)

  /** A movie of the catalog: its code, its title and its showtimes in the
      order in which the catalog listed them (repeats included). */
  datatype Movie = Movie(code: string, title: string, showtimes: seq<string>)

  /** The whole state: the movie list and the seat map, whose keys are
      Key(code, showtime). */
  datatype Catalog = Catalog(movies: seq<Movie>, seats: map<string, int>)

  const EmptyCatalog: Catalog := Catalog([], map[])

  /** The seat map's key: the movie code and the showtime joined by an
      underscore. Two different pairs can give the same key. */
  function Key(code: string, showtime: string): string {
    code + "_" + showtime
  }

  predicate HasMovie(movies: seq<Movie>, code: string) {
    exists j :: 0 <= j < |movies| && movies[j].code == code
  }

  /** Lookup: the position of the first movie, in list order, whose code is
      `code`; None when there is none (findMovie's null). */
  function FirstIndex(movies: seq<Movie>, code: string): (r: Option<nat>)
    ensures r.Some? ==> r.value < |movies| && movies[r.value].code == code
    ensures r.Some? ==> forall j :: 0 <= j < r.value ==> movies[j].code != code
    ensures r.None? <==> !HasMovie(movies, code)
  {
    if |movies| == 0 then None
    else if movies[0].code == code then Some(0)
    else match FirstIndex(movies[1..], code)
      case None => None
      case Some(i) => Some(i + 1)
  }

  ghost predicate UniqueCodes(movies: seq<Movie>) {
    forall i, j :: 0 <= i < j < |movies| ==> movies[i].code != movies[j].code
  }

  /** Every showtime of every movie has an entry in the seat map. */
  ghost predicate ShowtimesHaveSeats(c: Catalog) {
    forall j, t :: 0 <= j < |c.movies| && t in c.movies[j].showtimes ==> Key(c.movies[j].code, t) in c.seats
  }

  /** Every entry of the seat map was created for some movie's showtime. */
  ghost predicate SeatsHaveShowtimes(c: Catalog) {
    forall k :: k in c.seats ==>
      exists j, t :: 0 <= j < |c.movies| && t in c.movies[j].showtimes && k == Key(c.movies[j].code, t)
  }

  /** What loading establishes and booking keeps: one movie per code, and the
      seat map's keys are exactly the keys of the movies' showtimes. */
  ghost predicate ValidCatalog(c: Catalog) {
    UniqueCodes(c.movies) && ShowtimesHaveSeats(c) && SeatsHaveShowtimes(c)
  }

  /** The showtimes of movie `j`, or none for a position past the end. */
  function ShowtimesAt(movies: seq<Movie>, j: nat): seq<string> {
    if j < |movies| then movies[j].showtimes else []
  }

  /** One record's effect on the movie list: the movie with this code (a new
      one, appended, if there is none yet) gets `showtime` appended. What this
      means for the list is stated by AddShowtimeEffect. */
  function AddShowtime(movies: seq<Movie>, code: string, title: string, showtime: string): seq<Movie> {
    match FirstIndex(movies, code)
    case None => movies + [Movie(code, title, [showtime])]
    case Some(i) => movies[i := movies[i].(showtimes := movies[i].showtimes + [showtime])]
  }

  /** Lists that agree on codes up to the first match have the same first
      match. */
  lemma FirstIndexAgrees(a: seq<Movie>, b: seq<Movie>, code: string, i: nat)
    requires FirstIndex(a, code) == Some(i)
    requires i < |b| && forall j :: 0 <= j <= i ==> b[j].code == a[j].code
    ensures FirstIndex(b, code) == Some(i)
  {
    assert HasMovie(b, code) by { assert b[i].code == code; }
  }

  /** The record's movie is found after the call, the list keeps its order,
      codes and titles, it grows only by a new code, and only the found
      movie's showtimes change, by one appended showtime. */
  lemma AddShowtimeEffect(movies: seq<Movie>, code: string, title: string, showtime: string)
    ensures var r := AddShowtime(movies, code, title, showtime);
      && |r| == (if HasMovie(movies, code) then |movies| else |movies| + 1)
      && (forall j :: 0 <= j < |movies| ==> r[j].code == movies[j].code && r[j].title == movies[j].title)
      && (!HasMovie(movies, code) ==> r[|movies|].code == code && r[|movies|].title == title)
      && FirstIndex(r, code).Some?
      && (forall j :: 0 <= j < |r| ==>
            r[j].showtimes == ShowtimesAt(movies, j) + (if FirstIndex(r, code) == Some(j) then [showtime] else []))
      && (UniqueCodes(movies) ==> UniqueCodes(r))
  {
    var r := AddShowtime(movies, code, title, showtime);
    match FirstIndex(movies, code)
    case None =>
      assert r == movies + [Movie(code, title, [showtime])];
      assert FirstIndex(r, code) == Some(|movies|) by {
        assert HasMovie(r, code) by { assert r[|movies|].code == code; }
        assert forall j :: 0 <= j < |movies| ==> r[j].code != code;
      }
    case Some(i) =>
      FirstIndexAgrees(movies, r, code, i);
      if UniqueCodes(movies) {
        forall p, q | 0 <= p < q < |r| ensures r[p].code != r[q].code {
          assert r[p].code == movies[p].code && r[q].code == movies[q].code;
        }
      }
  }

  /** The outcome of loading one record: the next state, or Abort when the
      seat count does not parse. */
  datatype Step = Continue(next: Catalog) | Abort

  /** One data line of the catalog, already split into fields: a line with
      fewer than six fields is skipped; otherwise field 0 is the code, 1 the
      title, 3 the showtime and 5 the seat count, which overwrites whatever
      the seat map held for the key. */
  function LoadRecord(c: Catalog, values: seq<string>, parseInt: string -> Option<int>): Step {
    if |values| < 6 then Continue(c)
    else
      var code, title, showtime := values[0], values[1], values[3];
      match parseInt(values[5])
      case None => Abort
      case Some(count) =>
        Continue(Catalog(AddShowtime(c.movies, code, title, showtime), c.seats[Key(code, showtime) := count]))
  }

  /** The data lines folded into the state in order; a parse failure stops
      the fold and keeps what the earlier lines did. */
  function LoadRows(c: Catalog, rows: seq<seq<string>>, parseInt: string -> Option<int>): Catalog
    decreases |rows|
  {
    if |rows| == 0 then c
    else match LoadRecord(c, rows[0], parseInt)
      case Abort => c
      case Continue(next) => LoadRows(next, rows[1..], parseInt)
  }

  /** The lines after the header line. */
  function Records(lines: seq<seq<string>>): seq<seq<string>> {
    if |lines| == 0 then [] else lines[1..]
  }

  /** The state the reservation system starts with. */
  function LoadCatalog(lines: seq<seq<string>>, parseInt: string -> Option<int>): Catalog {
    LoadRows(EmptyCatalog, Records(lines), parseInt)
  }

  /** Why a booking was refused with the invalid-movie-code exception: no such
      movie, or no seat entry for the showtime. */
  datatype InvalidReason = NoSuchMovie | NoSuchShowtime

  datatype BookingError = InvalidMovieCode(reason: InvalidReason) | Overbooking

  datatype BookingOutcome = Booked | Rejected(error: BookingError)

  /** Booking's verdict. The checks run in order: the code, then the key,
      then the capacity; `tickets` is not checked otherwise. */
  function BookResult(c: Catalog, code: string, showtime: string, tickets: int): (r: BookingOutcome)
    ensures r == Rejected(InvalidMovieCode(NoSuchMovie)) <==> !HasMovie(c.movies, code)
    ensures r == Rejected(InvalidMovieCode(NoSuchShowtime)) <==>
      HasMovie(c.movies, code) && Key(code, showtime) !in c.seats
    ensures r == Rejected(Overbooking) <==>
      HasMovie(c.movies, code) && Key(code, showtime) in c.seats && c.seats[Key(code, showtime)] < tickets
    ensures r == Booked <==>
      HasMovie(c.movies, code) && Key(code, showtime) in c.seats && tickets <= c.seats[Key(code, showtime)]
  {
    if FirstIndex(c.movies, code).None? then Rejected(InvalidMovieCode(NoSuchMovie))
    else
      var key := Key(code, showtime);
      if key !in c.seats then Rejected(InvalidMovieCode(NoSuchShowtime))
      else if c.seats[key] < tickets then Rejected(Overbooking)
      else Booked
  }

  /** The seat map after a booking attempt. */
  function SeatsAfter(c: Catalog, code: string, showtime: string, tickets: int): (r: map<string, int>)
    ensures r.Keys == c.seats.Keys
    ensures forall k :: k in c.seats && k != Key(code, showtime) ==> r[k] == c.seats[k]
    ensures BookResult(c, code, showtime, tickets) == Booked ==>
      r[Key(code, showtime)] == c.seats[Key(code, showtime)] - tickets
    ensures BookResult(c, code, showtime, tickets) != Booked ==> r == c.seats
  {
    if BookResult(c, code, showtime, tickets) == Booked then
      var key := Key(code, showtime);
      c.seats[key := c.seats[key] - tickets]
    else c.seats
  }
}
