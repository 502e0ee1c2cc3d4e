/** The reservation system as an object: the movie list and the seat map are
    fields that loading and booking update in place. Each method is proved
    against the functions of CinemaModel. */
module Cinema {
  import opened CinemaModel
  import CinemaProperties

  class ReservationSystem {
    var movies: seq<Movie>
    var availableSeats: map<string, int>

    function State(): Catalog
      reads this
    {
      Catalog(movies, availableSeats)
    }

    ghost predicate Valid()
      reads this
    {
      ValidCatalog(State())
    }

    /** Starts empty and loads the catalog from `lines`, the input already
        split into fields, header line first; `parseInt` stands for the
        integer parser and gives None where it would throw. */
    constructor (lines: seq<seq<string>>, parseInt: string -> Option<int>)
      ensures Valid()
      ensures State() == LoadCatalog(lines, parseInt)
    {
      movies := [];
      availableSeats := map[];
      new;
      InitializeMovies(lines, parseInt);
    }

    /** Skips the header line, then processes the data lines in order until
        the end or until a seat count fails to parse. */
    method InitializeMovies(lines: seq<seq<string>>, parseInt: string -> Option<int>)
      requires Valid()
      modifies this
      ensures Valid()
      ensures State() == LoadRows(old(State()), Records(lines), parseInt)
    {
      ghost var start := State();
      var rows := Records(lines);
      var i := 0;
      while i < |rows|
        invariant 0 <= i <= |rows|
        invariant LoadRows(State(), rows[i..], parseInt) == LoadRows(start, rows, parseInt)
      {
        var values := rows[i];
        assert rows[i..][0] == values && rows[i..][1..] == rows[i + 1..];
        i := i + 1;
        if |values| < 6 {
          continue;
        }
        var code, title, showtime := values[0], values[1], values[3];
        var seatsCount := parseInt(values[5]);
        if seatsCount.None? {
          break;
        }
        var found := FindMovie(code);
        ghost var before, isNew := movies, found.None?;
        if found.None? {
          movies := movies + [Movie(code, title, [])];
          found := Some(|movies| - 1);
        }
        var idx := found.value;
        movies := movies[idx := movies[idx].(showtimes := movies[idx].showtimes + [showtime])];
        if isNew {
          assert [] + [showtime] == [showtime];
          assert movies[|before|] == Movie(code, title, [showtime]);
          assert movies == before + [Movie(code, title, [showtime])];
        }
        assert movies == AddShowtime(before, code, title, showtime);
        availableSeats := availableSeats[Key(code, showtime) := seatsCount.value];
      }
      CinemaProperties.LoadRowsValid(start, rows, parseInt);
    }

    /** Books `tickets` seats for `movieCode` at `showtime`, or reports why
        not; only a successful booking changes the state, and then only the
        requested key's count. */
    method BookTickets(movieCode: string, showtime: string, tickets: int) returns (r: BookingOutcome)
      requires Valid()
      modifies this`availableSeats
      ensures Valid()
      ensures r == BookResult(old(State()), movieCode, showtime, tickets)
      ensures movies == old(movies)
      ensures availableSeats == SeatsAfter(old(State()), movieCode, showtime, tickets)
    {
      CinemaProperties.BookingPreservesValid(State(), movieCode, showtime, tickets);
      var movie := FindMovie(movieCode);
      if movie.None? {
        return Rejected(InvalidMovieCode(NoSuchMovie));
      }
      var key := movieCode + "_" + showtime;
      if key !in availableSeats {
        return Rejected(InvalidMovieCode(NoSuchShowtime));
      }
      if availableSeats[key] < tickets {
        return Rejected(Overbooking);
      }
      availableSeats := availableSeats[key := availableSeats[key] - tickets];
      r := Booked;
    }

    /** The position of the first movie in list order whose code is
        `movieCode`, or None. */
    method FindMovie(movieCode: string) returns (r: Option<nat>)
      ensures r == FirstIndex(movies, movieCode)
    {
      for i := 0 to |movies|
        invariant forall j :: 0 <= j < i ==> movies[j].code != movieCode
      {
        if movies[i].code == movieCode {
          return Some(i);
        }
      }
      return None;
    }
  }
}
