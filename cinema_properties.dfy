/** Properties of catalog loading and of booking, stated over the functions
    of CinemaModel. */
module CinemaProperties {
  import opened CinemaModel

  // ---------------------------------------------------------------------
  // Loading
  // ---------------------------------------------------------------------

  /** Loading one record keeps one movie per code and keeps the seat map's
      keys equal to the keys of the movies' showtimes. */
  lemma LoadRecordValid(c: Catalog, values: seq<string>, parseInt: string -> Option<int>)
    requires ValidCatalog(c)
    requires LoadRecord(c, values, parseInt).Continue?
    ensures ValidCatalog(LoadRecord(c, values, parseInt).next)
  {
    if |values| >= 6 {
      var code, title, showtime := values[0], values[1], values[3];
      var count := parseInt(values[5]).value;
      var m := AddShowtime(c.movies, code, title, showtime);
      var s := c.seats[Key(code, showtime) := count];
      var n := Catalog(m, s);
      assert LoadRecord(c, values, parseInt).next == n;
      AddShowtimeEffect(c.movies, code, title, showtime);
      var i := FirstIndex(m, code).value;
      forall j, t | 0 <= j < |m| && t in m[j].showtimes ensures Key(m[j].code, t) in s {
        if t !in ShowtimesAt(c.movies, j) {
          assert j == i && t == showtime;
        }
      }
      forall k | k in s
        ensures exists j, t :: 0 <= j < |m| && t in m[j].showtimes && k == Key(m[j].code, t)
      {
        if k == Key(code, showtime) {
          assert showtime in m[i].showtimes;
        } else {
          var j, t :| 0 <= j < |c.movies| && t in c.movies[j].showtimes && k == Key(c.movies[j].code, t);
          assert t in m[j].showtimes;
        }
      }
    }
  }

  /** Loading any number of records keeps the catalog invariant. */
  lemma {:induction false} LoadRowsValid(c: Catalog, rows: seq<seq<string>>, parseInt: string -> Option<int>)
    requires ValidCatalog(c)
    ensures ValidCatalog(LoadRows(c, rows, parseInt))
    decreases |rows|
  {
    if |rows| > 0 {
      match LoadRecord(c, rows[0], parseInt)
      case Abort =>
      case Continue(next) =>
        LoadRecordValid(c, rows[0], parseInt);
        LoadRowsValid(next, rows[1..], parseInt);
    }
  }

  /** A loaded catalog has one movie per code, and its seat keys are exactly
      the keys of its movies' showtimes. */
  lemma LoadCatalogValid(lines: seq<seq<string>>, parseInt: string -> Option<int>)
    ensures ValidCatalog(LoadCatalog(lines, parseInt))
  {
    LoadRowsValid(EmptyCatalog, Records(lines), parseInt);
  }

  /** Loading only extends: the movies already present keep their position,
      code and title, their showtimes only grow at the end, and no seat
      entry disappears. */
  lemma {:induction false} LoadRowsExtends(c: Catalog, rows: seq<seq<string>>, parseInt: string -> Option<int>)
    ensures var r := LoadRows(c, rows, parseInt);
      && |c.movies| <= |r.movies|
      && (forall j :: 0 <= j < |c.movies| ==>
            r.movies[j].code == c.movies[j].code && r.movies[j].title == c.movies[j].title
            && c.movies[j].showtimes <= r.movies[j].showtimes)
      && c.seats.Keys <= r.seats.Keys
    decreases |rows|
  {
    if |rows| > 0 {
      match LoadRecord(c, rows[0], parseInt)
      case Abort =>
      case Continue(next) =>
        if |rows[0]| >= 6 {
          AddShowtimeEffect(c.movies, rows[0][0], rows[0][1], rows[0][3]);
        }
        LoadRowsExtends(next, rows[1..], parseInt);
    }
  }

  /** The header line is never processed: any header gives the same catalog. */
  lemma HeaderIgnored(header1: seq<string>, header2: seq<string>, rows: seq<seq<string>>, parseInt: string -> Option<int>)
    ensures LoadCatalog([header1] + rows, parseInt) == LoadCatalog([header2] + rows, parseInt)
    ensures LoadCatalog([header1] + rows, parseInt) == LoadRows(EmptyCatalog, rows, parseInt)
  {
    assert ([header1] + rows)[1..] == rows;
    assert ([header2] + rows)[1..] == rows;
  }

  /** A line with fewer than six fields, wherever it stands, changes neither
      the movie list nor the seat map: removing it gives the same result. */
  lemma {:induction false} ShortLineIgnored(c: Catalog, rows: seq<seq<string>>, k: nat, parseInt: string -> Option<int>)
    requires k < |rows| && |rows[k]| < 6
    ensures LoadRows(c, rows, parseInt) == LoadRows(c, rows[..k] + rows[k + 1..], parseInt)
    decreases k
  {
    var rest := rows[..k] + rows[k + 1..];
    if k == 0 {
      assert rest == rows[1..];
    } else {
      assert rest[0] == rows[0];
      match LoadRecord(c, rows[0], parseInt)
      case Abort =>
      case Continue(next) =>
        ShortLineIgnored(next, rows[1..], k - 1, parseInt);
        assert rest[1..] == rows[1..][..k - 1] + rows[1..][k..];
    }
  }

  /** A seat count that does not parse stops the load: the lines after it
      are ignored and what the lines before it did is kept. */
  lemma {:induction false} AbortKeepsEarlierRecords(c: Catalog, rows: seq<seq<string>>, k: nat, parseInt: string -> Option<int>)
    requires k < |rows| && |rows[k]| >= 6 && parseInt(rows[k][5]).None?
    ensures LoadRows(c, rows, parseInt) == LoadRows(c, rows[..k], parseInt)
    decreases k
  {
    if k > 0 {
      assert rows[..k][0] == rows[0];
      match LoadRecord(c, rows[0], parseInt)
      case Abort =>
      case Continue(next) =>
        AbortKeepsEarlierRecords(next, rows[1..], k - 1, parseInt);
        assert rows[..k][1..] == rows[1..][..k - 1];
    }
  }

  /** A load in which no accepted line writes `key` leaves its entry as it
      was: present or absent, with the same count. */
  lemma {:induction false} KeyUntouched(c: Catalog, rows: seq<seq<string>>, key: string, parseInt: string -> Option<int>)
    requires forall j :: 0 <= j < |rows| && |rows[j]| >= 6 && parseInt(rows[j][5]).Some? ==>
      Key(rows[j][0], rows[j][3]) != key
    ensures var r := LoadRows(c, rows, parseInt);
      (key in r.seats <==> key in c.seats) && (key in c.seats ==> r.seats[key] == c.seats[key])
    decreases |rows|
  {
    if |rows| > 0 {
      match LoadRecord(c, rows[0], parseInt)
      case Abort =>
      case Continue(next) =>
        assert forall j :: 0 <= j < |rows| - 1 ==> rows[1..][j] == rows[j + 1];
        KeyUntouched(next, rows[1..], key, parseInt);
    }
  }

  /** The last accepted line that writes a key decides its count, wherever
      the lines stand: a later record for the same key overwrites the earlier
      count, provided no seat count before it fails to parse. The lines
      after `k` are all taken as reached: when a later seat count fails to
      parse, cut the lines there with AbortKeepsEarlierRecords first. Keys
      are compared as strings, so colliding (code, showtime) pairs overwrite
      each other too. */
  lemma {:induction false} LastRecordWins(c: Catalog, rows: seq<seq<string>>, k: nat, parseInt: string -> Option<int>)
    requires k < |rows| && |rows[k]| >= 6 && parseInt(rows[k][5]).Some?
    requires forall j :: 0 <= j < k && |rows[j]| >= 6 ==> parseInt(rows[j][5]).Some?
    requires forall j :: k < j < |rows| && |rows[j]| >= 6 && parseInt(rows[j][5]).Some? ==>
      Key(rows[j][0], rows[j][3]) != Key(rows[k][0], rows[k][3])
    ensures Key(rows[k][0], rows[k][3]) in LoadRows(c, rows, parseInt).seats
    ensures LoadRows(c, rows, parseInt).seats[Key(rows[k][0], rows[k][3])] == parseInt(rows[k][5]).value
    decreases k
  {
    var step := LoadRecord(c, rows[0], parseInt);
    assert step.Continue?;
    assert forall j :: 0 <= j < |rows| - 1 ==> rows[1..][j] == rows[j + 1];
    if k == 0 {
      KeyUntouched(step.next, rows[1..], Key(rows[0][0], rows[0][3]), parseInt);
    } else {
      LastRecordWins(step.next, rows[1..], k - 1, parseInt);
    }
  }

  /** Colliding keys overwrite each other during the load: movie `A_B` at
      `C` with 5 seats, then movie `A` at `B_C` with 7, leave 7 under the
      shared key, which both movies' showtimes now read. */
  lemma CollidingRecordsOverwrite(parseInt: string -> Option<int>)
    requires parseInt("5") == Some(5) && parseInt("7") == Some(7)
    ensures var c := LoadCatalog([["code", "title", "-", "showtime", "-", "seats"],
                                  ["A_B", "First", "-", "C", "-", "5"],
                                  ["A", "Second", "-", "B_C", "-", "7"]], parseInt);
      c.seats[Key("A_B", "C")] == 7 && c.seats[Key("A", "B_C")] == 7
  {
    var lines := [["code", "title", "-", "showtime", "-", "seats"],
                  ["A_B", "First", "-", "C", "-", "5"],
                  ["A", "Second", "-", "B_C", "-", "7"]];
    var rows := Records(lines);
    assert rows == lines[1..];
    assert Key("A", "B_C") == Key("A_B", "C") by {
      assert Key("A", "B_C") == "A_B_C";
      assert Key("A_B", "C") == "A_B_C";
    }
    LastRecordWins(EmptyCatalog, rows, 1, parseInt);
  }

  /** The showtimes that the accepted lines give the movie `code`, in line
      order, up to the first seat count that fails to parse. */
  function AcceptedShowtimes(rows: seq<seq<string>>, code: string, parseInt: string -> Option<int>): seq<string>
    decreases |rows|
  {
    if |rows| == 0 then []
    else if |rows[0]| < 6 then AcceptedShowtimes(rows[1..], code, parseInt)
    else if parseInt(rows[0][5]).None? then []
    else (if rows[0][0] == code then [rows[0][3]] else []) + AcceptedShowtimes(rows[1..], code, parseInt)
  }

  /** The showtimes of the first movie with code `code`; none when there is
      no such movie. */
  function ShowtimesOf(movies: seq<Movie>, code: string): seq<string> {
    match FirstIndex(movies, code)
    case None => []
    case Some(i) => movies[i].showtimes
  }

  /** One record's movie is present afterwards and gets its showtime
      appended. */
  lemma AddShowtimeOwn(movies: seq<Movie>, code: string, title: string, showtime: string)
    ensures var m := AddShowtime(movies, code, title, showtime);
      HasMovie(m, code) && ShowtimesOf(m, code) == ShowtimesOf(movies, code) + [showtime]
  {
    AddShowtimeEffect(movies, code, title, showtime);
    var m := AddShowtime(movies, code, title, showtime);
    if HasMovie(movies, code) {
      FirstIndexAgrees(movies, m, code, FirstIndex(movies, code).value);
    }
  }

  /** One record leaves every other code's presence and showtimes alone. */
  lemma AddShowtimeOther(movies: seq<Movie>, code0: string, title: string, showtime: string, code: string)
    requires code0 != code
    ensures var m := AddShowtime(movies, code0, title, showtime);
      (HasMovie(m, code) <==> HasMovie(movies, code)) && ShowtimesOf(m, code) == ShowtimesOf(movies, code)
  {
    var m := AddShowtime(movies, code0, title, showtime);
    assert |movies| <= |m|;
    assert forall j :: 0 <= j < |movies| ==> m[j].code == movies[j].code;
    assert forall j :: |movies| <= j < |m| ==> m[j].code == code0;
    if HasMovie(m, code) {
      var j :| 0 <= j < |m| && m[j].code == code;
      assert movies[j].code == code;
    }
    if HasMovie(movies, code) {
      var i := FirstIndex(movies, code).value;
      FirstIndexAgrees(movies, m, code, i);
      assert m[i] == movies[i];
    }
  }

  /** One accepted line, seen from one code: the load continues past it,
      it contributes its showtime to AcceptedShowtimes exactly when it names
      the code, and that is all it changes about the code's movie. */
  lemma AcceptedLineOf(c: Catalog, rows: seq<seq<string>>, code: string, parseInt: string -> Option<int>)
    requires |rows| > 0 && |rows[0]| >= 6 && parseInt(rows[0][5]).Some?
    ensures var step := LoadRecord(c, rows[0], parseInt);
      var added := if rows[0][0] == code then [rows[0][3]] else [];
      && step.Continue?
      && LoadRows(c, rows, parseInt) == LoadRows(step.next, rows[1..], parseInt)
      && AcceptedShowtimes(rows, code, parseInt) == added + AcceptedShowtimes(rows[1..], code, parseInt)
      && (HasMovie(step.next.movies, code) <==> HasMovie(c.movies, code) || added != [])
      && ShowtimesOf(step.next.movies, code) == ShowtimesOf(c.movies, code) + added
  {
    var code0, title0, showtime0 := rows[0][0], rows[0][1], rows[0][3];
    if code0 == code {
      AddShowtimeOwn(c.movies, code, title0, showtime0);
    } else {
      AddShowtimeOther(c.movies, code0, title0, showtime0, code);
      assert ShowtimesOf(c.movies, code) + [] == ShowtimesOf(c.movies, code);
    }
  }

  /** After any load, a movie with code `code` exists exactly when one
      existed before or some accepted line names the code. */
  lemma {:induction false} PresenceAccumulates(c: Catalog, rows: seq<seq<string>>, code: string, parseInt: string -> Option<int>)
    ensures HasMovie(LoadRows(c, rows, parseInt).movies, code)
      <==> HasMovie(c.movies, code) || AcceptedShowtimes(rows, code, parseInt) != []
    decreases |rows|
  {
    if |rows| == 0 || (|rows[0]| >= 6 && parseInt(rows[0][5]).None?) {
      assert LoadRows(c, rows, parseInt) == c && AcceptedShowtimes(rows, code, parseInt) == [];
    } else if |rows[0]| < 6 {
      assert LoadRows(c, rows, parseInt) == LoadRows(c, rows[1..], parseInt);
      assert AcceptedShowtimes(rows, code, parseInt) == AcceptedShowtimes(rows[1..], code, parseInt);
      PresenceAccumulates(c, rows[1..], code, parseInt);
    } else {
      AcceptedLineOf(c, rows, code, parseInt);
      PresenceAccumulates(LoadRecord(c, rows[0], parseInt).next, rows[1..], code, parseInt);
    }
  }

  /** After any load, the showtimes of the movie with code `code` are the old
      ones followed by the showtime of every accepted line for that code, in
      line order. */
  lemma {:induction false} ShowtimesOfAccumulate(c: Catalog, rows: seq<seq<string>>, code: string, parseInt: string -> Option<int>)
    ensures ShowtimesOf(LoadRows(c, rows, parseInt).movies, code)
      == ShowtimesOf(c.movies, code) + AcceptedShowtimes(rows, code, parseInt)
    decreases |rows|
  {
    if |rows| == 0 || (|rows[0]| >= 6 && parseInt(rows[0][5]).None?) {
      assert LoadRows(c, rows, parseInt) == c && AcceptedShowtimes(rows, code, parseInt) == [];
      assert ShowtimesOf(c.movies, code) + [] == ShowtimesOf(c.movies, code);
    } else if |rows[0]| < 6 {
      assert LoadRows(c, rows, parseInt) == LoadRows(c, rows[1..], parseInt);
      assert AcceptedShowtimes(rows, code, parseInt) == AcceptedShowtimes(rows[1..], code, parseInt);
      ShowtimesOfAccumulate(c, rows[1..], code, parseInt);
    } else {
      AcceptedLineOf(c, rows, code, parseInt);
      var next := LoadRecord(c, rows[0], parseInt).next;
      ShowtimesOfAccumulate(next, rows[1..], code, parseInt);
      var before, added, later := ShowtimesOf(c.movies, code),
        (if rows[0][0] == code then [rows[0][3]] else []), AcceptedShowtimes(rows[1..], code, parseInt);
      assert before + added + later == before + (added + later);
    }
  }

  /** After any load, a movie with code `code` exists exactly when one
      existed before or some accepted line names the code, and its showtimes
      are the old ones followed by the showtime of every accepted line for
      that code, in line order: repeated showtimes accumulate, whether the
      repeats are adjacent or not. */
  lemma ShowtimesAccumulate(c: Catalog, rows: seq<seq<string>>, code: string, parseInt: string -> Option<int>)
    ensures var r := LoadRows(c, rows, parseInt);
      && (HasMovie(r.movies, code) <==> HasMovie(c.movies, code) || AcceptedShowtimes(rows, code, parseInt) != [])
      && ShowtimesOf(r.movies, code) == ShowtimesOf(c.movies, code) + AcceptedShowtimes(rows, code, parseInt)
  {
    PresenceAccumulates(c, rows, code, parseInt);
    ShowtimesOfAccumulate(c, rows, code, parseInt);
  }

  /** Every accepted line reached by the load leaves its movie in the list
      with its showtime among that movie's showtimes. */
  lemma {:induction false} RecordIsLoaded(c: Catalog, rows: seq<seq<string>>, k: nat, parseInt: string -> Option<int>)
    requires k < |rows| && |rows[k]| >= 6 && parseInt(rows[k][5]).Some?
    requires forall j :: 0 <= j < k && |rows[j]| >= 6 ==> parseInt(rows[j][5]).Some?
    ensures var r := LoadRows(c, rows, parseInt);
      FirstIndex(r.movies, rows[k][0]).Some?
      && rows[k][3] in r.movies[FirstIndex(r.movies, rows[k][0]).value].showtimes
    decreases k
  {
    var step := LoadRecord(c, rows[0], parseInt);
    assert step.Continue?;
    assert forall j :: 0 <= j < |rows| - 1 ==> rows[1..][j] == rows[j + 1];
    if k == 0 {
      var code := rows[0][0];
      AddShowtimeEffect(c.movies, code, rows[0][1], rows[0][3]);
      var m := step.next.movies;
      var i := FirstIndex(m, code).value;
      assert rows[0][3] in m[i].showtimes;
      LoadRowsExtends(step.next, rows[1..], parseInt);
      var r := LoadRows(step.next, rows[1..], parseInt);
      FirstIndexAgrees(m, r.movies, code, i);
    } else {
      RecordIsLoaded(step.next, rows[1..], k - 1, parseInt);
    }
  }

  /** The code and title of each movie, in list order. */
  function Heads(movies: seq<Movie>): seq<(string, string)> {
    seq(|movies|, j requires 0 <= j < |movies| => (movies[j].code, movies[j].title))
  }

  /** The codes present in the movie list. */
  function CodeSet(movies: seq<Movie>): set<string> {
    set j | 0 <= j < |movies| :: movies[j].code
  }

  /** The code and title of each accepted line whose code is neither in
      `seen` nor named by an earlier accepted line, in line order, up to the
      first seat count that fails to parse. */
  function NewHeads(rows: seq<seq<string>>, seen: set<string>, parseInt: string -> Option<int>): seq<(string, string)>
    decreases |rows|
  {
    if |rows| == 0 then []
    else if |rows[0]| < 6 then NewHeads(rows[1..], seen, parseInt)
    else if parseInt(rows[0][5]).None? then []
    else if rows[0][0] in seen then NewHeads(rows[1..], seen, parseInt)
    else [(rows[0][0], rows[0][1])] + NewHeads(rows[1..], seen + {rows[0][0]}, parseInt)
  }

  /** One record appends its code and title to the list's heads exactly when
      the code is new, and adds its code to the codes present. */
  lemma AddShowtimeHeads(movies: seq<Movie>, code: string, title: string, showtime: string)
    ensures var m := AddShowtime(movies, code, title, showtime);
      && Heads(m) == Heads(movies) + (if code in CodeSet(movies) then [] else [(code, title)])
      && CodeSet(m) == CodeSet(movies) + {code}
  {
    var m := AddShowtime(movies, code, title, showtime);
    match FirstIndex(movies, code)
    case None =>
      assert m == movies + [Movie(code, title, [showtime])];
      assert code !in CodeSet(movies);
      assert Heads(m) == Heads(movies) + [(code, title)];
      assert CodeSet(m) == CodeSet(movies) + {code} by {
        assert m[|movies|].code == code;
        assert forall j :: 0 <= j < |movies| ==> m[j] == movies[j];
      }
    case Some(i) =>
      assert movies[i].code == code;
      assert |m| == |movies| && forall j :: 0 <= j < |movies| ==> m[j].code == movies[j].code && m[j].title == movies[j].title;
      assert Heads(m) == Heads(movies);
      assert CodeSet(m) == CodeSet(movies);
  }

  /** After any load, the list is the old list followed by one movie per
      code first named by an accepted line, in the order those lines stand,
      each with the title of that first line; movies already present keep
      their place and title, and later lines never reorder or rename. */
  lemma {:induction false} FirstSeenOrder(c: Catalog, rows: seq<seq<string>>, parseInt: string -> Option<int>)
    ensures Heads(LoadRows(c, rows, parseInt).movies) == Heads(c.movies) + NewHeads(rows, CodeSet(c.movies), parseInt)
    decreases |rows|
  {
    var r := LoadRows(c, rows, parseInt);
    if |rows| == 0 || (|rows[0]| >= 6 && parseInt(rows[0][5]).None?) {
      assert r == c && NewHeads(rows, CodeSet(c.movies), parseInt) == [];
      assert Heads(c.movies) + [] == Heads(c.movies);
    } else if |rows[0]| < 6 {
      assert r == LoadRows(c, rows[1..], parseInt);
      FirstSeenOrder(c, rows[1..], parseInt);
    } else {
      var code0, title0, showtime0 := rows[0][0], rows[0][1], rows[0][3];
      var next := Catalog(AddShowtime(c.movies, code0, title0, showtime0),
                          c.seats[Key(code0, showtime0) := parseInt(rows[0][5]).value]);
      assert LoadRecord(c, rows[0], parseInt) == Continue(next);
      assert r == LoadRows(next, rows[1..], parseInt);
      AddShowtimeHeads(c.movies, code0, title0, showtime0);
      FirstSeenOrder(next, rows[1..], parseInt);
      var seen := CodeSet(c.movies);
      if code0 in seen {
        assert seen + {code0} == seen;
        assert NewHeads(rows, seen, parseInt) == NewHeads(rows[1..], seen, parseInt);
        assert Heads(next.movies) + [] == Heads(next.movies);
      } else {
        assert NewHeads(rows, seen, parseInt) == [(code0, title0)] + NewHeads(rows[1..], seen + {code0}, parseInt);
      }
    }
  }

  /** Two accepted records for the same code and showtime, one after the
      other: the later seat count overwrites the earlier one, the movie's
      showtimes get the showtime twice, and the later record's title is
      ignored. */
  lemma DuplicateRecordOverwrites(c: Catalog, r1: seq<string>, r2: seq<string>, parseInt: string -> Option<int>)
    requires |r1| >= 6 && |r2| >= 6 && r1[0] == r2[0] && r1[3] == r2[3]
    requires parseInt(r1[5]).Some? && parseInt(r2[5]).Some?
    ensures var res := LoadRows(c, [r1, r2], parseInt);
      && res.seats == c.seats[Key(r1[0], r1[3]) := parseInt(r2[5]).value]
      && FirstIndex(res.movies, r1[0]).Some?
      && var i := FirstIndex(res.movies, r1[0]).value;
        res.movies[i].showtimes == ShowtimesAt(c.movies, i) + [r1[3], r1[3]]
        && res.movies[i].title == (if i < |c.movies| then c.movies[i].title else r1[1])
  {
    var code, st := r1[0], r1[3];
    var m1 := AddShowtime(c.movies, code, r1[1], st);
    var m2 := AddShowtime(m1, code, r2[1], st);
    var key := Key(code, st);
    var c1 := Catalog(m1, c.seats[key := parseInt(r1[5]).value]);
    var c2 := Catalog(m2, c1.seats[key := parseInt(r2[5]).value]);
    assert LoadRows(c, [r1, r2], parseInt) == c2 by {
      assert LoadRecord(c, r1, parseInt) == Continue(c1);
      assert LoadRecord(c1, r2, parseInt) == Continue(c2);
      assert [r1, r2][1..] == [r2];
      assert LoadRows(c1, [r2], parseInt) == LoadRows(c2, [], parseInt);
    }
    AddShowtimeTwice(c.movies, code, r1[1], r2[1], st);
  }

  /** The same code and showtime added twice: the movie is found, gets the
      showtime twice, and keeps the title it had, or the first one given. */
  lemma AddShowtimeTwice(movies: seq<Movie>, code: string, title1: string, title2: string, showtime: string)
    ensures var m := AddShowtime(AddShowtime(movies, code, title1, showtime), code, title2, showtime);
      && FirstIndex(m, code).Some?
      && var i := FirstIndex(m, code).value;
        m[i].showtimes == ShowtimesAt(movies, i) + [showtime, showtime]
        && m[i].title == (if i < |movies| then movies[i].title else title1)
  {
    var m1 := AddShowtime(movies, code, title1, showtime);
    match FirstIndex(movies, code)
    case None =>
      var i := |movies|;
      assert m1 == movies + [Movie(code, title1, [showtime])];
      assert FirstIndex(m1, code) == Some(i) by {
        assert m1[i].code == code;
        assert forall j :: 0 <= j < i ==> m1[j].code != code;
      }
      var m2 := m1[i := Movie(code, title1, [showtime, showtime])];
      assert [showtime] + [showtime] == [showtime, showtime];
      assert AddShowtime(m1, code, title2, showtime) == m2;
      FirstIndexAgrees(m1, m2, code, i);
    case Some(i) =>
      var old1 := movies[i];
      assert m1 == movies[i := old1.(showtimes := old1.showtimes + [showtime])];
      FirstIndexAgrees(movies, m1, code, i);
      var m2 := movies[i := old1.(showtimes := old1.showtimes + [showtime, showtime])];
      assert old1.showtimes + [showtime] + [showtime] == old1.showtimes + [showtime, showtime];
      assert AddShowtime(m1, code, title2, showtime) == m2;
      FirstIndexAgrees(m1, m2, code, i);
  }

  // ---------------------------------------------------------------------
  // Booking
  // ---------------------------------------------------------------------

  /** Booking does not change the seat map's keys, so it keeps the catalog
      invariant. */
  lemma BookingPreservesValid(c: Catalog, code: string, showtime: string, tickets: int)
    requires ValidCatalog(c)
    ensures ValidCatalog(Catalog(c.movies, SeatsAfter(c, code, showtime, tickets)))
  {
    var s := SeatsAfter(c, code, showtime, tickets);
    forall k | k in s
      ensures exists j, t :: 0 <= j < |c.movies| && t in c.movies[j].showtimes && k == Key(c.movies[j].code, t)
    {
      assert k in c.seats;
    }
  }

  /** With non-negative counts and a non-negative request, no count goes
      negative: an overbooking is refused in full. */
  lemma BookingKeepsNonNegative(c: Catalog, code: string, showtime: string, tickets: int)
    requires tickets >= 0
    requires forall k :: k in c.seats ==> c.seats[k] >= 0
    ensures forall k :: k in SeatsAfter(c, code, showtime, tickets) ==> SeatsAfter(c, code, showtime, tickets)[k] >= 0
  {
  }

  /** A negative request is never refused for capacity when the count is
      non-negative: for an existing movie and seat entry it is booked and
      raises the count (over mathematical integers; a 32-bit count of
      2147483647 with a request of -1 would wrap). */
  lemma NegativeTicketsRaiseCount(c: Catalog, code: string, showtime: string, tickets: int)
    requires tickets < 0 && HasMovie(c.movies, code)
    requires Key(code, showtime) in c.seats && c.seats[Key(code, showtime)] >= 0
    ensures BookResult(c, code, showtime, tickets) == Booked
    ensures SeatsAfter(c, code, showtime, tickets)[Key(code, showtime)] > c.seats[Key(code, showtime)]
  {
  }

  /** In a loaded catalog every showtime of every movie passes the showtime
      check: booking it is either done or refused for capacity. */
  lemma LoadedShowtimeIsBookable(lines: seq<seq<string>>, parseInt: string -> Option<int>, j: nat, t: string, tickets: int)
    requires j < |LoadCatalog(lines, parseInt).movies|
    requires t in LoadCatalog(lines, parseInt).movies[j].showtimes
    ensures BookResult(LoadCatalog(lines, parseInt), LoadCatalog(lines, parseInt).movies[j].code, t, tickets)
              in {Booked, Rejected(Overbooking)}
  {
    var c := LoadCatalog(lines, parseInt);
    LoadCatalogValid(lines, parseInt);
    assert HasMovie(c.movies, c.movies[j].code);
  }

  /** The converse, weakened by the key format: a booking that passes the
      showtime check hits the seat entry of SOME movie's showtime whose key
      is the requested key, not necessarily one of the requested movie. */
  lemma AcceptedKeyHasSource(c: Catalog, code: string, showtime: string, tickets: int)
    requires ValidCatalog(c)
    requires BookResult(c, code, showtime, tickets) in {Booked, Rejected(Overbooking)}
    ensures exists j, t :: 0 <= j < |c.movies| && t in c.movies[j].showtimes
                           && Key(c.movies[j].code, t) == Key(code, showtime)
  {
    assert Key(code, showtime) in c.seats;
  }

  /** The key format is ambiguous: movie `A` at showtime `B_C` and movie
      `A_B` at showtime `C` share a seat entry. In a catalog loaded from
      those two movies, booking `A` at `B_C` passes every check although `A`
      has no such showtime, and it takes the seats of `A_B` at `C`. */
  lemma KeyCollision(parseInt: string -> Option<int>)
    requires parseInt("5") == Some(5) && parseInt("1") == Some(1)
    ensures Key("A", "B_C") == Key("A_B", "C")
    ensures var c := LoadCatalog([["code", "title", "-", "showtime", "-", "seats"],
                                  ["A_B", "First", "-", "C", "-", "5"],
                                  ["A", "Second", "-", "D", "-", "1"]], parseInt);
      && c.movies == [Movie("A_B", "First", ["C"]), Movie("A", "Second", ["D"])]
      && BookResult(c, "A", "B_C", 2) == Booked
      && SeatsAfter(c, "A", "B_C", 2)[Key("A_B", "C")] == 3
  {
    var header := ["code", "title", "-", "showtime", "-", "seats"];
    var r1 := ["A_B", "First", "-", "C", "-", "5"];
    var r2 := ["A", "Second", "-", "D", "-", "1"];
    assert Key("A", "B_C") == Key("A_B", "C") by {
      assert Key("A", "B_C") == "A_B_C";
      assert Key("A_B", "C") == "A_B_C";
    }
    var lines := [header, r1, r2];
    assert Records(lines) == [r1, r2];
    assert [r1, r2][1..] == [r2];
    var m1 := [Movie("A_B", "First", ["C"])];
    assert AddShowtime([], "A_B", "First", "C") == m1;
    assert FirstIndex(m1, "A") == None;
    var c1 := Catalog(m1, map[Key("A_B", "C") := 5]);
    assert LoadRecord(EmptyCatalog, r1, parseInt) == Continue(c1);
    var m2 := m1 + [Movie("A", "Second", ["D"])];
    assert AddShowtime(m1, "A", "Second", "D") == m2;
    var c2 := Catalog(m2, c1.seats[Key("A", "D") := 1]);
    assert LoadRecord(c1, r2, parseInt) == Continue(c2);
    assert LoadRows(c1, [r2], parseInt) == LoadRows(c2, [], parseInt);
    var c := LoadCatalog(lines, parseInt);
    assert c == c2;
    assert HasMovie(c.movies, "A") by { assert c.movies[1].code == "A"; }
  }

  /** The worked example: 5 seats, two requests of 3. The first is booked and
      leaves 2; the second is refused for capacity and leaves 2. */
  lemma RepeatedBookingExample(parseInt: string -> Option<int>)
    requires parseInt("5") == Some(5)
    ensures var c := LoadCatalog([["code", "title", "genre", "showtime", "hall", "seats"],
                                  ["M1", "Inception", "SciFi", "10:00", "H1", "5"]], parseInt);
      && BookResult(c, "M1", "10:00", 3) == Booked
      && var after := Catalog(c.movies, SeatsAfter(c, "M1", "10:00", 3));
        && after.seats[Key("M1", "10:00")] == 2
        && BookResult(after, "M1", "10:00", 3) == Rejected(Overbooking)
        && SeatsAfter(after, "M1", "10:00", 3)[Key("M1", "10:00")] == 2
  {
    var header := ["code", "title", "genre", "showtime", "hall", "seats"];
    var r1 := ["M1", "Inception", "SciFi", "10:00", "H1", "5"];
    var lines := [header, r1];
    assert Records(lines) == [r1];
    var m := [Movie("M1", "Inception", ["10:00"])];
    assert AddShowtime([], "M1", "Inception", "10:00") == m;
    var c1 := Catalog(m, map[Key("M1", "10:00") := 5]);
    assert LoadRecord(EmptyCatalog, r1, parseInt) == Continue(c1);
    assert LoadRows(EmptyCatalog, [r1], parseInt) == LoadRows(c1, [], parseInt);
    var c := LoadCatalog(lines, parseInt);
    assert c == c1;
    assert HasMovie(c.movies, "M1") by { assert c.movies[0].code == "M1"; }
  }
}
