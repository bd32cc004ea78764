/** FilmDbStorage: the FILMS table and the tables joined to it, held in memory,
    with every SQL statement of the store as an operation on that state. */
module Store {
  import opened Wrappers
  import opened Dates
  import opened Sequences
  import opened Text
  import opened Films

  /** The ids paired with `filmId` in a (FILM_ID, other id) join table: the select of a
      film's liking users from FILMS_LIKES, and its genre and director analogues. */
  function RowsFor(table: set<(int, int)>, filmId: int): (r: set<int>)
    ensures forall x :: x in r <==> (filmId, x) in table
  {
    set p | p in table && p.0 == filmId :: p.1
  }

  /** One join row (filmId, x) for each x of `ids`. */
  function RowsOf(filmId: int, ids: set<int>): (r: set<(int, int)>)
    ensures forall x :: (filmId, x) in r <==> x in ids
    ensures forall p :: p in r ==> p.0 == filmId
  {
    set x | x in ids :: (filmId, x)
  }

  /** The delete of every row of the film from a join table. */
  function DeleteRows(table: set<(int, int)>, filmId: int): (r: set<(int, int)>)
    ensures forall p :: p in r <==> p in table && p.0 != filmId
  {
    set p | p in table && p.0 != filmId
  }

  /** A full replace: the film's rows deleted, then one row inserted per id. The film ends
      up paired with exactly `ids`; every other film keeps its rows. */
  function ReplaceRows(table: set<(int, int)>, filmId: int, ids: set<int>): (r: set<(int, int)>)
    ensures RowsFor(r, filmId) == ids
    ensures forall other :: other != filmId ==> RowsFor(r, other) == RowsFor(table, other)
  {
    DeleteRows(table, filmId) + RowsOf(filmId, ids)
  }

  /** A set the Java code may leave null, read as empty. */
  function OrEmpty(s: Option<set<int>>): set<int> {
    if s.Some? then s.value else {}
  }

  /** The search pattern's query: H2's CONCAT drops NULL arguments, so a null query
      gives the pattern of the empty string. */
  function OrBlank(query: Option<string>): string {
    if query.Some? then query.value else ""
  }

  /** The loop that inserts one join-table row for each id of the set. */
  method InsertRows(table: set<(int, int)>, filmId: int, ids: set<int>) returns (t: set<(int, int)>)
    ensures t == table + RowsOf(filmId, ids)
  {
    t := table;
    var pending := ids;
    while pending != {}
      invariant pending <= ids
      invariant t == table + RowsOf(filmId, ids - pending)
      decreases |pending|
    {
      NonEmptyHasElement(pending);
      var x :| x in pending;
      t := t + {(filmId, x)};
      pending := pending - {x};
      assert RowsOf(filmId, ids - pending) == RowsOf(filmId, ids - (pending + {x})) + {(filmId, x)};
    }
    assert ids - pending == ids;
  }

  /** The first film of the query's result list with that id; null when there is none. */
  function Lookup(s: seq<Film>, id: int): (r: Option<Film>)
    ensures r.Some? ==> r.value in s && r.value.id == id
    ensures r.None? ==> forall f :: f in s ==> f.id != id
  {
    if s == [] then None
    else if s[0].id == id then Some(s[0])
    else Lookup(s[1..], id)
  }

  /** The rows with the one whose id matches `row` replaced by it; ids and order stay. */
  function ReplaceRow(rows: seq<FilmRow>, row: FilmRow): (r: seq<FilmRow>)
    ensures |r| == |rows|
    ensures forall i :: 0 <= i < |r| ==> r[i] == if rows[i].id == row.id then row else rows[i]
    ensures forall i :: 0 <= i < |r| ==> r[i].id == rows[i].id
    ensures Ascending(rows, RowId) ==> Ascending(r, RowId)
    ensures (forall x :: x in rows ==> x.id != row.id) ==> r == rows
  {
    var r := seq(|rows|, i requires 0 <= i < |rows| => if rows[i].id == row.id then row else rows[i]);
    assert (forall x :: x in rows ==> x.id != row.id) ==> r == rows by {
      if forall x :: x in rows ==> x.id != row.id {
        forall i | 0 <= i < |rows| ensures r[i] == rows[i] {
          assert rows[i] in rows;
        }
      }
    }
    r
  }

  /** Replacing a row keeps every id below a bound the old ids were below. */
  lemma ReplaceRowBounded(rows: seq<FilmRow>, row: FilmRow, bound: int)
    requires forall x :: x in rows ==> x.id < bound
    ensures forall x :: x in ReplaceRow(rows, row) ==> x.id < bound
  {
    var r := ReplaceRow(rows, row);
    forall x | x in r ensures x.id < bound {
      var i :| 0 <= i < |r| && r[i] == x;
      assert rows[i] in rows;
    }
  }

  /** One Lookup per id, in the order of the ids. */
  method LookupEach(s: seq<Film>, ids: seq<int>) returns (r: seq<Option<Film>>)
    ensures |r| == |ids|
    ensures forall k :: 0 <= k < |r| ==> r[k] == Lookup(s, ids[k])
  {
    r := [];
    for k := 0 to |ids|
      invariant |r| == k
      invariant forall m :: 0 <= m < k ==> r[m] == Lookup(s, ids[m])
    {
      r := r + [Lookup(s, ids[k])];
    }
  }

  /** With ids ascending, the film Lookup finds is the only one with that id. */
  lemma LookupUnique(s: seq<Film>, id: int)
    requires Ascending(s, FilmId)
    ensures forall f :: f in s && f.id == id ==> Lookup(s, id) == Some(f)
  {
    AscendingKeyIdentifies(s, FilmId);
    forall f | f in s && f.id == id ensures Lookup(s, id) == Some(f) {
      assert Lookup(s, id).Some?;
      assert FilmId(Lookup(s, id).value) == FilmId(f);
    }
  }

  /** RELEASE_DATE of the FILMS row with that id; NULL when an outer join finds no row. */
  function ReleaseDateIn(rows: seq<FilmRow>, id: int): Option<Date> {
    if rows == [] then None
    else if rows[0].id == id then Some(rows[0].releaseDate)
    else ReleaseDateIn(rows[1..], id)
  }

  /** A row no earlier row shares its id with is the one whose date ReleaseDateIn reads. */
  lemma {:induction false} ReleaseDateFirst(rows: seq<FilmRow>, i: int)
    requires 0 <= i < |rows|
    requires forall j :: 0 <= j < i ==> rows[j].id != rows[i].id
    ensures ReleaseDateIn(rows, rows[i].id) == Some(rows[i].releaseDate)
  {
    if i > 0 {
      assert rows[0].id != rows[i].id;
      assert rows[1..][i - 1] == rows[i];
      ReleaseDateFirst(rows[1..], i - 1);
    }
  }

  /** Sort key of `ORDER BY films.release_date`, negated for the descending sort. */
  function YearKey(rows: seq<FilmRow>): int -> int {
    id => match ReleaseDateIn(rows, id)
          case Some(d) => -Ordinal(d)
          case None => 0
  }

  /** Whether an outer join to FILMS finds no row (and so no date) for the id. */
  function Undated(rows: seq<FilmRow>): int -> bool {
    id => ReleaseDateIn(rows, id).None?
  }

  function Dated(rows: seq<FilmRow>): int -> bool {
    id => ReleaseDateIn(rows, id).Some?
  }

  /** `ORDER BY films.release_date` over the ids: NULL dates sort first, then the dated
      ids from the earliest date on, ties left in the given order. */
  function ByReleaseDate(rows: seq<FilmRow>, ids: seq<int>): (r: seq<int>)
    ensures multiset(r) == multiset(ids)
  {
    var undated := Filter(ids, Undated(rows));
    var dated := SortDesc(Filter(ids, Dated(rows)), YearKey(rows));
    assert forall x :: multiset(undated + dated)[x] == multiset(ids)[x] by {
      forall x ensures multiset(undated + dated)[x] == multiset(ids)[x] {
        assert multiset(undated + dated)[x] == multiset(undated)[x] + multiset(dated)[x];
        assert Undated(rows)(x) != Dated(rows)(x);
      }
    }
    undated + dated
  }

  /** Filtering splits the ids into those with and those without a FILMS row. */
  lemma SplitByDate(rows: seq<FilmRow>, ids: seq<int>)
    ensures forall k :: 0 <= k < |Filter(ids, Undated(rows))| ==>
              ReleaseDateIn(rows, Filter(ids, Undated(rows))[k]).None?
    ensures forall k :: 0 <= k < |Filter(ids, Dated(rows))| ==>
              ReleaseDateIn(rows, Filter(ids, Dated(rows))[k]).Some?
  {
    var dated := Filter(ids, Dated(rows));
    forall k | 0 <= k < |dated| ensures ReleaseDateIn(rows, dated[k]).Some? {
      assert dated[k] in dated;
    }
    var undated := Filter(ids, Undated(rows));
    forall k | 0 <= k < |undated| ensures ReleaseDateIn(rows, undated[k]).None? {
      assert undated[k] in undated;
    }
  }

  /** Sorting dated ids by YearKey keeps them dated and puts them in date order. */
  lemma SortedByDate(rows: seq<FilmRow>, s: seq<int>)
    requires forall k :: 0 <= k < |s| ==> ReleaseDateIn(rows, s[k]).Some?
    ensures forall k :: 0 <= k < |SortDesc(s, YearKey(rows))| ==>
              ReleaseDateIn(rows, SortDesc(s, YearKey(rows))[k]).Some?
    ensures forall i, j :: 0 <= i < j < |SortDesc(s, YearKey(rows))| ==>
              !Before(ReleaseDateIn(rows, SortDesc(s, YearKey(rows))[j]).value,
                      ReleaseDateIn(rows, SortDesc(s, YearKey(rows))[i]).value)
  {
    var dated := SortDesc(s, YearKey(rows));
    forall k | 0 <= k < |dated| ensures ReleaseDateIn(rows, dated[k]).Some? {
      assert dated[k] in multiset(dated);
      assert dated[k] in s;
    }
    forall i, j | 0 <= i < j < |dated|
      ensures !Before(ReleaseDateIn(rows, dated[j]).value, ReleaseDateIn(rows, dated[i]).value)
    {
      assert YearKey(rows)(dated[i]) >= YearKey(rows)(dated[j]);
      OrdinalOrder(ReleaseDateIn(rows, dated[j]).value, ReleaseDateIn(rows, dated[i]).value);
    }
  }

  /** Undated ids followed by dated ids in date order keep both ordering properties. */
  lemma ConcatByDate(rows: seq<FilmRow>, undated: seq<int>, dated: seq<int>)
    requires forall k :: 0 <= k < |undated| ==> ReleaseDateIn(rows, undated[k]).None?
    requires forall k :: 0 <= k < |dated| ==> ReleaseDateIn(rows, dated[k]).Some?
    requires forall i, j :: 0 <= i < j < |dated| ==>
               !Before(ReleaseDateIn(rows, dated[j]).value, ReleaseDateIn(rows, dated[i]).value)
    ensures var r := undated + dated;
      forall i, j :: 0 <= i < j < |r| && ReleaseDateIn(rows, r[j]).None? ==> ReleaseDateIn(rows, r[i]).None?
    ensures var r := undated + dated;
      forall i, j :: 0 <= i < j < |r| && ReleaseDateIn(rows, r[i]).Some? && ReleaseDateIn(rows, r[j]).Some? ==>
        !Before(ReleaseDateIn(rows, r[j]).value, ReleaseDateIn(rows, r[i]).value)
  {
  }

  /** Ids with no FILMS row precede every dated id, and dated ids never go back in time. */
  lemma ByReleaseDateOrder(rows: seq<FilmRow>, ids: seq<int>)
    ensures var r := ByReleaseDate(rows, ids);
      forall i, j :: 0 <= i < j < |r| && ReleaseDateIn(rows, r[j]).None? ==> ReleaseDateIn(rows, r[i]).None?
    ensures var r := ByReleaseDate(rows, ids);
      forall i, j :: 0 <= i < j < |r| && ReleaseDateIn(rows, r[i]).Some? && ReleaseDateIn(rows, r[j]).Some? ==>
        !Before(ReleaseDateIn(rows, r[j]).value, ReleaseDateIn(rows, r[i]).value)
  {
    var undated := Filter(ids, Undated(rows));
    var dated := SortDesc(Filter(ids, Dated(rows)), YearKey(rows));
    assert ByReleaseDate(rows, ids) == undated + dated;
    SplitByDate(rows, ids);
    SortedByDate(rows, Filter(ids, Dated(rows)));
    ConcatByDate(rows, undated, dated);
  }

  /** Sort key of the likes query (descending like-row count): the film's like rows. */
  function LikesKey(likes: set<(int, int)>): int -> int {
    id => |RowsFor(likes, id)|
  }

  /** The FILMS_DIRECTORS rows of a film whose DIRECTORS name matches the query
      (the rows the director outer join keeps when the director name matches). */
  function DirectorRowsMatching(directors: set<(int, int)>, names: map<int, string>, filmId: int, query: string)
    : set<(int, int)>
  {
    set p | p in directors && p.0 == filmId && p.1 in names && ILike(names[p.1], query)
  }

  /** How many result rows the director search yields for a film. */
  function DirectorMatchCount(directors: set<(int, int)>, names: map<int, string>, query: string): Film -> nat {
    (f: Film) => |DirectorRowsMatching(directors, names, f.id, query)|
  }

  class FilmDbStorage {
    /** FILMS, in FILM_ID order. */
    var films: seq<FilmRow>
    /** RATINGS: RATING_ID to NAME. */
    var ratings: map<int, string>
    /** DIRECTORS: DIRECTOR_ID to NAME. */
    var directorNames: map<int, string>
    /** FILMS_LIKES: (FILM_ID, USER_ID). */
    var likes: set<(int, int)>
    /** FILMS_GENRES: (FILM_ID, GENRE_ID). */
    var genres: set<(int, int)>
    /** FILMS_DIRECTORS: (FILM_ID, DIRECTOR_ID). */
    var directors: set<(int, int)>
    /** The next FILM_ID the identity column generates. */
    var nextId: int

    /** FILM_ID is a key, rows are kept in id order, and every id was generated before. */
    ghost predicate Valid()
      reads this`films, this`nextId
    {
      Ascending(films, RowId) &&
      forall row :: row in films ==> row.id < nextId
    }

    constructor (ratings: map<int, string>, directorNames: map<int, string>)
      ensures Valid()
      ensures this.ratings == ratings && this.directorNames == directorNames
      ensures films == [] && likes == {} && genres == {} && directors == {} && nextId == 1
    {
      this.films := [];
      this.ratings := ratings;
      this.directorNames := directorNames;
      this.likes := {};
      this.genres := {};
      this.directors := {};
      this.nextId := 1;
    }

    /** The FILMS rows outer-joined to RATINGS: every row mapped, in id order. */
    function AllRows(): (r: seq<Film>)
      reads this`films, this`ratings, this`nextId
      ensures |r| == |films|
      ensures forall i :: 0 <= i < |films| ==> r[i] == MapToFilm(films[i], ratings)
      ensures Valid() ==> Ascending(r, FilmId)
    {
      var rows, names := films, ratings;
      seq(|rows|, i requires 0 <= i < |rows| => MapToFilm(rows[i], names))
    }

    /** findAll: the films joined to their RATINGS row, in ascending id order. */
    function FindAll(): (r: seq<Film>)
      reads this`films, this`ratings, this`nextId
      requires Valid()
      ensures Ascending(r, FilmId)
      ensures forall f :: f in r <==> f in AllRows() && Rated(f)
      ensures forall f :: f in r ==> f.likes == {} && f.genres.None?
    {
      var all := AllRows();
      FilterAscending(all, Rated, FilmId);
      Filter(all, Rated)
    }

    /** findById: the first row of the joined query for that id, or null. */
    function FindById(id: int): (r: Option<Film>)
      reads this`films, this`ratings, this`nextId
      requires Valid()
      ensures r.None? <==> forall f :: f in FindAll() ==> f.id != id
      ensures forall f :: f in FindAll() && f.id == id ==> r == Some(f)
    {
      var all := FindAll();
      LookupUnique(all, id);
      Lookup(all, id)
    }

    /** findAllByYear: the films released in the year, in ascending id order. */
    function FindAllByYear(year: int): (r: seq<Film>)
      reads this
      requires Valid()
      ensures Ascending(r, FilmId)
      ensures forall f :: f in r <==> f in FindAll() && f.releaseDate.year == year
    {
      var all := FindAll();
      var inYear := (f: Film) => f.releaseDate.year == year;
      FilterAscending(all, inYear, FilmId);
      Filter(all, inYear)
    }

    /** findAllByGenre: the films with a FILMS_GENRES row for the genre, in ascending id order. */
    function FindAllByGenre(genreId: int): (r: seq<Film>)
      reads this
      requires Valid()
      ensures Ascending(r, FilmId)
      ensures forall f :: f in r <==> f in FindAll() && (f.id, genreId) in genres
    {
      var all, table := FindAll(), genres;
      var hasGenre := (f: Film) => (f.id, genreId) in table;
      FilterAscending(all, hasGenre, FilmId);
      Filter(all, hasGenre)
    }

    /** findAllByGenreAndYear: both conditions in one WHERE clause. */
    function FindAllByGenreAndYear(genreId: int, year: int): (r: seq<Film>)
      reads this
      requires Valid()
      ensures Ascending(r, FilmId)
      ensures forall f :: f in r <==> f in FindAllByGenre(genreId) && f in FindAllByYear(year)
    {
      var all, table := FindAll(), genres;
      var both := (f: Film) => (f.id, genreId) in table && f.releaseDate.year == year;
      FilterAscending(all, both, FilmId);
      Filter(all, both)
    }

    /** create: INSERT INTO FILMS with a generated FILM_ID, which is set on the film. */
    method Create(film: Film) returns (r: Film)
      requires Valid()
      requires film.mpa.Some?
      modifies this`films, this`nextId
      ensures Valid()
      ensures r == film.(id := old(nextId))
      ensures forall row :: row in old(films) ==> row.id < r.id
      ensures films == old(films) + [ToRow(r)]
      ensures r.mpa.value.id in ratings ==> FindById(r.id) == Some(MapToFilm(ToRow(r), ratings))
    {
      r := film.(id := nextId);
      AscendingSnoc(films, ToRow(r), RowId);
      films := films + [ToRow(r)];
      nextId := nextId + 1;
      assert AllRows()[|films| - 1] == MapToFilm(ToRow(r), ratings);
    }

    /** update: overwrite the FILMS row with the film's id; a missing id updates nothing. */
    method Update(film: Film) returns (r: Film)
      requires Valid()
      requires film.mpa.Some?
      modifies this`films
      ensures Valid()
      ensures r == film
      ensures |films| == |old(films)|
      ensures forall i :: 0 <= i < |films| ==>
                films[i] == if old(films)[i].id == film.id then ToRow(film) else old(films)[i]
      ensures (forall row :: row in old(films) ==> row.id != film.id) ==> films == old(films)
      ensures (exists row :: row in old(films) && row.id == film.id) && film.mpa.value.id in ratings ==>
                FindById(film.id) == Some(MapToFilm(ToRow(film), ratings))
    {
      var rows, updated := films, ToRow(film);
      ReplaceRowBounded(rows, updated, nextId);
      films := ReplaceRow(rows, updated);
      if exists row :: row in rows && row.id == film.id {
        var row :| row in rows && row.id == film.id;
        var i :| 0 <= i < |rows| && rows[i] == row;
        if updated.ratingId in ratings {
          FindsRow(this, i);
        }
      }
      r := film;
    }

    /** delete: remove the FILMS row with that id. */
    method Delete(id: int)
      requires Valid()
      modifies this`films
      ensures Valid()
      ensures forall row :: row in films <==> row in old(films) && row.id != id
      ensures FindById(id).None?
    {
      var keep := (row: FilmRow) => row.id != id;
      FilterAscending(films, keep, RowId);
      films := Filter(films, keep);
    }

    /** saveLikes: delete every like row of the film, then insert one per liking user. */
    method SaveLikes(film: Film)
      modifies this`likes
      ensures likes == ReplaceRows(old(likes), film.id, film.likes)
      ensures Valid() <==> old(Valid())
    {
      likes := DeleteRows(likes, film.id);
      likes := InsertRows(likes, film.id, film.likes);
    }

    /** loadLikes: add every stored liking user to the film's set, without clearing it. */
    method LoadLikes(film: Film) returns (r: Film)
      ensures r == film.(likes := film.likes + RowsFor(likes, film.id))
    {
      var stored := RowsFor(likes, film.id);
      var rows := stored;
      r := film;
      while rows != {}
        invariant rows <= stored
        invariant r == film.(likes := film.likes + (stored - rows))
        decreases |rows|
      {
        NonEmptyHasElement(rows);
        var userId :| userId in rows;
        r := r.(likes := r.likes + {userId});
        rows := rows - {userId};
      }
      assert stored - rows == stored;
    }

    /** createGenresByFilm: insert a genre row per genre; nothing when the set is null. */
    method CreateGenresByFilm(film: Film)
      modifies this`genres
      ensures genres == old(genres) + RowsOf(film.id, OrEmpty(film.genres))
    {
      if film.genres.None? {
        assert RowsOf(film.id, {}) == {};
        return;
      }
      genres := InsertRows(genres, film.id, film.genres.value);
    }

    /** updateGenresByFilm: delete the film's genre rows, then createGenresByFilm. */
    method UpdateGenresByFilm(film: Film)
      modifies this`genres
      ensures genres == ReplaceRows(old(genres), film.id, OrEmpty(film.genres))
    {
      genres := DeleteRows(genres, film.id);
      CreateGenresByFilm(film);
    }

    /** createDirectorsByFilm: insert a director row per director; nothing when the set is null. */
    method CreateDirectorsByFilm(film: Film)
      modifies this`directors
      ensures directors == old(directors) + RowsOf(film.id, OrEmpty(film.directors))
    {
      if film.directors.None? {
        assert RowsOf(film.id, {}) == {};
        return;
      }
      directors := InsertRows(directors, film.id, film.directors.value);
    }

    /** updateDirectorsByFilm: delete the film's director rows, then createDirectorsByFilm. */
    method UpdateDirectorsByFilm(film: Film)
      modifies this`directors
      ensures directors == ReplaceRows(old(directors), film.id, OrEmpty(film.directors))
    {
      directors := DeleteRows(directors, film.id);
      CreateDirectorsByFilm(film);
    }

    /** commonMovies: the self-join of FILMS_LIKES on the film, keeping pairs of rows for the
        two users when their ids differ, joined to FILMS and RATINGS, in id order. */
    function CommonMovies(userId: int, friendId: int): (r: seq<Film>)
      reads this
      requires Valid()
      ensures Ascending(r, FilmId)
      ensures forall f :: f in r <==>
                f in FindAll() && userId != friendId && (f.id, userId) in likes && (f.id, friendId) in likes
      ensures userId == friendId ==> r == []
    {
      var all, table := FindAll(), likes;
      var both := (f: Film) => userId != friendId && (f.id, userId) in table && (f.id, friendId) in table;
      FilterAscending(all, both, FilmId);
      Filter(all, both)
    }

    /** The films FILMS_DIRECTORS pairs with the director. */
    function DirectorFilmIds(directorId: int): (r: set<int>)
      reads this
      ensures forall id :: id in r <==> (id, directorId) in directors
    {
      set p | p in directors && p.1 == directorId :: p.0
    }

    /** The `sqlByYear` query: each film of the director once, undated ids (no FILMS row)
        first, then by ascending release date. */
    function FilmIdsByYear(directorId: int): (r: seq<int>)
      reads this
      ensures forall id :: multiset(r)[id] == if (id, directorId) in directors then 1 else 0
      ensures forall i, j :: 0 <= i < j < |r| && ReleaseDateIn(films, r[j]).None? ==>
                ReleaseDateIn(films, r[i]).None?
      ensures forall i, j :: 0 <= i < j < |r| && ReleaseDateIn(films, r[i]).Some? && ReleaseDateIn(films, r[j]).Some? ==>
                !Before(ReleaseDateIn(films, r[j]).value, ReleaseDateIn(films, r[i]).value)
    {
      var ids := SetToSeq(DirectorFilmIds(directorId));
      SetToSeqCount(DirectorFilmIds(directorId));
      ByReleaseDateOrder(films, ids);
      ByReleaseDate(films, ids)
    }

    /** The `sqlByLikes` query: each film of the director once, by descending number of
        like rows. */
    function FilmIdsByLikes(directorId: int): (r: seq<int>)
      reads this
      ensures forall id :: multiset(r)[id] == if (id, directorId) in directors then 1 else 0
      ensures forall i, j :: 0 <= i < j < |r| ==> |RowsFor(likes, r[i])| >= |RowsFor(likes, r[j])|
    {
      var r := SortDesc(SetToSeq(DirectorFilmIds(directorId)), LikesKey(likes));
      SetToSeqCount(DirectorFilmIds(directorId));
      assert NonIncreasing(r, LikesKey(likes));
      r
    }

    /** findFilmsByDirector: run the query the sort key selects, then findById each id in order. */
    method FindFilmsByDirector(directorId: int, sortBy: string) returns (r: seq<Option<Film>>)
      requires Valid()
      ensures sortBy == "year" ==>
                |r| == |FilmIdsByYear(directorId)| &&
                forall k :: 0 <= k < |r| ==> r[k] == FindById(FilmIdsByYear(directorId)[k])
      ensures sortBy != "year" ==>
                |r| == |FilmIdsByLikes(directorId)| &&
                forall k :: 0 <= k < |r| ==> r[k] == FindById(FilmIdsByLikes(directorId)[k])
      ensures sortBy == "year" ==>
                forall i, j :: 0 <= i < j < |r| && r[i].Some? && r[j].Some? ==>
                  !Before(r[j].value.releaseDate, r[i].value.releaseDate)
    {
      if sortBy == "year" {
        r := FindEach(FilmIdsByYear(directorId));
        FilmsByYearInDateOrder(this, directorId, r);
      } else {
        r := FindEach(FilmIdsByLikes(directorId));
      }
    }

    /** The loop of findFilmsByDirector: findById of each id, appended in order. */
    method FindEach(ids: seq<int>) returns (r: seq<Option<Film>>)
      requires Valid()
      ensures |r| == |ids|
      ensures forall k :: 0 <= k < |r| ==> r[k] == FindById(ids[k])
    {
      // No write happens between the calls, so each one looks the id up in the same FindAll().
      var all := FindAll();
      r := LookupEach(all, ids);
    }

    /** searchByTitle: the films (rating LEFT JOINed) whose name ILIKE '%query%'. */
    function SearchByTitle(query: string): (r: seq<Film>)
      reads this
      ensures forall f :: f in r <==> f in AllRows() && ILike(f.name, query)
      ensures forall f :: multiset(r)[f] == if ILike(f.name, query) then multiset(AllRows())[f] else 0
    {
      Filter(AllRows(), (f: Film) => ILike(f.name, query))
    }

    /** searchByDir: one row per (film, director) pair whose director name ILIKE '%query%'. */
    function SearchByDirector(query: string): (r: seq<Film>)
      reads this
      requires Valid()
      ensures forall f :: multiset(r)[f] ==
                if f in AllRows() then |DirectorRowsMatching(directors, directorNames, f.id, query)| else 0
    {
      var all := AllRows();
      var mult := DirectorMatchCount(directors, directorNames, query);
      assert Distinct(all);
      assert forall f :: multiset(Expand(all, mult))[f] == if f in all then mult(f) else 0 by {
        forall f ensures multiset(Expand(all, mult))[f] == if f in all then mult(f) else 0 {
          ExpandCount(all, mult, f);
        }
      }
      Expand(all, mult)
    }

    /** The UNION ALL of both searches, `ORDER BY FILM_ID desc`; `directorFirst` says which
        query stands first in the union. */
    function SearchByBoth(query: string, directorFirst: bool): (r: seq<Film>)
      reads this
      requires Valid()
      ensures multiset(r) == multiset(SearchByDirector(query)) + multiset(SearchByTitle(query))
      ensures NonIncreasing(r, FilmId)
    {
      var byDirector, byTitle := SearchByDirector(query), SearchByTitle(query);
      SortDesc(if directorFirst then byDirector + byTitle else byTitle + byDirector, FilmId)
    }

    /** searchBy: the switch over the field list; an unknown value leaves the result null. */
    method SearchBy(query: Option<string>, searchBy: Option<string>) returns (r: Result<Option<seq<Film>>, Error>)
      requires Valid()
      ensures r.Err? <==> searchBy.None?
      ensures r.Err? ==> r.error == NullPointer
      ensures searchBy == Some("director") ==> r == Ok(Some(SearchByDirector(OrBlank(query))))
      ensures searchBy == Some("title") ==> r == Ok(Some(SearchByTitle(OrBlank(query))))
      ensures searchBy == Some("director,title") ==> r == Ok(Some(SearchByBoth(OrBlank(query), true)))
      ensures searchBy == Some("title,director") ==> r == Ok(Some(SearchByBoth(OrBlank(query), false)))
      ensures r == Ok(None) <==>
                searchBy.Some? && searchBy.value !in {"director", "title", "director,title", "title,director"}
    {
      if searchBy.None? {
        return Err(NullPointer);
      }
      var q := OrBlank(query);
      var found := None;
      if searchBy.value == "director" {
        found := Some(SearchByDirector(q));
      } else if searchBy.value == "title" {
        found := Some(SearchByTitle(q));
      } else if searchBy.value == "director,title" {
        found := Some(SearchByBoth(q, true));
      } else if searchBy.value == "title,director" {
        found := Some(SearchByBoth(q, false));
      }
      r := Ok(found);
    }
  }

  /** Common films do not depend on which of the two users asks. */
  lemma {:induction false} CommonMoviesSymmetric(st: FilmDbStorage, userId: int, friendId: int)
    requires st.Valid()
    ensures st.CommonMovies(userId, friendId) == st.CommonMovies(friendId, userId)
  {
    AscendingUnique(st.CommonMovies(userId, friendId), st.CommonMovies(friendId, userId), FilmId);
  }

  /** A null title query lists every FILMS row, in table order. */
  lemma NullTitleQueryListsAll(st: FilmDbStorage)
    ensures st.SearchByTitle(OrBlank(None)) == st.AllRows()
  {
    forall f: Film ensures ILike(f.name, "") {
      EmptyQueryMatchesAll(f.name);
    }
    FilterAll(st.AllRows(), (f: Film) => ILike(f.name, OrBlank(None)));
  }

  /** findById finds the mapped row of any FILMS row whose rating joins. */
  lemma FindsRow(st: FilmDbStorage, i: int)
    requires st.Valid() && 0 <= i < |st.films| && st.films[i].ratingId in st.ratings
    ensures st.FindById(st.films[i].id) == Some(MapToFilm(st.films[i], st.ratings))
  {
    assert st.AllRows()[i] in st.AllRows();
  }

  /** The date the year query sorts on is the release date of the film findById returns. */
  lemma FoundFilmDate(st: FilmDbStorage, id: int)
    requires st.Valid()
    ensures st.FindById(id).Some? ==> ReleaseDateIn(st.films, id) == Some(st.FindById(id).value.releaseDate)
  {
    if st.FindById(id).Some? {
      var f := st.FindById(id).value;
      assert f in st.AllRows();
      var i :| 0 <= i < |st.AllRows()| && st.AllRows()[i] == f;
      assert st.films[i].id == id;
      ReleaseDateFirst(st.films, i);
    }
  }

  /** The films findById finds for the ids of a director's "year" listing, looked up in
      order, are in release-date order. */
  lemma FilmsByYearInDateOrder(st: FilmDbStorage, directorId: int, r: seq<Option<Film>>)
    requires st.Valid()
    requires |r| == |st.FilmIdsByYear(directorId)|
    requires forall k :: 0 <= k < |r| ==> r[k] == st.FindById(st.FilmIdsByYear(directorId)[k])
    ensures forall i, j :: 0 <= i < j < |r| && r[i].Some? && r[j].Some? ==>
              !Before(r[j].value.releaseDate, r[i].value.releaseDate)
  {
    var ids := st.FilmIdsByYear(directorId);
    forall k | 0 <= k < |ids| {
      FoundFilmDate(st, ids[k]);
    }
  }

  /** Every film either search returns is a row of FILMS. */
  lemma SearchResultsAreRows(st: FilmDbStorage, query: string, directorFirst: bool)
    requires st.Valid()
    ensures forall f :: f in st.SearchByBoth(query, directorFirst) ==> f in st.AllRows()
  {
    var r := st.SearchByBoth(query, directorFirst);
    forall f | f in r ensures f in st.AllRows() {
      assert multiset(r)[f] > 0;
      if f !in st.SearchByTitle(query) {
        assert multiset(st.SearchByDirector(query))[f] > 0;
      }
    }
  }

  /** "director,title" and "title,director" give the same list: the union is sorted by
      FILM_ID and equal ids mean equal rows. */
  lemma {:induction false} SearchOrderIrrelevant(st: FilmDbStorage, query: string)
    requires st.Valid()
    ensures st.SearchByBoth(query, true) == st.SearchByBoth(query, false)
  {
    var a, b := st.SearchByBoth(query, true), st.SearchByBoth(query, false);
    SearchResultsAreRows(st, query, true);
    AscendingKeyIdentifies(st.AllRows(), FilmId);
    assert KeyIdentifies(a, FilmId) by {
      forall x, y | x in a && y in a && FilmId(x) == FilmId(y) ensures x == y {
        assert x in st.AllRows() && y in st.AllRows();
      }
    }
    SortedUnique(a, b, FilmId);
  }
}
