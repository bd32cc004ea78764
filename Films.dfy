/** The film record and the FILMS table row it is read from and written to. */
module Films {
  import opened Wrappers
  import opened Dates

  /** An MPA rating: its id, and its name as joined from RATINGS (absent after an unmatched LEFT JOIN). */
  datatype Rating = Rating(id: int, name: Option<string>)

  /** The Film object: scalar fields, the rating (null when not supplied), the genre and
      director id sets (null when not supplied) and the set of liking user ids. */
  datatype Film = Film(
    id: int,
    name: string,
    description: string,
    releaseDate: Date,
    duration: int,
    mpa: Option<Rating>,
    genres: Option<set<int>>,
    directors: Option<set<int>>,
    likes: set<int>)

  /** One row of the FILMS table. */
  datatype FilmRow = FilmRow(
    id: int,
    name: string,
    description: string,
    releaseDate: Date,
    duration: int,
    ratingId: int)

  /** Why a film was rejected (InvalidFilmException). */
  datatype Invalid = ReleaseDateTooEarly | MpaMissing

  /** Which entity was missing (NotFoundException). */
  datatype Missing = FilmMissing | UserMissing

  /** The exceptions of the film core; IllegalArgument is what `subList(0, count)` throws
      for a negative count, NullPointer what a `switch` on a null string throws. */
  datatype Error =
    | InvalidFilm(reason: Invalid)
    | NotFound(missing: Missing)
    | IllegalArgument
    | NullPointer

  function FilmId(f: Film): int { f.id }

  function RowId(row: FilmRow): int { row.id }

  /** Film.getLikesCount: the number of distinct liking users. */
  function LikeCount(f: Film): (r: int)
    ensures r >= 0
    ensures r == 0 <==> f.likes == {}
  {
    |f.likes|
  }

  /** mapToFilm: the film built from a FILMS row and the RATINGS name table;
      the like set starts empty and the genre and director sets unset. */
  function MapToFilm(row: FilmRow, ratings: map<int, string>): (r: Film)
    ensures r.mpa.Some? && ToRow(r) == row
    ensures Rated(r) <==> row.ratingId in ratings
    ensures r.likes == {} && r.genres.None? && r.directors.None?
  {
    Film(row.id, row.name, row.description, row.releaseDate, row.duration,
         Some(Rating(row.ratingId, if row.ratingId in ratings then Some(ratings[row.ratingId]) else None)),
         None, None, {})
  }

  /** The INSERT/UPDATE values of a film (film.getMpa().getId() is dereferenced). */
  function ToRow(f: Film): FilmRow
    requires f.mpa.Some?
  {
    FilmRow(f.id, f.name, f.description, f.releaseDate, f.duration, f.mpa.value.id)
  }

  /** Writing a film and reading its row back keeps every scalar column and the rating id;
      the rating name comes from RATINGS, and the genre, director and like sets are not
      part of the row. */
  lemma RowRoundTrip(f: Film, ratings: map<int, string>)
    requires f.mpa.Some?
    ensures MapToFilm(ToRow(f), ratings).mpa.value.id == f.mpa.value.id
    ensures MapToFilm(ToRow(f), ratings).(mpa := f.mpa) == f.(genres := None, directors := None, likes := {})
  {
  }

  /** The film matched its RATINGS row (it survives `JOIN RATINGS`). */
  predicate Rated(f: Film) {
    f.mpa.Some? && f.mpa.value.name.Some?
  }
}
