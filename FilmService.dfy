/** FilmService: validation of films and likes, the hydration of stored films with their
    genres and likes, likes, and the popularity ranking. */
module Service {
  import opened Wrappers
  import opened Dates
  import opened Sequences
  import opened Films
  import opened Store

  /** The earliest accepted release date, 28 December 1895. */
  const MinReleaseDate := Date(1895, 12, 28)

  /** validateReleaseDate: a film released before the first public film screening is invalid. */
  function ValidateReleaseDate(date: Date): (r: Outcome<Error>)
    ensures r.Pass? <==> date.year > 1895 || (date.year == 1895 && date.month == 12 && date.day >= 28)
    ensures r.Fail? ==> r.error == InvalidFilm(ReleaseDateTooEarly)
  {
    if Before(date, MinReleaseDate) then Fail(InvalidFilm(ReleaseDateTooEarly)) else Pass
  }

  /** validateMpa: the rating must be present. */
  function ValidateMpa(mpa: Option<Rating>): (r: Outcome<Error>)
    ensures r.Pass? <==> mpa.Some?
    ensures r.Fail? ==> r.error == InvalidFilm(MpaMissing)
  {
    if mpa.None? then Fail(InvalidFilm(MpaMissing)) else Pass
  }

  /** validationBeforeCreate: the release date is checked first, then the rating. */
  function ValidationBeforeCreate(film: Film): (r: Outcome<Error>)
    ensures r.Pass? <==> !Before(film.releaseDate, MinReleaseDate) && film.mpa.Some?
    ensures r.Fail? ==> r.error.InvalidFilm?
    ensures Before(film.releaseDate, MinReleaseDate) ==> r == Fail(InvalidFilm(ReleaseDateTooEarly))
  {
    var date := ValidateReleaseDate(film.releaseDate);
    if date.Fail? then date else ValidateMpa(film.mpa)
  }

  /** validationBeforeUpdate: the inherited check (its outcome is given) runs first, then the
      same checks as on creation. */
  function ValidationBeforeUpdate(film: Film, inherited: Outcome<Error>): (r: Outcome<Error>)
    ensures r.Pass? <==> inherited.Pass? && ValidationBeforeCreate(film).Pass?
    ensures inherited.Fail? ==> r == inherited
  {
    if inherited.Fail? then inherited else ValidationBeforeCreate(film)
  }

  /** validateLike: the film is looked for first, then the user. */
  function ValidateLike(film: Option<Film>, user: Option<int>): (r: Outcome<Error>)
    ensures r.Pass? <==> film.Some? && user.Some?
    ensures film.None? ==> r == Fail(NotFound(FilmMissing))
    ensures film.Some? && user.None? ==> r == Fail(NotFound(UserMissing))
  {
    if film.None? then Fail(NotFound(FilmMissing))
    else if user.None? then Fail(NotFound(UserMissing))
    else Pass
  }

  /** loadData on a stored film: genres set from FILMS_GENRES, likes added from FILMS_LIKES;
      every other field is kept. */
  function Hydrate(film: Film, genres: set<(int, int)>, likes: set<(int, int)>): (r: Film)
    ensures r.id == film.id && r.mpa == film.mpa && r.releaseDate == film.releaseDate
    ensures r.name == film.name && r.description == film.description && r.duration == film.duration
    ensures r.directors == film.directors
    ensures r.genres == Some(RowsFor(genres, film.id))
    ensures forall u :: u in r.likes <==> u in film.likes || (film.id, u) in likes
    ensures film.likes == {} ==> (forall u :: u in r.likes <==> (film.id, u) in likes)
  {
    film.(genres := Some(RowsFor(genres, film.id)), likes := film.likes + RowsFor(likes, film.id))
  }

  /** loadData twice has the effect of loadData once. */
  lemma HydrateIdempotent(film: Film, genres: set<(int, int)>, likes: set<(int, int)>)
    ensures Hydrate(Hydrate(film, genres, likes), genres, likes) == Hydrate(film, genres, likes)
  {
  }

  /** Liking a film adds exactly one FILMS_LIKES row: rewriting the film's rows from its
      loaded like set plus the user. */
  lemma LikeAddsExactly(likes: set<(int, int)>, filmId: int, userId: int)
    ensures ReplaceRows(likes, filmId, RowsFor(likes, filmId) + {userId}) == likes + {(filmId, userId)}
  {
  }

  /** Removing a like deletes exactly that FILMS_LIKES row, and nothing when it is absent. */
  lemma UnlikeRemovesExactly(likes: set<(int, int)>, filmId: int, userId: int)
    ensures ReplaceRows(likes, filmId, RowsFor(likes, filmId) - {userId}) == likes - {(filmId, userId)}
  {
  }

  /** The first `count` films of the ranking, `count` cut down to the list length. */
  function Popular(films: seq<Film>, count: nat): (r: seq<Film>)
    ensures |r| == if count < |films| then count else |films|
    ensures NonIncreasing(r, LikeCount)
    ensures multiset(r) <= multiset(films)
  {
    var sorted := SortDesc(films, LikeCount);
    var n := if count < |sorted| then count else |sorted|;
    PrefixOfSorted(sorted, LikeCount, n);
    sorted[..n]
  }

  /** Every film left out of the top `count` has no more likes than any film in it. */
  lemma {:induction false} PopularIsTop(films: seq<Film>, count: nat)
    ensures forall f, g :: f in Popular(films, count) && g in films && g !in Popular(films, count) ==>
              LikeCount(g) <= LikeCount(f)
  {
    var sorted := SortDesc(films, LikeCount);
    var top := Popular(films, count);
    PrefixIsTop(sorted, LikeCount, |top|);
    assert forall g :: g in films ==> g in multiset(sorted);
  }

  /** Films with equal like counts keep their id order in the ranking (List.sort is stable):
      the ranked films with k likes are the first films with k likes of the input. */
  lemma {:induction false} PopularKeepsTies(films: seq<Film>, count: nat, k: int)
    ensures WithKey(Popular(films, count), LikeCount, k) <= WithKey(films, LikeCount, k)
  {
    var sorted := SortDesc(films, LikeCount);
    WithKeyPrefix(Popular(films, count), sorted, LikeCount, k);
    SortDescStable(films, LikeCount, k);
  }

  /** loadData on every film of a list. */
  function HydrateAll(films: seq<Film>, genres: set<(int, int)>, likes: set<(int, int)>): (r: seq<Film>)
    requires forall f :: f in films ==> f.likes == {}
    ensures |r| == |films|
    ensures forall i :: 0 <= i < |r| ==> r[i] == Hydrate(films[i], genres, likes)
    ensures forall i :: 0 <= i < |r| ==> r[i].likes == RowsFor(likes, r[i].id)
    ensures forall i :: 0 <= i < |r| ==> LikeCount(r[i]) == |RowsFor(likes, r[i].id)|
    ensures Ascending(films, FilmId) ==> Ascending(r, FilmId)
  {
    var r := seq(|films|, i requires 0 <= i < |films| => Hydrate(films[i], genres, likes));
    assert forall i :: 0 <= i < |r| ==> films[i] in films && r[i].likes == RowsFor(likes, r[i].id);
    assert forall i :: 0 <= i < |r| ==> FilmId(r[i]) == FilmId(films[i]);
    r
  }

  class FilmService {
    const storage: FilmDbStorage
    /** The ids userService.findById finds. */
    const users: set<int>

    ghost predicate Valid()
      reads this, storage
    {
      storage.Valid()
    }

    constructor (storage: FilmDbStorage, users: set<int>)
      requires storage.Valid()
      ensures Valid()
      ensures this.storage == storage && this.users == users
    {
      this.storage := storage;
      this.users := users;
    }

    /** The films of storage.findAll, each hydrated by loadData. */
    function HydratedAll(): (r: seq<Film>)
      reads this, storage
      requires Valid()
      ensures Ascending(r, FilmId)
      ensures |r| == |storage.FindAll()|
      ensures forall f :: f in r ==> storage.FindById(f.id) == Some(f.(genres := None, likes := {}))
      ensures forall f :: f in r ==>
                f.genres == Some(RowsFor(storage.genres, f.id)) && f.likes == RowsFor(storage.likes, f.id)
    {
      var all := storage.FindAll();
      var r := HydrateAll(all, storage.genres, storage.likes);
      forall f | f in r
        ensures storage.FindById(f.id) == Some(f.(genres := None, likes := {}))
        ensures f.genres == Some(RowsFor(storage.genres, f.id)) && f.likes == RowsFor(storage.likes, f.id)
      {
        var i :| 0 <= i < |r| && r[i] == f;
        assert all[i] in all;
      }
      r
    }

    /** loadData: set the genres from getGenresByFilm, then loadLikes. */
    method LoadData(film: Film) returns (r: Film)
      ensures r == Hydrate(film, storage.genres, storage.likes)
    {
      r := film.(genres := Some(RowsFor(storage.genres, film.id)));
      r := storage.LoadLikes(r);
    }

    /** findAll: storage.findAll, then loadData on every film in turn. */
    method FindAll() returns (r: seq<Film>)
      requires Valid()
      ensures r == HydratedAll()
    {
      var films := storage.FindAll();
      r := [];
      for i := 0 to |films|
        invariant |r| == i
        invariant forall k :: 0 <= k < i ==> r[k] == Hydrate(films[k], storage.genres, storage.likes)
      {
        var film := LoadData(films[i]);
        r := r + [film];
      }
    }

    /** findById: the stored film hydrated by loadData; a missing film is NotFound. */
    method FindById(id: int) returns (r: Result<Film, Error>)
      requires Valid()
      ensures r.Err? <==> storage.FindById(id).None?
      ensures r.Err? ==> r.error == NotFound(FilmMissing)
      ensures r.Ok? ==> r.value.id == id && r.value.likes == RowsFor(storage.likes, id)
      ensures r.Ok? ==> r.value == Hydrate(storage.FindById(id).value, storage.genres, storage.likes)
    {
      var film := storage.FindById(id);
      if film.None? {
        return Err(NotFound(FilmMissing));
      }
      assert film.value in storage.FindAll();
      var loaded := LoadData(film.value);
      r := Ok(loaded);
    }

    /** create: validate, insert the FILMS row, then the genre rows. */
    method Create(film: Film) returns (r: Result<Film, Error>)
      requires Valid()
      modifies storage`films, storage`nextId, storage`genres
      ensures Valid()
      ensures r.Err? <==> ValidationBeforeCreate(film).Fail?
      ensures r.Err? ==> r.error == ValidationBeforeCreate(film).error && unchanged(storage)
      ensures r.Ok? ==> r.value == film.(id := old(storage.nextId)) &&
                        storage.films == old(storage.films) + [ToRow(r.value)] &&
                        storage.genres == old(storage.genres) + RowsOf(r.value.id, OrEmpty(film.genres))
    {
      var valid := ValidationBeforeCreate(film);
      if valid.Fail? {
        return Err(valid.error);
      }
      var created := storage.Create(film);
      storage.CreateGenresByFilm(created);
      r := Ok(created);
    }

    /** update: validate (the inherited check's outcome is given), update the FILMS row,
        then replace the genre rows. */
    method Update(film: Film, inherited: Outcome<Error>) returns (r: Result<Film, Error>)
      requires Valid()
      modifies storage`films, storage`genres
      ensures Valid()
      ensures r.Err? <==> ValidationBeforeUpdate(film, inherited).Fail?
      ensures r.Err? ==> r.error == ValidationBeforeUpdate(film, inherited).error && unchanged(storage)
      ensures r.Ok? ==> r == Ok(film) &&
                        |storage.films| == |old(storage.films)| &&
                        (forall i :: 0 <= i < |storage.films| ==>
                          storage.films[i] == if old(storage.films)[i].id == film.id then ToRow(film) else old(storage.films)[i]) &&
                        storage.genres == ReplaceRows(old(storage.genres), film.id, OrEmpty(film.genres))
    {
      var valid := ValidationBeforeUpdate(film, inherited);
      if valid.Fail? {
        return Err(valid.error);
      }
      var updated := storage.Update(film);
      storage.UpdateGenresByFilm(updated);
      r := Ok(updated);
    }

    /** delete: storage.delete. */
    method Delete(id: int)
      requires Valid()
      modifies storage`films
      ensures Valid()
      ensures forall row :: row in storage.films <==> row in old(storage.films) && row.id != id
      ensures storage.FindById(id).None?
    {
      storage.Delete(id);
    }

    /** addLike: load the film, look the user up, validate, add the like and save the
        film's likes. */
    method AddLike(id: int, userId: int) returns (r: Outcome<Error>)
      requires Valid()
      modifies storage`likes
      ensures Valid()
      ensures r == ValidateLike(old(storage.FindById(id)), if userId in users then Some(userId) else None)
      ensures r.Pass? ==> storage.likes == old(storage.likes) + {(id, userId)}
      ensures r.Fail? ==> storage.likes == old(storage.likes)
    {
      var film;
      r, film := LoadForLike(id, userId);
      if r.Fail? {
        return;
      }
      var liked := film.value.(likes := film.value.likes + {userId});
      LikeAddsExactly(storage.likes, id, userId);
      storage.SaveLikes(liked);
    }

    /** removeLike: load the film, look the user up, validate, remove the like and save the
        film's likes. */
    method RemoveLike(id: int, userId: int) returns (r: Outcome<Error>)
      requires Valid()
      modifies storage`likes
      ensures Valid()
      ensures r == ValidateLike(old(storage.FindById(id)), if userId in users then Some(userId) else None)
      ensures r.Pass? ==> storage.likes == old(storage.likes) - {(id, userId)}
      ensures r.Fail? ==> storage.likes == old(storage.likes)
    {
      var film;
      r, film := LoadForLike(id, userId);
      if r.Fail? {
        return;
      }
      var unliked := film.value.(likes := film.value.likes - {userId});
      UnlikeRemovesExactly(storage.likes, id, userId);
      storage.SaveLikes(unliked);
    }

    /** The common first half of addLike and removeLike: load the film with its likes, look
        the user up and validate both; nothing is written. */
    method LoadForLike(id: int, userId: int) returns (r: Outcome<Error>, film: Option<Film>)
      requires Valid()
      ensures r == ValidateLike(storage.FindById(id), if userId in users then Some(userId) else None)
      ensures r.Pass? ==> film.Some? && film.value.id == id && film.value.likes == RowsFor(storage.likes, id)
    {
      var found := FindById(id);
      var user := if userId in users then Some(userId) else None;
      film := if found.Ok? then Some(found.value) else None;
      r := ValidateLike(film, user);
    }

    /** findPopularMovies: all films by descending like count, then the first `count`;
        a negative count makes subList throw. */
    method FindPopularMovies(count: int) returns (r: Result<seq<Film>, Error>)
      requires Valid()
      ensures r.Err? <==> count < 0
      ensures r.Err? ==> r.error == IllegalArgument
      ensures r.Ok? ==> r.value == Popular(HydratedAll(), count)
    {
      var films := FindAll();
      films := SortDesc(films, LikeCount);
      var n := count;
      if n > |films| {
        n := |films|;
      }
      if n < 0 {
        return Err(IllegalArgument);
      }
      r := Ok(films[..n]);
    }
  }

  /** findById and findAll agree: the film findById hydrates is the one findAll lists. */
  lemma FindByIdListed(service: FilmService, id: int)
    requires service.Valid()
    ensures service.storage.FindById(id).Some? ==>
              Hydrate(service.storage.FindById(id).value, service.storage.genres, service.storage.likes)
                in service.HydratedAll()
  {
  }
}
