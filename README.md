# Filmorate film core in Dafny

A Dafny model of the film half of filmorate, a Spring service that keeps films,
their MPA ratings, genres, directors and user likes in an SQL database. Two
classes carry the model:

- `Store.FilmDbStorage` holds the tables as in-memory state:
  - FILMS is a sequence of rows kept in id order;
  - RATINGS and DIRECTORS are name maps;
  - FILMS_LIKES, FILMS_GENRES and FILMS_DIRECTORS are sets of (film id, other id) pairs;
  - a counter stands in for the generated FILM_ID.

  Each SQL query is a function over that state. Each statement that writes is a method that reassigns the table it touches.
- `Service.FilmService` holds the service rules. These are the release-date and rating checks, like and unlike as a read-modify-write of a film's like set, hydration of stored films with their genres and likes, and the popularity ranking.

Supporting modules:
- `Sequences` holds the WHERE filter, the stable descending sort behind `ORDER BY ... DESC` and `List.sort`, the ascending listing of a set, and the row repetition that a one-to-many join produces.
- `Text` gives `ILIKE '%q%'` as case-folded substring containment.
- `Dates` gives `LocalDate` as a (year, month, day) triple.
- `Films` holds the film record, the FILMS row and the error kinds.

A Film is a value here. The Java methods that change a film in place (`create` sets
its id, `loadLikes` adds to its like set, `addLike` and `removeLike` edit it before
saving) return the changed film instead.

Where the code and the usual description of the system disagree, the model follows
the code:
- the service's `create` and `update` write genre rows but never director rows;
- `delete` removes only the FILMS row;
- `findById` and `findAll` drop films whose rating id has no RATINGS row (inner join), while `searchBy` keeps them (outer join).

## Model

| member | source | states |
|---|---|---|
| Service.ValidateReleaseDate | src/main/java/ru/yandex/practicum/filmorate/service/FilmService.java:124-129 | A date passes exactly when it is 28 December 1895 or later; otherwise the outcome is InvalidFilm(ReleaseDateTooEarly) |
| Service.ValidateMpa | src/main/java/ru/yandex/practicum/filmorate/service/FilmService.java:131-136 | Passes exactly when a rating is present; otherwise InvalidFilm(MpaMissing) |
| Service.ValidationBeforeCreate | src/main/java/ru/yandex/practicum/filmorate/service/FilmService.java:110-114 | Passes iff the date is not before the floor and the rating is present; an early date is reported ahead of a missing rating; every failure is InvalidFilm |
| Service.ValidationBeforeUpdate | src/main/java/ru/yandex/practicum/filmorate/service/FilmService.java:116-122 | Passes iff the inherited check passes and the creation checks pass; an inherited failure is the result unchanged |
| Service.ValidateLike | src/main/java/ru/yandex/practicum/filmorate/service/FilmService.java:138-149 | Passes iff film and user are both found; a missing film is NotFound(FilmMissing) even when the user is also missing; otherwise a missing user is NotFound(UserMissing) |
| Service.Hydrate | src/main/java/ru/yandex/practicum/filmorate/service/FilmService.java:104-107 | loadData keeps the id, name, description, date, duration, rating and directors, sets the genres to the film's FILMS_GENRES ids, and adds the film's FILMS_LIKES users to the likes it already has |
| Service.HydrateIdempotent | src/main/java/ru/yandex/practicum/filmorate/service/FilmService.java:104-107 | Calling loadData twice has the same effect as calling it once |
| Service.LikeAddsExactly | src/main/java/ru/yandex/practicum/filmorate/service/FilmService.java:151-157 | Saving the loaded like set plus u rewrites FILMS_LIKES to the old table plus the single row (id, u); a second like therefore adds nothing |
| Service.UnlikeRemovesExactly | src/main/java/ru/yandex/practicum/filmorate/service/FilmService.java:159-165 | Saving the loaded like set minus u rewrites FILMS_LIKES to the old table minus (id, u), so removing an absent like changes nothing |
| Service.Popular | src/main/java/ru/yandex/practicum/filmorate/service/FilmService.java:167-175 | The ranking has min(count, number of films) films, non-increasing like counts, and only films of the input |
| Service.PopularIsTop | src/main/java/ru/yandex/practicum/filmorate/service/FilmService.java:168-174 | No film left out of the ranking has more likes than a film in it |
| Service.PopularKeepsTies | src/main/java/ru/yandex/practicum/filmorate/service/FilmService.java:168-169 | Films with equal like counts keep their input (id) order: the ranked films with k likes are a prefix of the input's films with k likes |
| Service.HydrateAll | src/main/java/ru/yandex/practicum/filmorate/service/FilmService.java:85-90 | forEach(loadData) hydrates every film in place, keeps the length and the ascending id order, and makes each like count the number of the film's like rows |
| Service.FilmService.HydratedAll | src/main/java/ru/yandex/practicum/filmorate/service/FilmService.java:85-90 | The hydrated listing is in ascending id order and as long as storage.findAll; each entry is the stored film of that id, with genres exactly its FILMS_GENRES ids and likes exactly its FILMS_LIKES users |
| Service.FilmService.LoadData | src/main/java/ru/yandex/practicum/filmorate/service/FilmService.java:104-107 | Setting the genres and then calling loadLikes yields the hydrated film |
| Service.FilmService.FindAll | src/main/java/ru/yandex/practicum/filmorate/service/FilmService.java:85-90 | The loop over storage.findAll returns the hydrated listing |
| Service.FilmService.FindById | src/main/java/ru/yandex/practicum/filmorate/service/FilmService.java:92-97 | A film missing from storage gives NotFound(FilmMissing); otherwise the result is the stored film with that id, hydrated |
| Service.FindByIdListed | src/main/java/ru/yandex/practicum/filmorate/service/FilmService.java:85-97 | The film findById hydrates is an entry of findAll's hydrated listing |
| Service.FilmService.Create | src/main/java/ru/yandex/practicum/filmorate/service/FilmService.java:42-48 | An invalid film is rejected with the validation error and storage is untouched; a valid one gets the next generated id, is appended to FILMS, and its genre rows are inserted |
| Service.FilmService.Update | src/main/java/ru/yandex/practicum/filmorate/service/FilmService.java:77-83 | A failing validation leaves storage untouched; otherwise the row with that id is overwritten and the film's genre rows become exactly its genre set |
| Service.FilmService.Delete | src/main/java/ru/yandex/practicum/filmorate/service/FilmService.java:99-102 | The FILMS rows left are the old ones without that id, and findById of the id finds nothing |
| Service.FilmService.AddLike | src/main/java/ru/yandex/practicum/filmorate/service/FilmService.java:151-157 | The outcome is validateLike of the lookups; on success FILMS_LIKES gains exactly (id, u); on failure it is unchanged (saveLikes not reached) |
| Service.FilmService.LoadForLike | src/main/java/ru/yandex/practicum/filmorate/service/FilmService.java:151-154 | The first half of addLike and removeLike changes nothing: its outcome is validateLike of the stored film and the user lookup, and on success the loaded film has that id and exactly its FILMS_LIKES users |
| Service.FilmService.RemoveLike | src/main/java/ru/yandex/practicum/filmorate/service/FilmService.java:159-165 | The outcome is validateLike of the lookups; on success FILMS_LIKES loses exactly (id, u); on failure it is unchanged |
| Service.FilmService.FindPopularMovies | src/main/java/ru/yandex/practicum/filmorate/service/FilmService.java:167-175 | A negative count fails with IllegalArgument; any other count returns the ranking of the hydrated films cut to count |
| Store.RowsFor | src/main/java/ru/yandex/practicum/filmorate/storage/db_impl/FilmDbStorage.java:135-141 | The ids selected for a film are exactly those paired with it in the join table |
| Store.RowsOf | src/main/java/ru/yandex/practicum/filmorate/storage/db_impl/FilmDbStorage.java:128-131 | The rows inserted for a set of ids pair the film with exactly those ids |
| Store.DeleteRows | src/main/java/ru/yandex/practicum/filmorate/storage/db_impl/FilmDbStorage.java:125 | Deleting a film's rows keeps exactly the rows of other films |
| Store.ReplaceRows | src/main/java/ru/yandex/practicum/filmorate/storage/db_impl/FilmDbStorage.java:124-132 | After delete-then-insert the film is paired with exactly the given ids and every other film keeps its rows |
| Store.InsertRows | src/main/java/ru/yandex/practicum/filmorate/storage/db_impl/FilmDbStorage.java:128-131 | The insertion loop adds exactly one row per id to the table |
| Store.Lookup | src/main/java/ru/yandex/practicum/filmorate/storage/db_impl/FilmDbStorage.java:37-42 | The first result row, if any, has the id; no row means no film with the id |
| Store.LookupEach | src/main/java/ru/yandex/practicum/filmorate/storage/db_impl/FilmDbStorage.java:203-205 | One result per id, in the order of the ids: the lookup of that id |
| Store.LookupUnique | src/main/java/ru/yandex/practicum/filmorate/storage/db_impl/FilmDbStorage.java:33-43 | In an id-ordered listing the film found is the only film with that id |
| Store.ByReleaseDate | src/main/java/ru/yandex/practicum/filmorate/storage/db_impl/FilmDbStorage.java:187-191 | Ordering by release date is a permutation of the director's film ids |
| Store.ByReleaseDateOrder | src/main/java/ru/yandex/practicum/filmorate/storage/db_impl/FilmDbStorage.java:187-191 | Ids with a NULL date (no FILMS row) come first; dated ids never go back in time |
| Store.SplitByDate | src/main/java/ru/yandex/practicum/filmorate/storage/db_impl/FilmDbStorage.java:189 | Filtering splits ids into those with no FILMS row and those with one |
| Store.SortedByDate | src/main/java/ru/yandex/practicum/filmorate/storage/db_impl/FilmDbStorage.java:191 | Sorting dated ids by the negated day number keeps them dated and puts them in date order |
| Store.ConcatByDate | src/main/java/ru/yandex/practicum/filmorate/storage/db_impl/FilmDbStorage.java:191 | NULL-dated ids followed by date-ordered ids satisfy both ordering properties |
| Store.FilmDbStorage.AllRows | src/main/java/ru/yandex/practicum/filmorate/storage/db_impl/FilmDbStorage.java:45-54 | Every FILMS row is mapped with its rating name from RATINGS, and the result is in ascending id order |
| Store.FilmDbStorage.FindAll | src/main/java/ru/yandex/practicum/filmorate/storage/db_impl/FilmDbStorage.java:57-62 | Exactly the films whose rating joins, in ascending id order, each with no likes and no genres loaded |
| Store.FilmDbStorage.FindEach | src/main/java/ru/yandex/practicum/filmorate/storage/db_impl/FilmDbStorage.java:203-205 | The loop adding findById(id) for each id: one entry per id, the i-th being findById of the i-th id |
| Store.FilmDbStorage.FindById | src/main/java/ru/yandex/practicum/filmorate/storage/db_impl/FilmDbStorage.java:33-43 | null iff no joined film has the id; otherwise exactly the film with that id |
| Store.FindsRow | src/main/java/ru/yandex/practicum/filmorate/storage/db_impl/FilmDbStorage.java:33-43 | findById finds, for every FILMS row whose rating joins, exactly that row mapped to a film |
| Store.FilmDbStorage.FindAllByYear | src/main/java/ru/yandex/practicum/filmorate/storage/db_impl/FilmDbStorage.java:64-70 | Exactly the listed films released in that year, in ascending id order |
| Store.FilmDbStorage.FindAllByGenre | src/main/java/ru/yandex/practicum/filmorate/storage/db_impl/FilmDbStorage.java:72-78 | Exactly the listed films with a FILMS_GENRES row for the genre, in ascending id order |
| Store.FilmDbStorage.FindAllByGenreAndYear | src/main/java/ru/yandex/practicum/filmorate/storage/db_impl/FilmDbStorage.java:80-87 | Exactly the films in both the genre listing and the year listing, in ascending id order |
| Store.FilmDbStorage.Create | src/main/java/ru/yandex/practicum/filmorate/storage/db_impl/FilmDbStorage.java:90-104 | The film gets a fresh id above every stored id and its row is appended; findById then finds the mapped row when the rating exists |
| Store.FilmDbStorage.Update | src/main/java/ru/yandex/practicum/filmorate/storage/db_impl/FilmDbStorage.java:107-115 | The row with that id is overwritten and all others kept; with no such row nothing changes; findById then finds the new values |
| Store.ReplaceRow | src/main/java/ru/yandex/practicum/filmorate/storage/db_impl/FilmDbStorage.java:107-112 | The UPDATE rewrites exactly the rows with the film's id, keeps the row count, every row's id and the ascending id order, and changes nothing when no row has the id |
| Store.FilmDbStorage.Delete | src/main/java/ru/yandex/practicum/filmorate/storage/db_impl/FilmDbStorage.java:118-121 | The FILMS rows left are the old ones without that id, and findById of the id finds nothing |
| Store.FilmDbStorage.SaveLikes | src/main/java/ru/yandex/practicum/filmorate/storage/db_impl/FilmDbStorage.java:124-132 | FILMS_LIKES becomes the full replace of the film's rows by its like set |
| Store.FilmDbStorage.LoadLikes | src/main/java/ru/yandex/practicum/filmorate/storage/db_impl/FilmDbStorage.java:135-141 | The loop adds the stored users to the film's likes without clearing them: the result is the union of the film's likes and the stored ones |
| Store.FilmDbStorage.CreateGenresByFilm | src/main/java/ru/yandex/practicum/filmorate/storage/db_impl/FilmDbStorage.java:145-154 | One genre row is added per genre of the film; a null genre set adds nothing |
| Store.FilmDbStorage.UpdateGenresByFilm | src/main/java/ru/yandex/practicum/filmorate/storage/db_impl/FilmDbStorage.java:157-161 | The film's genre rows become its genre set, or none when it is null |
| Store.FilmDbStorage.CreateDirectorsByFilm | src/main/java/ru/yandex/practicum/filmorate/storage/db_impl/FilmDbStorage.java:217-226 | One director row is added per director of the film; a null director set adds nothing |
| Store.FilmDbStorage.UpdateDirectorsByFilm | src/main/java/ru/yandex/practicum/filmorate/storage/db_impl/FilmDbStorage.java:179-183 | The film's director rows become its director set, or none when it is null |
| Store.FilmDbStorage.CommonMovies | src/main/java/ru/yandex/practicum/filmorate/storage/db_impl/FilmDbStorage.java:164-176 | Exactly the listed films liked by both of two different users, in ascending id order; empty when the two ids are equal |
| Store.CommonMoviesSymmetric | src/main/java/ru/yandex/practicum/filmorate/storage/db_impl/FilmDbStorage.java:164-176 | Swapping the two users gives the same list |
| Store.FilmDbStorage.DirectorFilmIds | src/main/java/ru/yandex/practicum/filmorate/storage/db_impl/FilmDbStorage.java:187-190 | The films FILMS_DIRECTORS pairs with the director |
| Store.FilmDbStorage.FilmIdsByYear | src/main/java/ru/yandex/practicum/filmorate/storage/db_impl/FilmDbStorage.java:187-191 | Each film of the director occurs once; NULL-dated ids come first, then the dated ids in ascending release-date order |
| Store.FilmDbStorage.FilmIdsByLikes | src/main/java/ru/yandex/practicum/filmorate/storage/db_impl/FilmDbStorage.java:193-198 | Each film of the director occurs once, ordered by non-increasing number of like rows |
| Store.FilmDbStorage.FindFilmsByDirector | src/main/java/ru/yandex/practicum/filmorate/storage/db_impl/FilmDbStorage.java:186-214 | With "year" the result is findById of each id of the year order, and the films it finds are in release-date order; with any other value, findById of each id of the likes order; one entry per id |
| Store.FoundFilmDate | src/main/java/ru/yandex/practicum/filmorate/storage/db_impl/FilmDbStorage.java:187-191 | The release date the year query sorts an id by is the release date of the film findById returns for it |
| Store.FilmsByYearInDateOrder | src/main/java/ru/yandex/practicum/filmorate/storage/db_impl/FilmDbStorage.java:186-206 | Among the films findById finds for the year listing, no later entry has an earlier release date |
| Store.FilmDbStorage.SearchByTitle | src/main/java/ru/yandex/practicum/filmorate/storage/db_impl/FilmDbStorage.java:229-233 | Exactly the mapped FILMS rows whose name contains the query ignoring case, each once |
| Store.FilmDbStorage.SearchByDirector | src/main/java/ru/yandex/practicum/filmorate/storage/db_impl/FilmDbStorage.java:235-241 | Each film appears once per director row of it whose name contains the query, and no other film appears |
| Store.FilmDbStorage.SearchByBoth | src/main/java/ru/yandex/practicum/filmorate/storage/db_impl/FilmDbStorage.java:242-243 | The UNION ALL keeps every row of both searches without deduplication and is sorted by id descending |
| Store.SearchResultsAreRows | src/main/java/ru/yandex/practicum/filmorate/storage/db_impl/FilmDbStorage.java:229-243 | Every film of a combined search is a mapped FILMS row |
| Store.SearchOrderIrrelevant | src/main/java/ru/yandex/practicum/filmorate/storage/db_impl/FilmDbStorage.java:242-243 | "director,title" and "title,director" return the same list |
| Store.FilmDbStorage.SearchBy | src/main/java/ru/yandex/practicum/filmorate/storage/db_impl/FilmDbStorage.java:245-261 | A null field list throws (NullPointer); each of the four field lists selects its query, a null query searching like the empty one; any other value gives null |
| Store.NullTitleQueryListsAll | src/main/java/ru/yandex/practicum/filmorate/storage/db_impl/FilmDbStorage.java:229-234 | With a null query the title search lists every FILMS row, since the pattern is then `%%` |
| Films.MapToFilm | src/main/java/ru/yandex/practicum/filmorate/storage/db_impl/FilmDbStorage.java:45-54 | The mapped film carries the row's values back (ToRow inverts it); its rating name is known iff RATINGS has the id; likes, genres and directors are unset |
| Films.LikeCount | src/main/java/ru/yandex/practicum/filmorate/service/FilmService.java:169 | The like count is never negative and is zero exactly when no user likes the film |
| Films.RowRoundTrip | src/main/java/ru/yandex/practicum/filmorate/storage/db_impl/FilmDbStorage.java:95-100 | The written row (also the UPDATE values of lines 108-112) keeps every scalar column and the rating id; reading it back drops the genre, director and like sets |
| Text.EmptyQueryMatchesAll | src/main/java/ru/yandex/practicum/filmorate/storage/db_impl/FilmDbStorage.java:234 | `ILIKE '%%'` matches every name |
| Text.ILike | src/main/java/ru/yandex/practicum/filmorate/storage/db_impl/FilmDbStorage.java:234 | A case-insensitive match is never longer than the name, and an exact occurrence of the query always matches |
| Text.ILikeIgnoresValueCase | src/main/java/ru/yandex/practicum/filmorate/storage/db_impl/FilmDbStorage.java:234 | Changing the case of the value does not change whether it matches |
| Text.ILikeIgnoresQueryCase | src/main/java/ru/yandex/practicum/filmorate/storage/db_impl/FilmDbStorage.java:234 | Folding the query does not change whether a name matches: ILIKE ignores the case of the pattern too |
| Dates.OrdinalOrder | src/main/java/ru/yandex/practicum/filmorate/service/FilmService.java:125 | The day number orders dates exactly as isBefore does |
| Dates.Before | src/main/java/ru/yandex/practicum/filmorate/service/FilmService.java:125 | isBefore is irreflexive, holds whenever the year is earlier, and never holds for a later year |

## Left out

- HTTP routing (FilmController) is not modelled. It holds no film logic, and the service methods it calls beyond these are not part of this model.
- `getByDirector` and its private `mapToFilm` in FilmService (lines 50-75) are not modelled. They are a superseded variant that maps rows holding only `film_id` through a full-film mapper.
- AbstractService is not part of this model.
  - `super.create` is modelled as validation followed by `storage.create`.
  - The outcome of `super.validationBeforeUpdate` is a parameter.
  - `super.findById` reporting a missing film is modelled as NotFound(FilmMissing). In the code as shown, `loadData` would dereference null first.
  - Either way `saveLikes` is not reached.
- The user lookup (`userService.findById`) is modelled as membership in a set of known user ids. `genreStorage.getGenresByFilm` is modelled as the film's FILMS_GENRES ids. Genre and director objects are reduced to their ids.
- JDBC, Spring wiring and logging are replaced by in-memory tables and a generated-id counter. The exception messages are not modelled.
- Join tables are sets, so inserting the same pair twice gives one row. The schema's keys are not part of this model.
- `delete` removes only the FILMS row. Any cascading delete defined in the schema is not part of this model.
- Concurrency is not modelled. Two simultaneous full-replace like writes can lose one of the likes; the model runs every operation alone.
- Film objects are values, so aliasing between the caller's Film and the stored one is not modelled. The in-place `List.sort` is modelled as a stable sort that returns a new sequence.
- `ILIKE` is modelled as substring containment after ASCII case folding. `%` and `_` inside the query are taken literally rather than as wildcards, and non-ASCII case folding and collation are not modelled.
- A film's name and release date are never null here. In the code a null release date makes validateReleaseDate throw NullPointerException rather than InvalidFilmException, mapToFilm throws the same on a NULL RELEASE_DATE column, and a NULL FILMS.NAME never matches ILIKE; the Film class that would say whether these can be null is not part of this model.
- Dates are (year, month, day) triples with day at most 31. Calendar validity (for example 30 February) is not checked.
- The year order of findFilmsByDirector puts ids with a NULL release date first. This is H2's default for NULL in an ascending ORDER BY; the query has no NULLS FIRST, and another database may sort NULL last.
- Rows with equal sort keys are ordered stably over the id-ascending table order. SQL leaves the order of ties unspecified, so the contracts state only the order the queries promise.
- Where the title-only and director-only searches have no ORDER BY, the contracts state which rows appear and how often, not their order.
- Integer widths (Java `long` ids, `int` counts) are unbounded here. Id overflow is not modelled.
