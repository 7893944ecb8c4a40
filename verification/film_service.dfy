/**
  FilmService: film validation, adding and updating films through the film
  storage, likes with existence checks, and the popular-films list with
  genres loaded. getAllFilms and getFilmById forward to FilmDbStorage.
 */
module FilmService {
  import opened Domain
  import opened Database
  import FilmDbStorage
  import FilmLikesRepository
  import GenreRepository
  import UserService

  /** The earliest accepted release date, 28 December 1895. */
  const MinReleaseDate := Date(1895, 12, 28)

  /** validateFilm: the release date must be present and not before MinReleaseDate. */
  function ValidateFilm(film: Film): (r: Outcome)
    ensures film.releaseDate.None? ==> r == Fail(Validation(NoReleaseDate))
    ensures film.releaseDate.Some? ==> (r.Pass? <==> !IsBefore(film.releaseDate.value, MinReleaseDate))
    ensures film.releaseDate.Some? && r.Fail? ==> r.error == Validation(ReleaseTooEarly)
  {
    if film.releaseDate.None? then Fail(Validation(NoReleaseDate))
    else if IsBefore(film.releaseDate.value, MinReleaseDate) then Fail(Validation(ReleaseTooEarly))
    else Pass
  }

  /** The boundary: 28 December 1895 itself is accepted, the day before is not. */
  lemma ReleaseDateBoundary(film: Film)
    ensures ValidateFilm(film.(releaseDate := Some(Date(1895, 12, 28)))) == Pass
    ensures ValidateFilm(film.(releaseDate := Some(Date(1895, 12, 27)))) == Fail(Validation(ReleaseTooEarly))
    ensures ValidateFilm(film.(releaseDate := Some(Date(1895, 1, 31)))) == Fail(Validation(ReleaseTooEarly))
    ensures ValidateFilm(film.(releaseDate := Some(Date(1896, 1, 1)))) == Pass
  {
  }

  /** A release date no earlier than an accepted one is accepted too. */
  lemma LaterReleaseStillValid(film: Film, later: Date)
    requires ValidateFilm(film).Pass?
    requires !IsBefore(later, film.releaseDate.value)
    ensures ValidateFilm(film.(releaseDate := Some(later))).Pass?
  {
    var d := film.releaseDate.value;
    if IsBefore(later, MinReleaseDate) {
      IsBeforeIsStrictTotalOrder(d, later, MinReleaseDate);
      IsBeforeIsStrictTotalOrder(later, d, MinReleaseDate);
    }
  }

  /**
    The checks addFilm and updateFilm make after validateFilm: the rating id
    is read from a possibly null rating and must exist, then each genre of a
    non-null set must exist.
   */
  method ValidateReferences(db: Db, film: Film) returns (r: Outcome)
    ensures film.mpa.None? ==> r == Fail(NullReference)
    ensures film.mpa.Some? && film.mpa.value !in db.mpaIds ==> r == Fail(NotFound(MpaEntity))
    ensures film.mpa.Some? && film.mpa.value in db.mpaIds ==>
              (r.Pass? <==> film.genres.None? || GenreRepository.ValidateGenresExist(db, film.genres.value))
    ensures film.mpa.Some? && film.mpa.value in db.mpaIds && r.Fail? ==> r.error == NotFound(GenreEntity)
  {
    if film.mpa.None? {
      return Fail(NullReference);
    }
    r := FilmDbStorage.MpaExists(db, film.mpa.value);
    if r.Fail? {
      return;
    }
    if film.genres.Some? {
      var rest := film.genres.value;
      while rest != {}
        invariant rest <= film.genres.value
        invariant film.genres.value - rest <= db.genreIds
        decreases |rest|
      {
        if forall x :: x !in rest { assert false; }
        var genreId :| genreId in rest;
        if genreId !in db.genreIds {
          return Fail(NotFound(GenreEntity));
        }
        rest := rest - {genreId};
      }
    }
  }

  /** Every check addFilm and updateFilm make before reaching the storage. */
  predicate Accepted(db: Db, film: Film)
    reads db
  {
    && ValidateFilm(film).Pass?
    && film.mpa.Some? && film.mpa.value in db.mpaIds
    && (film.genres.None? || film.genres.value <= db.genreIds)
  }

  /**
    addFilm: validateFilm, then the reference checks, then the storage insert.
    A failing check stores nothing; the film's genres are checked but not stored.
   */
  method AddFilm(db: Db, film: Film) returns (r: Result<Film>)
    requires db.Valid()
    modifies db`films, db`filmKey
    ensures db.Valid()
    ensures ValidateFilm(film).Fail? ==> r == Err(ValidateFilm(film).error)
    ensures ValidateFilm(film).Pass? && film.mpa.None? ==> r == Err(NullReference)
    ensures ValidateFilm(film).Pass? && film.mpa.Some? && film.mpa.value !in db.mpaIds ==> r == Err(NotFound(MpaEntity))
    ensures (ValidateFilm(film).Pass? && film.mpa.Some? && film.mpa.value in db.mpaIds
             && film.genres.Some? && !(film.genres.value <= db.genreIds)) ==> r == Err(NotFound(GenreEntity))
    ensures Accepted(db, film) && film.mpa.value == 0 ==> r == Err(Validation(MpaMissing))
    ensures r.Ok? <==> Accepted(db, film) && film.mpa.value != 0
    ensures r.Err? ==> db.films == old(db.films) && db.filmKey == old(db.filmKey)
    ensures r.Ok? ==>
              && r.value == film.(id := old(db.filmKey))
              && r.value.id !in old(db.films)
              && db.films == old(db.films)[r.value.id := FilmRow(film.name, film.description, film.releaseDate.value, film.duration, film.mpa.value)]
              && db.filmKey == old(db.filmKey) + 1
              && FilmDbStorage.GetFilmById(db, r.value.id) == Ok(film.(id := r.value.id, genres := None))
  {
    var valid := ValidateFilm(film);
    if valid.Fail? {
      return Err(valid.error);
    }
    var refs := ValidateReferences(db, film);
    if refs.Fail? {
      return Err(refs.error);
    }
    r := FilmDbStorage.AddFilm(db, film);
  }

  /** updateFilm: the same checks as addFilm, then the storage update. */
  method UpdateFilm(db: Db, film: Film) returns (r: Result<Film>)
    modifies db`films
    ensures ValidateFilm(film).Fail? ==> r == Err(ValidateFilm(film).error)
    ensures ValidateFilm(film).Pass? && film.mpa.None? ==> r == Err(NullReference)
    ensures ValidateFilm(film).Pass? && film.mpa.Some? && film.mpa.value !in db.mpaIds ==> r == Err(NotFound(MpaEntity))
    ensures (ValidateFilm(film).Pass? && film.mpa.Some? && film.mpa.value in db.mpaIds
             && film.genres.Some? && !(film.genres.value <= db.genreIds)) ==> r == Err(NotFound(GenreEntity))
    ensures Accepted(db, film) && film.id !in old(db.films) ==> r == Err(NotFound(FilmEntity))
    ensures r.Ok? <==> Accepted(db, film) && film.id in old(db.films)
    ensures r.Err? ==> db.films == old(db.films)
    ensures r.Ok? ==>
              && r.value == film
              && db.films == old(db.films)[film.id := FilmRow(film.name, film.description, film.releaseDate.value, film.duration, film.mpa.value)]
              && FilmDbStorage.GetFilmById(db, film.id) == Ok(film.(genres := None))
  {
    var valid := ValidateFilm(film);
    if valid.Fail? {
      return Err(valid.error);
    }
    var refs := ValidateReferences(db, film);
    if refs.Fail? {
      return Err(refs.error);
    }
    r := FilmDbStorage.UpdateFilm(db, film);
  }

  /**
    The film must be readable through the storage and the user must exist
    (NotFound otherwise, likes untouched); then the pair is inserted, and a
    duplicate pair is reported as "already liked".
   */
  method AddLike(db: Db, filmId: int, userId: int) returns (r: Outcome)
    modifies db`likes
    ensures filmId !in db.ListedFilmIds() ==> r == Fail(NotFound(FilmEntity)) && db.likes == old(db.likes)
    ensures filmId in db.ListedFilmIds() && userId !in db.users ==> r == Fail(NotFound(UserEntity)) && db.likes == old(db.likes)
    ensures filmId in db.ListedFilmIds() && userId in db.users ==>
              && r == (if (filmId, userId) in old(db.likes) then Fail(Validation(AlreadyLiked)) else Pass)
              && db.likes == old(db.likes) + {(filmId, userId)}
  {
    var film := FilmDbStorage.GetFilmById(db, filmId);
    if film.Err? {
      return Fail(film.error);
    }
    r := UserService.FindUser(db, userId);
    if r.Fail? {
      return;
    }
    r := FilmLikesRepository.AddLike(db, filmId, userId);
  }

  /** The same existence checks; then the pair is deleted, and deleting nothing is "like not found". */
  method RemoveLike(db: Db, filmId: int, userId: int) returns (r: Outcome)
    modifies db`likes
    ensures filmId !in db.ListedFilmIds() ==> r == Fail(NotFound(FilmEntity)) && db.likes == old(db.likes)
    ensures filmId in db.ListedFilmIds() && userId !in db.users ==> r == Fail(NotFound(UserEntity)) && db.likes == old(db.likes)
    ensures filmId in db.ListedFilmIds() && userId in db.users ==>
              && r == (if (filmId, userId) in old(db.likes) then Pass else Fail(Validation(LikeNotFound)))
              && db.likes == old(db.likes) - {(filmId, userId)}
  {
    var film := FilmDbStorage.GetFilmById(db, filmId);
    if film.Err? {
      return Fail(film.error);
    }
    r := UserService.FindUser(db, userId);
    if r.Fail? {
      return;
    }
    r := FilmLikesRepository.RemoveLike(db, filmId, userId);
  }

  /** A like followed by its removal leaves every film's like count as it was. */
  lemma LikeThenUnlikeRestoresCounts(likes: set<(int, int)>, filmId: int, userId: int, other: int)
    requires (filmId, userId) !in likes
    ensures FilmLikesRepository.LikeCount((likes + {(filmId, userId)}) - {(filmId, userId)}, other)
            == FilmLikesRepository.LikeCount(likes, other)
  {
    assert (likes + {(filmId, userId)}) - {(filmId, userId)} == likes;
  }

  /** loadFilmGenres: the film's genres become the genres linked to its id. */
  function LoadFilmGenres(db: Db, film: Film): (loaded: Film)
    reads db
    ensures loaded == film.(genres := loaded.genres)
    ensures loaded.genres.Some? && loaded.genres.value <= db.genreIds
    ensures forall g :: g in loaded.genres.value <==> (film.id, g) in db.filmGenres && g in db.genreIds
  {
    film.(genres := Some(GenreRepository.LinkedGenres(db, film.id)))
  }

  /**
    getPopularFilms: a non-positive count is rejected before any query;
    otherwise the ranked films, each with its genres loaded.
   */
  method GetPopularFilms(db: Db, count: int) returns (r: Result<seq<Film>>)
    ensures count <= 0 ==> r == Err(Validation(NonPositiveCount))
    ensures count > 0 ==> r.Ok?
    ensures r.Ok? ==> FilmLikesRepository.IsRanking(db.ListedFilmIds(), db.likes, count, FilmLikesRepository.FilmIds(r.value))
    ensures r.Ok? ==> forall i :: 0 <= i < |r.value| ==>
              r.value[i].id in db.films && r.value[i] == LoadFilmGenres(db, db.RowToFilm(r.value[i].id))
  {
    if count <= 0 {
      return Err(Validation(NonPositiveCount));
    }
    var popular := FilmLikesRepository.GetPopularFilms(db, count);
    var loaded: seq<Film> := [];
    for i := 0 to |popular|
      invariant |loaded| == i
      invariant forall k :: 0 <= k < i ==> loaded[k] == LoadFilmGenres(db, popular[k])
    {
      loaded := loaded + [LoadFilmGenres(db, popular[i])];
    }
    assert FilmLikesRepository.FilmIds(loaded) == FilmLikesRepository.FilmIds(popular);
    r := Ok(loaded);
  }
}
