/**
  FilmDbStorage: the films table behind the film service. Reads join films
  with mpa_ratings; addFilm and updateFilm check the MPA rating first and
  write only the films row (the genres of the film are not stored here).
 */
module FilmDbStorage {
  import opened Domain
  import opened Database

  /** getFilmById: the joined row for id, or NotFound when the join yields no row. */
  function GetFilmById(db: Db, id: int): (r: Result<Film>)
    reads db
    ensures r.Ok? <==> id in db.films && db.films[id].mpa in db.mpaIds
    ensures r.Err? ==> r.error == NotFound(FilmEntity)
    ensures r.Ok? ==> r.value.id == id && r.value.genres == None
  {
    if id in db.ListedFilmIds() then Ok(db.RowToFilm(id)) else Err(NotFound(FilmEntity))
  }

  /** getAllFilms: every row of the join, keyed by film_id; genres are not loaded. */
  function GetAllFilms(db: Db): (all: map<int, Film>)
    reads db
    ensures all.Keys == db.ListedFilmIds()
    ensures forall id :: id in all ==> GetFilmById(db, id) == Ok(all[id])
  {
    map id | id in db.ListedFilmIds() :: db.RowToFilm(id)
  }

  /** validateMpaExists: the count of mpa_ratings rows with this id must be non-zero. */
  function MpaExists(db: Db, mpaId: int): (r: Outcome)
    reads db
    ensures r.Pass? <==> mpaId in db.mpaIds
    ensures r.Fail? ==> r.error == NotFound(MpaEntity)
  {
    if mpaId in db.mpaIds then Pass else Fail(NotFound(MpaEntity))
  }

  /**
    addFilm: a missing rating or rating id 0 is a validation error, an unknown
    rating is NotFound, and a null release date fails in Date.valueOf before
    the insert. Otherwise the row is inserted under the next identity key and
    the film is returned with that id.
   */
  method AddFilm(db: Db, film: Film) returns (r: Result<Film>)
    requires db.Valid()
    modifies db`films, db`filmKey
    ensures db.Valid()
    ensures film.mpa.None? || film.mpa.value == 0 ==> r == Err(Validation(MpaMissing))
    ensures film.mpa.Some? && film.mpa.value != 0 && film.mpa.value !in db.mpaIds ==> r == Err(NotFound(MpaEntity))
    ensures film.mpa.Some? && film.mpa.value != 0 && film.mpa.value in db.mpaIds && film.releaseDate.None? ==>
              r == Err(NullReference)
    ensures r.Err? ==> db.films == old(db.films) && db.filmKey == old(db.filmKey)
    ensures r.Ok? <==> film.mpa.Some? && film.mpa.value != 0 && film.mpa.value in db.mpaIds && film.releaseDate.Some?
    ensures r.Ok? ==>
              && r.value == film.(id := old(db.filmKey))
              && r.value.id >= 1 && r.value.id !in old(db.films)
              && db.films == old(db.films)[r.value.id := FilmRow(film.name, film.description, film.releaseDate.value, film.duration, film.mpa.value)]
              && db.filmKey == old(db.filmKey) + 1
    ensures r.Ok? ==> GetFilmById(db, r.value.id) == Ok(r.value.(genres := None))
  {
    if film.mpa.None? || film.mpa.value == 0 {
      return Err(Validation(MpaMissing));
    }
    var checked := MpaExists(db, film.mpa.value);
    if checked.Fail? {
      return Err(checked.error);
    }
    if film.releaseDate.None? {
      return Err(NullReference);
    }
    var key := db.filmKey;
    db.films := db.films[key := FilmRow(film.name, film.description, film.releaseDate.value, film.duration, film.mpa.value)];
    db.filmKey := db.filmKey + 1;
    r := Ok(film.(id := key));
  }

  /**
    updateFilm: a missing rating dereferences null, an unknown rating is
    NotFound, and an UPDATE that matches no row is NotFound. Otherwise the row
    of film.id takes the film's fields and every other row is unchanged.
   */
  method UpdateFilm(db: Db, film: Film) returns (r: Result<Film>)
    requires film.releaseDate.Some?
    modifies db`films
    ensures film.mpa.None? ==> r == Err(NullReference)
    ensures film.mpa.Some? && film.mpa.value !in db.mpaIds ==> r == Err(NotFound(MpaEntity))
    ensures film.mpa.Some? && film.mpa.value in db.mpaIds && film.id !in old(db.films) ==> r == Err(NotFound(FilmEntity))
    ensures r.Err? ==> db.films == old(db.films)
    ensures r.Ok? <==> film.mpa.Some? && film.mpa.value in db.mpaIds && film.id in old(db.films)
    ensures r.Ok? ==>
              && r.value == film
              && db.films == old(db.films)[film.id := FilmRow(film.name, film.description, film.releaseDate.value, film.duration, film.mpa.value)]
    ensures r.Ok? ==> GetFilmById(db, film.id) == Ok(film.(genres := None))
    ensures db.films.Keys == old(db.films.Keys)
    ensures old(db.Valid()) ==> db.Valid()
  {
    if film.mpa.None? {
      return Err(NullReference);
    }
    var checked := MpaExists(db, film.mpa.value);
    if checked.Fail? {
      return Err(checked.error);
    }
    if film.id !in db.films {
      // the UPDATE reports 0 rows
      return Err(NotFound(FilmEntity));
    }
    db.films := db.films[film.id := FilmRow(film.name, film.description, film.releaseDate.value, film.duration, film.mpa.value)];
    r := Ok(film);
  }
}
