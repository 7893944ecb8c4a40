/**
  InMemoryFilmStorage: films in a hash map keyed by id, ids handed out by a
  counter that starts at 1.
 */
module FilmStorage {
  import opened Domain

  class InMemoryFilmStorage {
    var films: map<int, Film>
    var nextId: int

    /** Every stored film sits under its own id, and every id is below the counter. */
    ghost predicate Valid()
      reads this
    {
      && 1 <= nextId
      && forall id :: id in films ==> 1 <= id < nextId && films[id].id == id
    }

    constructor ()
      ensures Valid()
      ensures films == map[] && nextId == 1
    {
      films := map[];
      nextId := 1;
    }

    /** getFilmById: the stored film, or NotFound. */
    function GetFilmById(id: int): (r: Result<Film>)
      reads this
      ensures r.Ok? <==> id in films
      ensures r.Ok? ==> r.value == films[id]
      ensures r.Err? ==> r.error == NotFound(FilmEntity)
    {
      if id in films then Ok(films[id]) else Err(NotFound(FilmEntity))
    }

    /** addFilm: the film takes the counter as id, the counter moves on, and no stored film is overwritten. */
    method AddFilm(film: Film) returns (added: Film)
      requires Valid()
      modifies this
      ensures Valid()
      ensures added == film.(id := old(nextId))
      ensures added.id !in old(films)
      ensures films == old(films)[added.id := added]
      ensures nextId == old(nextId) + 1
      ensures GetFilmById(added.id) == Ok(added)
      ensures forall id :: id in old(films) ==> GetFilmById(id) == old(GetFilmById(id))
    {
      added := film.(id := nextId);
      nextId := nextId + 1;
      films := films[added.id := added];
    }

    /** updateFilm: an unknown id is a validation error; otherwise only that entry is replaced. */
    method UpdateFilm(film: Film) returns (r: Result<Film>)
      modifies this
      ensures film.id !in old(films) ==> r == Err(Validation(UnknownFilm)) && films == old(films)
      ensures film.id in old(films) ==> r == Ok(film) && films == old(films)[film.id := film]
      ensures nextId == old(nextId)
      ensures films.Keys == old(films.Keys)
      ensures old(Valid()) ==> Valid()
    {
      if film.id !in films {
        return Err(Validation(UnknownFilm));
      }
      films := films[film.id := film];
      r := Ok(film);
    }

    /** getAllFilms: a list holding each stored film once, in no particular order. */
    method GetAllFilms() returns (all: seq<Film>)
      requires Valid()
      ensures |all| == |films|
      ensures forall i :: 0 <= i < |all| ==> all[i].id in films && films[all[i].id] == all[i]
      ensures forall i, j :: 0 <= i < j < |all| ==> all[i].id != all[j].id
      ensures forall id :: id in films ==> films[id] in all
    {
      all := [];
      var rest := films.Keys;
      while rest != {}
        invariant rest <= films.Keys
        invariant |all| + |rest| == |films|
        invariant forall i :: 0 <= i < |all| ==> all[i].id in films && all[i].id !in rest && films[all[i].id] == all[i]
        invariant forall i, j :: 0 <= i < j < |all| ==> all[i].id != all[j].id
        invariant forall id :: id in films && id !in rest ==> films[id] in all
        decreases |rest|
      {
        if forall x :: x !in rest { assert false; }
        var id :| id in rest;
        all := all + [films[id]];
        rest := rest - {id};
      }
    }
  }

  /** On a fresh storage the first film added gets id 1 and can be read back. */
  method FirstFilmGetsIdOne(film: Film) returns (added: Film, found: Result<Film>)
    ensures added == film.(id := 1)
    ensures found == Ok(added)
  {
    var storage := new InMemoryFilmStorage();
    added := storage.AddFilm(film);
    found := storage.GetFilmById(1);
  }
}
