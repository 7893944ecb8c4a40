/**
  GenreRepository: the film_genres link table. Saving replaces one film's
  links; loading groups the joined rows by film and sets each film's genres.
 */
module GenreRepository {
  import opened Domain
  import opened Database

  /** genre_id of every film_genres row of filmId. */
  function LinkedIds(rows: set<(int, int)>, filmId: int): (ids: set<int>)
    ensures forall g :: g in ids <==> (filmId, g) in rows
  {
    var ids := set p | p in rows && p.0 == filmId :: p.1;
    assert forall g :: (filmId, g) in rows ==> g in ids by {
      forall g | (filmId, g) in rows ensures g in ids {
        var p := (filmId, g);
        assert p in rows && p.0 == filmId;
      }
    }
    ids
  }

  /** The rows after `DELETE ... WHERE film_id = filmId` and a batch insert of (filmId, g) for each g in genres. */
  function ReplaceLinks(rows: set<(int, int)>, filmId: int, genres: set<int>): (after: set<(int, int)>)
    ensures forall g :: (filmId, g) in after <==> g in genres
    ensures forall p :: p in after && p.0 != filmId <==> p in rows && p.0 != filmId
  {
    (set p | p in rows && p.0 != filmId) + (set g | g in genres :: (filmId, g))
  }

  /** After a replace, filmId is linked to exactly the given genres and every other film keeps its links. */
  lemma ReplaceLinksEffect(rows: set<(int, int)>, filmId: int, genres: set<int>, other: int)
    ensures LinkedIds(ReplaceLinks(rows, filmId, genres), filmId) == genres
    ensures other != filmId ==> LinkedIds(ReplaceLinks(rows, filmId, genres), other) == LinkedIds(rows, other)
  {
    var after := ReplaceLinks(rows, filmId, genres);
    forall g ensures g in LinkedIds(after, filmId) <==> g in genres {
      assert (filmId, g) in after <==> g in genres;
    }
    if other != filmId {
      forall g ensures g in LinkedIds(after, other) <==> g in LinkedIds(rows, other) {
        assert (other, g) in after <==> (other, g) in rows;
      }
    }
  }

  /**
    The genres `film_genres fg JOIN genres g ON fg.genre_id = g.genre_id`
    yields for one film: its links to genres that exist.
   */
  function LinkedGenres(db: Db, filmId: int): (ids: set<int>)
    reads db
    ensures ids <= db.genreIds
    ensures forall g :: g in ids <==> (filmId, g) in db.filmGenres && g in db.genreIds
  {
    LinkedIds(db.filmGenres, filmId) * db.genreIds
  }

  /** saveFilmGenres: delete the film's links, then batch-insert one row per genre; a null or empty set inserts nothing. */
  method SaveFilmGenres(db: Db, filmId: int, genres: Option<set<int>>)
    modifies db`filmGenres
    ensures db.filmGenres == ReplaceLinks(old(db.filmGenres), filmId, if genres.Some? then genres.value else {})
    ensures LinkedIds(db.filmGenres, filmId) == if genres.Some? then genres.value else {}
    ensures forall other :: other != filmId ==> LinkedIds(db.filmGenres, other) == LinkedIds(old(db.filmGenres), other)
  {
    ghost var before := db.filmGenres;
    ghost var wanted := if genres.Some? then genres.value else {};
    db.filmGenres := set p | p in db.filmGenres && p.0 != filmId;
    if genres.Some? && genres.value != {} {
      var batchArgs: seq<(int, int)> := [];
      var rest := genres.value;
      while rest != {}
        invariant rest <= genres.value
        invariant forall p :: p in batchArgs <==> p.0 == filmId && p.1 in genres.value - rest
      {
        if forall x :: x !in rest { assert false; }
        var g :| g in rest;
        batchArgs := batchArgs + [(filmId, g)];
        rest := rest - {g};
      }
      var inserted := set p | p in batchArgs;
      var wantedRows := set g | g in genres.value :: (filmId, g);
      forall p | p in wantedRows ensures p in inserted {
        assert p.0 == filmId && p.1 in genres.value;
      }
      forall p | p in inserted ensures p in wantedRows {
        assert p in batchArgs;
        var g := p.1;
        assert g in genres.value && p == (filmId, g);
        assert (filmId, g) in wantedRows;
      }
      assert inserted == wantedRows;
      db.filmGenres := db.filmGenres + inserted;
    }
    assert db.filmGenres == ReplaceLinks(before, filmId, wanted);
    forall other ensures LinkedIds(db.filmGenres, other) == if other == filmId then wanted else LinkedIds(before, other) {
      ReplaceLinksEffect(before, filmId, wanted, other);
    }
  }

  /**
    loadGenresForFilms: one query for the joined link rows of all the films,
    grouped into a map by film id, then each film gets its group, or the empty
    set when it has none. Films are values here, so the updated list is returned.
   */
  method LoadGenresForFilms(db: Db, films: seq<Film>) returns (loaded: seq<Film>)
    ensures |loaded| == |films|
    ensures forall i :: 0 <= i < |films| ==>
              loaded[i] == films[i].(genres := Some(LinkedGenres(db, films[i].id)))
  {
    if |films| == 0 {
      return films;
    }
    var filmIds := set i | 0 <= i < |films| :: films[i].id;
    var rows := JoinedRows(db, filmIds);
    var byFilm := GroupByFilm(rows);
    loaded := [];
    for i := 0 to |films|
      invariant |loaded| == i
      invariant forall k :: 0 <= k < i ==> loaded[k] == films[k].(genres := Some(LinkedGenres(db, films[k].id)))
    {
      var id := films[i].id;
      var genres := if id in byFilm then byFilm[id] else {};
      assert id in filmIds;
      loaded := loaded + [films[i].(genres := Some(genres))];
    }
  }

  /** The result-set loop of loadGenresForFilms: each row's genre joins its film's group. */
  method GroupByFilm(rows: set<(int, int)>) returns (byFilm: map<int, set<int>>)
    ensures forall f :: f in byFilm ==> byFilm[f] == LinkedIds(rows, f)
    ensures forall f :: f !in byFilm ==> LinkedIds(rows, f) == {}
    ensures forall f :: f in byFilm ==> byFilm[f] != {}
  {
    byFilm := map[];
    var pending := rows;
    while pending != {}
      invariant pending <= rows
      invariant forall f :: f in byFilm ==> byFilm[f] == LinkedIds(rows - pending, f)
      invariant forall f :: f !in byFilm ==> LinkedIds(rows - pending, f) == {}
      invariant forall f :: f in byFilm ==> byFilm[f] != {}
    {
      if forall x :: x !in pending { assert false; }
      var row :| row in pending;
      var group := if row.0 in byFilm then byFilm[row.0] else {};
      ghost var groups := byFilm;
      ghost var done := rows - pending;
      byFilm := byFilm[row.0 := group + {row.1}];
      pending := pending - {row};
      assert rows - pending == done + {row};
      forall f
        ensures f in byFilm ==> byFilm[f] == LinkedIds(rows - pending, f) && byFilm[f] != {}
        ensures f !in byFilm ==> LinkedIds(rows - pending, f) == {}
      {
        GroupAddRow(done, row, f);
        if f == row.0 {
          assert row.1 in byFilm[f];
        } else if f in byFilm {
          assert byFilm[f] == groups[f];
        }
      }
    }
    assert rows - pending == rows;
  }

  /** The rows of `film_genres JOIN genres WHERE film_id IN (...)`. */
  function JoinedRows(db: Db, filmIds: set<int>): (rows: set<(int, int)>)
    reads db
    ensures forall f :: f in filmIds ==> LinkedIds(rows, f) == LinkedGenres(db, f)
    ensures forall f :: f !in filmIds ==> LinkedIds(rows, f) == {}
  {
    var rows := set p | p in db.filmGenres && p.0 in filmIds && p.1 in db.genreIds;
    assert forall f, g :: (f, g) in rows <==> f in filmIds && g in LinkedGenres(db, f);
    rows
  }

  /** Adding one row to the grouped rows adds its genre to its own film's group only. */
  lemma GroupAddRow(done: set<(int, int)>, row: (int, int), f: int)
    ensures LinkedIds(done + {row}, f) == LinkedIds(done, f) + (if f == row.0 then {row.1} else {})
  {
    forall g ensures g in LinkedIds(done + {row}, f) <==> g in LinkedIds(done, f) + (if f == row.0 then {row.1} else {}) {
      assert (f, g) in done + {row} <==> (f, g) in done || (f, g) == row;
    }
  }

  /** loadGenresForFilm: the one-film case of LoadGenresForFilms. */
  method LoadGenresForFilm(db: Db, film: Film) returns (loaded: Film)
    ensures loaded == film.(genres := Some(LinkedGenres(db, film.id)))
  {
    var list := LoadGenresForFilms(db, [film]);
    loaded := list[0];
  }

  /**
    validateGenresExist: true for no ids; otherwise the number of genres rows
    whose id is among them must equal the number of ids.
   */
  function ValidateGenresExist(db: Db, genreIds: set<int>): (ok: bool)
    reads db
    ensures ok <==> genreIds <= db.genreIds
  {
    CountMatchesOnlyIfAllKnown(genreIds, db.genreIds);
    if genreIds == {} then true else |genreIds * db.genreIds| == |genreIds|
  }

  lemma {:induction false} SubsetCardinality(a: set<int>, b: set<int>)
    requires a <= b
    ensures |a| <= |b|
    decreases |b|
  {
    if a != {} {
      if forall y :: y !in a { assert false; }
      var y :| y in a;
      SubsetCardinality(a - {y}, b - {y});
    }
  }

  /** The matching-row count equals the number of ids exactly when every id is a known genre. */
  lemma CountMatchesOnlyIfAllKnown(ids: set<int>, known: set<int>)
    ensures |ids * known| == |ids| <==> ids <= known
  {
    if !(ids <= known) {
      if forall y :: y in ids ==> y in known { assert false; }
      var x :| x in ids && x !in known;
      SubsetCardinality(ids * known, ids - {x});
      assert |ids - {x}| == |ids| - 1;
    } else {
      assert ids * known == ids;
    }
  }
}
