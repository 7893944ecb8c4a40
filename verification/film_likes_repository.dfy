/**
  FilmLikesRepository: inserts into and deletes from film_likes, and the
  popularity query. It checks neither the film nor the user for existence.
 */
module FilmLikesRepository {
  import opened Domain
  import opened Database

  /** COUNT(fl.user_id) of the LEFT JOIN for one film: its number of likes, 0 if none. */
  function LikeCount(likes: set<(int, int)>, filmId: int): (n: nat)
    ensures n == 0 <==> forall u :: (filmId, u) !in likes
  {
    var liked := set p | p in likes && p.0 == filmId;
    assert liked == {} <==> forall u :: (filmId, u) !in likes by {
      if liked != {} {
        var p :| p in liked;
        var u := p.1;
        assert (filmId, u) in likes;
      } else {
        forall u ensures (filmId, u) !in likes {
          assert (filmId, u) !in liked;
        }
      }
    }
    |liked|
  }

  /**
    What `... ORDER BY likes_count DESC LIMIT count` promises about the ids it
    returns from the films in `listed`: min(count, |listed|) distinct films,
    zero-like films included, in non-increasing like count, and no film left
    out has more likes than one returned. The order among equal counts is left open.
   */
  predicate IsRanking(listed: set<int>, likes: set<(int, int)>, count: int, ids: seq<int>): (ranked: bool)
    ensures ranked ==> forall i, j :: 0 <= i < |ids| && 0 <= j < |ids| && LikeCount(likes, ids[i]) < LikeCount(likes, ids[j]) ==> j < i
  {
    && |ids| == (if count < |listed| then count else |listed|)
    && (forall i :: 0 <= i < |ids| ==> ids[i] in listed)
    && (forall i, j :: 0 <= i < j < |ids| ==> ids[i] != ids[j])
    && (forall i, j :: 0 <= i < j < |ids| ==> LikeCount(likes, ids[i]) >= LikeCount(likes, ids[j]))
    && (forall id, i :: id in listed && id !in ids && 0 <= i < |ids| ==>
          LikeCount(likes, id) <= LikeCount(likes, ids[i]))
  }

  /** Any non-empty finite set of films has one with the most likes. */
  lemma {:induction false} MostLikedExists(ids: set<int>, likes: set<(int, int)>)
    requires ids != {}
    ensures exists m :: m in ids && forall x :: x in ids ==> LikeCount(likes, x) <= LikeCount(likes, m)
    decreases |ids|
  {
    if forall x :: x !in ids { assert false; }
    var y :| y in ids;
    if ids != {y} {
      var rest := ids - {y};
      MostLikedExists(rest, likes);
      var m :| m in rest && forall x :: x in rest ==> LikeCount(likes, x) <= LikeCount(likes, m);
      if LikeCount(likes, y) > LikeCount(likes, m) {
        assert forall x :: x in ids ==> LikeCount(likes, x) <= LikeCount(likes, y);
      } else {
        assert forall x :: x in ids ==> LikeCount(likes, x) <= LikeCount(likes, m);
      }
    }
  }

  /** INSERT INTO film_likes: a pair already present violates the key and is reported as "already liked". */
  method AddLike(db: Db, filmId: int, userId: int) returns (r: Outcome)
    modifies db`likes
    ensures (filmId, userId) in old(db.likes) ==> r == Fail(Validation(AlreadyLiked)) && db.likes == old(db.likes)
    ensures (filmId, userId) !in old(db.likes) ==> r == Pass && db.likes == old(db.likes) + {(filmId, userId)}
    ensures (filmId, userId) in db.likes
    ensures LikeCount(db.likes, filmId) == LikeCount(old(db.likes), filmId) + (if r.Pass? then 1 else 0)
  {
    if (filmId, userId) in db.likes {
      return Fail(Validation(AlreadyLiked));
    }
    ghost var before := db.likes;
    db.likes := db.likes + {(filmId, userId)};
    assert (set p | p in db.likes && p.0 == filmId) == (set p | p in before && p.0 == filmId) + {(filmId, userId)};
    r := Pass;
  }

  /** DELETE FROM film_likes for exactly one pair; deleting nothing is "like not found". */
  method RemoveLike(db: Db, filmId: int, userId: int) returns (r: Outcome)
    modifies db`likes
    ensures (filmId, userId) !in old(db.likes) ==> r == Fail(Validation(LikeNotFound)) && db.likes == old(db.likes)
    ensures (filmId, userId) in old(db.likes) ==> r == Pass && db.likes == old(db.likes) - {(filmId, userId)}
    ensures (filmId, userId) !in db.likes
    ensures forall p :: p != (filmId, userId) ==> (p in db.likes <==> p in old(db.likes))
  {
    if (filmId, userId) !in db.likes {
      return Fail(Validation(LikeNotFound));
    }
    db.likes := db.likes - {(filmId, userId)};
    r := Pass;
  }

  /**
    The database's evaluation of ORDER BY likes_count DESC LIMIT count over the
    films in `listed`: each round takes any most-liked film not yet taken, which
    is how the unspecified order among equal counts is modelled.
   */
  method RankByLikes(listed: set<int>, likes: set<(int, int)>, count: int) returns (ids: seq<int>)
    requires count >= 0
    ensures IsRanking(listed, likes, count, ids)
  {
    var remaining := listed;
    ids := [];
    while |ids| < count && remaining != {}
      invariant |ids| <= count
      invariant remaining <= listed
      invariant forall i :: 0 <= i < |ids| ==> ids[i] in listed && ids[i] !in remaining
      invariant forall id :: id in listed && id !in remaining ==> id in ids
      invariant forall i, j :: 0 <= i < j < |ids| ==> ids[i] != ids[j]
      invariant |ids| + |remaining| == |listed|
      invariant forall i, j :: 0 <= i < j < |ids| ==> LikeCount(likes, ids[i]) >= LikeCount(likes, ids[j])
      invariant forall id, i :: id in remaining && 0 <= i < |ids| ==> LikeCount(likes, id) <= LikeCount(likes, ids[i])
    {
      MostLikedExists(remaining, likes);
      var f :| f in remaining && forall x :: x in remaining ==> LikeCount(likes, x) <= LikeCount(likes, f);
      ids := ids + [f];
      remaining := remaining - {f};
    }
    assert |ids| == (if count < |listed| then count else |listed|);
  }

  /** The ids of a list of films, in order. */
  function FilmIds(films: seq<Film>): (ids: seq<int>)
    ensures |ids| == |films| && forall i :: 0 <= i < |films| ==> ids[i] == films[i].id
  {
    seq(|films|, i requires 0 <= i < |films| => films[i].id)
  }

  /** The popularity query: the ranked rows of the films/mpa_ratings join, read back as films without genres. */
  method GetPopularFilms(db: Db, count: int) returns (films: seq<Film>)
    requires count >= 0
    ensures IsRanking(db.ListedFilmIds(), db.likes, count, FilmIds(films))
    ensures forall i :: 0 <= i < |films| ==> films[i].id in db.films && films[i] == db.RowToFilm(films[i].id)
  {
    var ids := RankByLikes(db.ListedFilmIds(), db.likes, count);
    films := seq(|ids|, i reads db requires 0 <= i < |ids| && ids[i] in db.films => db.RowToFilm(ids[i]));
    assert FilmIds(films) == ids;
  }

  /**
    Three films with 3, 5 and 0 likes: the two most popular are, in order, the
    one with 5 likes and the one with 3, whatever the database does with ties.
   */
  lemma TopTwoOfThree(listed: set<int>, likes: set<(int, int)>, f1: int, f2: int, f3: int, ids: seq<int>)
    requires listed == {f1, f2, f3} && f1 != f2 && f2 != f3 && f1 != f3
    requires LikeCount(likes, f1) == 3 && LikeCount(likes, f2) == 5 && LikeCount(likes, f3) == 0
    requires IsRanking(listed, likes, 2, ids)
    ensures ids == [f2, f1]
  {
  }
}
