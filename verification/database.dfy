/**
  The relational store every DAO and service talks to through JdbcTemplate.
  Each table is a finite map or set keyed by its primary key, so the
  uniqueness of (user_id, friend_id) and (film_id, user_id) is built in.
 */
module Database {
  import opened Domain

  class Db {
    /** users: user_id -> row (written by the user storage, which is not part of this model). */
    var users: map<int, User>
    /** films: film_id -> row. */
    var films: map<int, FilmRow>
    /** The next value of the identity column of films. */
    var filmKey: int
    /** friendships: (user_id, friend_id) -> status_id. */
    var friendships: map<(int, int), int>
    /** film_likes: (film_id, user_id). */
    var likes: set<(int, int)>
    /** film_genres: (film_id, genre_id). */
    var filmGenres: set<(int, int)>
    /** The seeded reference tables mpa_ratings and genres, by id. */
    const mpaIds: set<int>
    const genreIds: set<int>

    /**
      Every users row carries its own user_id, and the identity column of
      films has only handed out keys below filmKey, all positive.
     */
    ghost predicate Valid()
      reads this
    {
      && (forall id :: id in users ==> users[id].id == id)
      && 1 <= filmKey
      && (forall id :: id in films ==> 1 <= id < filmKey)
    }

    constructor (mpaIds: set<int>, genreIds: set<int>, users: map<int, User>)
      requires forall id :: id in users ==> users[id].id == id
      ensures Valid()
      ensures this.mpaIds == mpaIds && this.genreIds == genreIds && this.users == users
      ensures films == map[] && friendships == map[] && likes == {} && filmGenres == {}
    {
      this.mpaIds := mpaIds;
      this.genreIds := genreIds;
      this.users := users;
      films := map[];
      filmKey := 1;
      friendships := map[];
      likes := {};
      filmGenres := {};
    }

    /** The ids that `films f JOIN mpa_ratings m ON f.mpa_id = m.mpa_id` yields. */
    function ListedFilmIds(): (ids: set<int>)
      reads this
      ensures ids <= films.Keys
      ensures forall id :: id in ids <==> id in films && films[id].mpa in mpaIds
    {
      set id | id in films && films[id].mpa in mpaIds
    }

    /** mapRowToFilm: the Film object read back from a row; genres are not loaded. */
    function RowToFilm(id: int): (f: Film)
      reads this
      requires id in films
      ensures f.id == id && f.name == films[id].title && f.genres == None
      ensures f.releaseDate == Some(films[id].releaseDate) && f.mpa == Some(films[id].mpa)
    {
      var row := films[id];
      Film(id, row.title, row.description, Some(row.releaseDate), row.duration, Some(row.mpa), None)
    }
  }
}
