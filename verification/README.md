# Filmorate relations core in Dafny

A model of the relation engine of the Filmorate film catalogue backend. It
covers friendships between users (PENDING and CONFIRMED edges), film likes,
the most-popular-films ranking, film/genre links, film validation, the film
table behind the service, and the two in-memory entity stores.

The database is one object, `Database.Db`. It holds:

- the `users` and `films` tables;
- the identity counter of `films`;
- the `friendships`, `film_likes` and `film_genres` tables;
- the seeded ids of `mpa_ratings` and `genres`.

Every table is a finite map or set keyed by its primary key, so the model
assumes that `(user_id, friend_id)` and `(film_id, user_id)` are unique. Two
errors rely on that key: "already liked", which `addLike` reports when its
INSERT fails (FilmLikesRepository.java:19-23, FilmService.java:69-73), and the
failing reverse INSERT in `FriendshipRepository.confirmFriend`
(FriendshipRepository.java:69-73). "Already friends" needs no key: it comes
from a `COUNT(*)` check before the insert (UserService.java:51-56,
FriendshipRepository.java:19-24). `Db.Valid` also requires every `users` row
to carry its own `user_id`, so a joined user's row has the id it was joined on.

Each SQL statement is modelled by its effect on those tables. Each repository and service method names the table fields it may
change (``modifies db`likes``, and so on). Queries with no `ORDER BY` return
maps from id to row, because their row order is not fixed.

The popularity query `ORDER BY likes_count DESC LIMIT n` works differently.
`FilmLikesRepository.RankByLikes` picks any most-liked remaining film on each
round. Its result is pinned down only by `FilmLikesRepository.IsRanking`:

- the length is `min(n, number of films whose rating is known)`;
- the films are distinct;
- zero-like films can be picked;
- like counts never increase along the list;
- no film left out has more likes than one returned.

The order among films with equal counts is left open, as it is in the SQL.

There are two friendship variants, modelled separately, and they differ:

- `UserService` adds a friend as PENDING. Confirming sets the existing edges
  between the two users to CONFIRMED and inserts nothing, so
  request-then-confirm is one-way (`UserService.RequestThenConfirmIsOneWay`).
- `FriendshipRepository` adds a friend directly as CONFIRMED. Confirming
  updates the request and inserts the reverse edge, so request-then-confirm
  becomes mutual (`FriendshipRepository.RequestThenConfirmIsMutual`). When
  the reverse edge already exists, the insert fails after the update has
  been applied. The caller then sees "request not found", and the update is
  kept, since nothing runs in a transaction.

FilmService and UserService run their own SQL rather than calling
FilmLikesRepository or FriendshipRepository. Where a service statement has the
same text as a repository statement (the like INSERT and DELETE, the
popularity query, the friend and common-friend joins), the model's service
method calls the repository member that models that statement, so both share
one definition.

What the code does not do, the model does not do either:

- nothing rejects a user befriending themselves;
- a duplicate like or friendship is a validation error, not a separate conflict error;
- UserService's confirmation does not make the friendship mutual;
- the popularity ranking does not break ties by id.

The Java exceptions are the `Error` datatype:

- `NotFound(entity)` stands for NotFoundException.
- `Validation(reason)` stands for ValidationException, one reason per message.
- `NullReference` stands for the NullPointerException the code raises on a
  null MPA rating, a null release date, or a listed user whose birthday is
  NULL (the row mappers call `toLocalDate()` on it).

The film service checks the MPA rating and each genre before storing a film.
Neither it nor FilmDbStorage writes `film_genres`, and no code in the
repository's core calls `GenreRepository`. A stored film therefore keeps no
genres (`FilmService.AddFilm` can change only `films` and the identity
counter).

The service existence checks read the `users` table directly. The user
service is wired to UserDbStorage, and UserDbStorage is not part of this
model. A user "exists" when its id is a key of `users`.

## Model

| member | source | states |
|---|---|---|
| Database.Db.ListedFilmIds | src/main/java/ru/yandex/practicum/filmorate/storage/film/FilmDbStorage.java:34 | the films the join with mpa_ratings yields: exactly the stored films whose rating id is a known rating |
| Database.Db.RowToFilm | src/main/java/ru/yandex/practicum/filmorate/storage/film/FilmDbStorage.java:96-110 | a row read back keeps its id, title, release date and rating, and has no genres loaded |
| Friendships.ConfirmedFrom | src/main/java/ru/yandex/practicum/filmorate/service/UserService.java:73-75 | f is listed for u exactly when the edge (u, f) exists with status CONFIRMED |
| Friendships.ConfirmEither | src/main/java/ru/yandex/practicum/filmorate/service/UserService.java:121-122 | the two-edge UPDATE keeps the same edges, makes those between u and f that exist CONFIRMED and leaves every other edge's status alone |
| Friendships.PendingEdgeListsNobody | src/main/java/ru/yandex/practicum/filmorate/service/UserService.java:58-59 | inserting a PENDING edge changes nobody's list of confirmed friends |
| Friendships.ConfirmedEdgeListsTarget | src/main/java/ru/yandex/practicum/filmorate/dal/FriendshipRepository.java:26-27 | inserting a CONFIRMED edge (u, f) adds f to u's friends and changes no other user's list, f's included |
| Friendships.DeletedEdgeUnlistsTarget | src/main/java/ru/yandex/practicum/filmorate/service/UserService.java:66-67 | deleting (u, f) removes f from u's friends and leaves every other list, including f's, unchanged |
| Friendships.ConfirmEitherLists | src/main/java/ru/yandex/practicum/filmorate/service/UserService.java:113-125 | after confirming, the requester lists the confirmer; the confirmer lists the requester exactly when the edge back already existed; third users are unaffected |
| FriendshipRepository.FriendRows | src/main/java/ru/yandex/practicum/filmorate/dal/FriendshipRepository.java:40-42 | the joined rows are exactly the existing users on the far end of a CONFIRMED edge from userId, with their stored rows |
| FriendshipRepository.CommonRows | src/main/java/ru/yandex/practicum/filmorate/dal/FriendshipRepository.java:48-52 | the rows of the double join are exactly the intersection of the two users' friend rows |
| FriendshipRepository.MapUserRows | src/main/java/ru/yandex/practicum/filmorate/dal/FriendshipRepository.java:77-85 | mapping succeeds, returning the rows unchanged, exactly when every row has a birthday; otherwise a null dereference |
| FriendshipRepository.GetFriends | src/main/java/ru/yandex/practicum/filmorate/dal/FriendshipRepository.java:39-45 | exactly the existing users on the far end of a CONFIRMED edge from userId, with their stored rows, when all of them have a birthday; a null dereference exactly when one does not |
| FriendshipRepository.GetCommonFriends | src/main/java/ru/yandex/practicum/filmorate/dal/FriendshipRepository.java:47-55 | exactly the intersection of the two users' friend rows when all of those have a birthday; a null dereference exactly when one does not |
| FriendshipRepository.CommonFriendsSymmetric | src/main/java/ru/yandex/practicum/filmorate/dal/FriendshipRepository.java:47-55 | common friends of a and b are the common friends of b and a |
| FriendshipRepository.AddFriend | src/main/java/ru/yandex/practicum/filmorate/dal/FriendshipRepository.java:18-28 | an existing edge of any status is rejected with the table unchanged; otherwise the edge is inserted CONFIRMED, friendId is listed for userId, and a different friendId's own list is unchanged |
| FriendshipRepository.RemoveFriend | src/main/java/ru/yandex/practicum/filmorate/dal/FriendshipRepository.java:30-37 | deleting no row is "friend not found"; otherwise exactly that edge goes, friendId is no longer listed for userId, and every other user's list is unchanged |
| FriendshipRepository.ConfirmFriend | src/main/java/ru/yandex/practicum/filmorate/dal/FriendshipRepository.java:57-75 | without a PENDING request (friendId, userId) the table is unchanged and the error is "request not found"; otherwise the request becomes CONFIRMED and the reverse edge is inserted CONFIRMED, or the insert fails with the update kept; every failure is the same error; on success each lists the other |
| FriendshipRepository.RequestThenConfirmIsMutual | src/main/java/ru/yandex/practicum/filmorate/dal/FriendshipRepository.java:57-75 | a PENDING request row from a to b lists nobody; `ConfirmFriend` by b then succeeds, and after it each of the two users lists the other |
| UserService.WithDefaultName | src/main/java/ru/yandex/practicum/filmorate/service/UserService.java:29-41 | only the name can change: a null or blank name becomes the login, any other name is kept; a non-blank login always yields a non-blank name |
| UserService.WithDefaultNameIdempotent | src/main/java/ru/yandex/practicum/filmorate/service/UserService.java:29-41 | defaulting the name twice is the same as once |
| UserService.FindUser | src/main/java/ru/yandex/practicum/filmorate/service/UserService.java:43-45 | the lookup succeeds exactly for a stored user id and otherwise fails with NotFound for a user |
| UserService.AddFriend | src/main/java/ru/yandex/practicum/filmorate/service/UserService.java:47-60 | a missing user is NotFound and an existing edge of any status is "already friends", both with the table unchanged; otherwise a PENDING edge is inserted and nobody's confirmed friends change |
| UserService.RemoveFriend | src/main/java/ru/yandex/practicum/filmorate/service/UserService.java:62-68 | a missing user is NotFound with the table unchanged; otherwise the edge (userId, friendId) is deleted if present, silently if not, and the reverse edge is untouched |
| UserService.GetFriends | src/main/java/ru/yandex/practicum/filmorate/service/UserService.java:70-86 | NotFound for a missing user; otherwise a null dereference exactly when a listed friend has no birthday, and else exactly the users with a CONFIRMED edge from userId, with their stored rows |
| UserService.GetCommonFriends | src/main/java/ru/yandex/practicum/filmorate/service/UserService.java:88-107 | NotFound when either user is missing; otherwise a null dereference exactly when a common friend has no birthday, and else exactly the users both list as confirmed friends, with their stored rows |
| UserService.ConfirmFriend | src/main/java/ru/yandex/practicum/filmorate/service/UserService.java:109-126 | a missing user is NotFound and a missing PENDING request is "request not found", both with the table unchanged; otherwise the existing edges between the two become CONFIRMED, no edge is inserted, the requester lists the confirmer, and the confirmer lists the requester only if that edge existed |
| UserService.RequestThenConfirmIsOneWay | src/main/java/ru/yandex/practicum/filmorate/service/UserService.java:109-126 | after a requests b and b confirms, a lists b but b does not list a; the request alone lists nobody |
| FilmLikesRepository.LikeCount | src/main/java/ru/yandex/practicum/filmorate/dal/FilmLikesRepository.java:36-40 | the `COUNT(fl.user_id)` of the LEFT JOIN grouped by film: 0 exactly when no user likes the film |
| FilmLikesRepository.IsRanking | src/main/java/ru/yandex/practicum/filmorate/dal/FilmLikesRepository.java:41-42 | what `ORDER BY likes_count DESC LIMIT ?` returns: min(count, films) distinct listed films in non-increasing like count, none left out more liked than one returned; so a film with more likes than another never comes after it |
| FilmLikesRepository.MostLikedExists | src/main/java/ru/yandex/practicum/filmorate/dal/FilmLikesRepository.java:41 | every non-empty set of films has one with the most likes, so ORDER BY likes_count DESC always has a first row |
| FilmLikesRepository.AddLike | src/main/java/ru/yandex/practicum/filmorate/dal/FilmLikesRepository.java:17-24 | a pair already present is "already liked" with the likes unchanged; otherwise the pair is added and the film's like count grows by exactly one |
| FilmLikesRepository.RemoveLike | src/main/java/ru/yandex/practicum/filmorate/dal/FilmLikesRepository.java:26-33 | a missing pair is "like not found"; otherwise exactly that pair is removed and every other like stays |
| FilmLikesRepository.RankByLikes | src/main/java/ru/yandex/practicum/filmorate/dal/FilmLikesRepository.java:35-42 | the ids returned form a ranking: min(count, films) distinct listed films in non-increasing like count, none left out more liked than one returned |
| FilmLikesRepository.GetPopularFilms | src/main/java/ru/yandex/practicum/filmorate/dal/FilmLikesRepository.java:35-59 | the films returned are a ranking of the films in the join, each read back from its row without genres |
| FilmLikesRepository.TopTwoOfThree | src/main/java/ru/yandex/practicum/filmorate/dal/FilmLikesRepository.java:35-42 | with 3, 5 and 0 likes the top two are, in order, the film with 5 and the film with 3, whatever the tie order |
| GenreRepository.LinkedIds | src/main/java/ru/yandex/practicum/filmorate/dal/GenreRepository.java:43-46 | the genre ids linked to a film are exactly the second components of its film_genres rows |
| GenreRepository.ReplaceLinks | src/main/java/ru/yandex/practicum/filmorate/dal/GenreRepository.java:18-29 | the table after the DELETE of the film's links and the batch INSERT: the film is linked to exactly the given genres, and the rows of other films are kept |
| GenreRepository.ReplaceLinksEffect | src/main/java/ru/yandex/practicum/filmorate/dal/GenreRepository.java:17-31 | after delete-then-insert, the film is linked to exactly the given genres and every other film keeps its links |
| GenreRepository.LinkedGenres | src/main/java/ru/yandex/practicum/filmorate/service/FilmService.java:152 | the joined genres of a film are exactly its links to known genres |
| GenreRepository.SaveFilmGenres | src/main/java/ru/yandex/practicum/filmorate/dal/GenreRepository.java:17-31 | the film's links become exactly the given genres, none for a null or empty set, and every other film's links are unchanged |
| GenreRepository.LoadGenresForFilms | src/main/java/ru/yandex/practicum/filmorate/dal/GenreRepository.java:33-62 | an empty list is returned unchanged; otherwise each film's genres become exactly the known genres linked to its id, the empty set when none, and nothing else about it changes |
| GenreRepository.JoinedRows | src/main/java/ru/yandex/practicum/filmorate/dal/GenreRepository.java:43-46 | the rows of the `IN (...)` join: grouped by film, each requested film gets exactly its links to known genres and any other film gets none |
| GenreRepository.GroupByFilm | src/main/java/ru/yandex/practicum/filmorate/dal/GenreRepository.java:48-56 | the result-set loop: a film has a group exactly when some row names it, and its group is exactly the genres of its rows |
| GenreRepository.LoadGenresForFilm | src/main/java/ru/yandex/practicum/filmorate/dal/GenreRepository.java:64-66 | the one-film load gives the film its linked genres, as loading the one-element list does |
| GenreRepository.ValidateGenresExist | src/main/java/ru/yandex/practicum/filmorate/dal/GenreRepository.java:68-78 | true exactly when every id is a known genre, the empty set included |
| GenreRepository.CountMatchesOnlyIfAllKnown | src/main/java/ru/yandex/practicum/filmorate/dal/GenreRepository.java:68-78 | the count of matching genre rows equals the number of ids exactly when every id is known |
| FilmDbStorage.GetFilmById | src/main/java/ru/yandex/practicum/filmorate/storage/film/FilmDbStorage.java:84-94 | a film is found exactly when its row exists with a known rating; otherwise NotFound for a film |
| FilmDbStorage.GetAllFilms | src/main/java/ru/yandex/practicum/filmorate/storage/film/FilmDbStorage.java:32-36 | one film per row of the join, each the same film getFilmById returns |
| FilmDbStorage.MpaExists | src/main/java/ru/yandex/practicum/filmorate/storage/film/FilmDbStorage.java:112-118 | passes exactly for a known rating id, otherwise NotFound for a rating |
| FilmDbStorage.AddFilm | src/main/java/ru/yandex/practicum/filmorate/storage/film/FilmDbStorage.java:38-61 | a null rating or rating 0 is a validation error, an unknown rating NotFound, a null date a null dereference, all storing nothing; otherwise the film gets the next positive key, no row is overwritten, and getFilmById then returns the same film without genres |
| FilmDbStorage.UpdateFilm | src/main/java/ru/yandex/practicum/filmorate/storage/film/FilmDbStorage.java:63-82 | a null rating is a null dereference, an unknown rating or an unmatched id NotFound, all with the table unchanged; otherwise only that row takes the new fields and getFilmById returns the film |
| FilmService.ValidateFilm | src/main/java/ru/yandex/practicum/filmorate/service/FilmService.java:124-133 | a null release date is rejected; a present one passes exactly when it is not before 28 December 1895 |
| FilmService.ReleaseDateBoundary | src/main/java/ru/yandex/practicum/filmorate/service/FilmService.java:129-132 | 28 December 1895 is accepted, 27 December 1895 and January 1895 are rejected, 1 January 1896 is accepted |
| FilmService.LaterReleaseStillValid | src/main/java/ru/yandex/practicum/filmorate/service/FilmService.java:129-132 | moving an accepted release date later keeps it accepted |
| FilmService.ValidateReferences | src/main/java/ru/yandex/practicum/filmorate/service/FilmService.java:40-45 | a null rating is a null dereference, an unknown rating NotFound; then it passes exactly when the genres are null or all known (agreeing with validateGenresExist), and fails with NotFound for a genre otherwise |
| FilmService.AddFilm | src/main/java/ru/yandex/practicum/filmorate/service/FilmService.java:38-47 | each failed check gives its own error and stores nothing; the film is stored exactly when all checks pass and the rating is not 0, under a fresh key with the counter moved on and every other row unchanged, and reads back unchanged without genres |
| FilmService.UpdateFilm | src/main/java/ru/yandex/practicum/filmorate/service/FilmService.java:49-58 | the same checks, then NotFound for an unknown id; otherwise exactly that row is replaced and reads back as the film without genres |
| FilmService.AddLike | src/main/java/ru/yandex/practicum/filmorate/service/FilmService.java:64-74 | NotFound for a film the storage cannot read, then for a missing user, both with likes unchanged; otherwise the pair is present afterwards and a duplicate is "already liked" |
| FilmService.RemoveLike | src/main/java/ru/yandex/practicum/filmorate/service/FilmService.java:76-86 | the same existence checks; otherwise the pair is absent afterwards and deleting nothing is "like not found" |
| FilmService.LikeThenUnlikeRestoresCounts | src/main/java/ru/yandex/practicum/filmorate/service/FilmService.java:68-85 | a new like followed by its removal leaves every film's like count as it was |
| FilmService.LoadFilmGenres | src/main/java/ru/yandex/practicum/filmorate/service/FilmService.java:151-158 | only the genres change, to exactly the known genres linked to the film |
| FilmService.GetPopularFilms | src/main/java/ru/yandex/practicum/filmorate/service/FilmService.java:88-122 | a count of 0 or less is rejected before any query; otherwise the films form a ranking of the listed films, each read from its row with its linked genres loaded |
| UserStorage.InMemoryUserStorage.constructor | src/main/java/ru/yandex/practicum/filmorate/storage/user/InMemoryUserStorage.java:16-17 | an empty store whose counter starts at 1 |
| UserStorage.InMemoryUserStorage.GetUserById | src/main/java/ru/yandex/practicum/filmorate/storage/user/InMemoryUserStorage.java:47-54 | the stored user for a known id, NotFound for a user otherwise |
| UserStorage.InMemoryUserStorage.AddUser | src/main/java/ru/yandex/practicum/filmorate/storage/user/InMemoryUserStorage.java:26-32 | the user gets the counter as id, the counter grows by one, no stored user is overwritten, the user can be read back and every earlier user still reads the same |
| UserStorage.InMemoryUserStorage.UpdateUser | src/main/java/ru/yandex/practicum/filmorate/storage/user/InMemoryUserStorage.java:35-44 | an unknown id is a validation error with the map unchanged; otherwise only that entry is replaced; the counter never changes |
| UserStorage.InMemoryUserStorage.GetAllUsers | src/main/java/ru/yandex/practicum/filmorate/storage/user/InMemoryUserStorage.java:20-23 | one element per stored user: as many as stored, each a stored user under its own id, no id twice |
| UserStorage.FirstUserGetsIdOne | src/main/java/ru/yandex/practicum/filmorate/storage/user/InMemoryUserStorage.java:17-32 | the first user added to a fresh store gets id 1 and is found under it |
| FilmStorage.InMemoryFilmStorage.constructor | src/main/java/ru/yandex/practicum/filmorate/storage/film/InMemoryFilmStorage.java:16-17 | an empty store whose counter starts at 1 |
| FilmStorage.InMemoryFilmStorage.GetFilmById | src/main/java/ru/yandex/practicum/filmorate/storage/film/InMemoryFilmStorage.java:47-54 | the stored film for a known id, NotFound for a film otherwise |
| FilmStorage.InMemoryFilmStorage.AddFilm | src/main/java/ru/yandex/practicum/filmorate/storage/film/InMemoryFilmStorage.java:26-32 | the film gets the counter as id, the counter grows by one, no stored film is overwritten, the film can be read back and every earlier film still reads the same |
| FilmStorage.InMemoryFilmStorage.UpdateFilm | src/main/java/ru/yandex/practicum/filmorate/storage/film/InMemoryFilmStorage.java:35-44 | an unknown id is a validation error with the map unchanged; otherwise only that entry is replaced; the counter never changes |
| FilmStorage.InMemoryFilmStorage.GetAllFilms | src/main/java/ru/yandex/practicum/filmorate/storage/film/InMemoryFilmStorage.java:20-23 | one element per stored film: as many as stored, each a stored film under its own id, no id twice |
| FilmStorage.FirstFilmGetsIdOne | src/main/java/ru/yandex/practicum/filmorate/storage/film/InMemoryFilmStorage.java:17-32 | the first film added to a fresh store gets id 1 and is found under it |

## Left out

- HTTP controllers and GlobalExceptionHandler: transport only. The mapping of exceptions to status codes is not modelled.
- Names of MPA ratings and genres, and MpaDbStorage, GenreDbStorage and ValidationRepository: the reference tables are fixed sets of ids.
- JDBC row mapping and SQL text: each statement is modelled by its effect on the tables.
- UserDbStorage is not part of this model. Storing a user after `UserService.WithDefaultName` (UserService.java:33, 40) and the service's getAllUsers/getUserById forwarders are not modelled beyond the existence check `UserService.FindUser`.
- FilmService.getAllFilms and getFilmById forward to FilmDbStorage and are modelled by `FilmDbStorage.GetAllFilms` and `FilmDbStorage.GetFilmById`.
- Foreign keys: the schema is not shown. Inserting a like, a friendship, or a `film_genres` link (`GenreRepository.SaveFilmGenres`) that refers to an unknown film, user or genre is modelled as succeeding, because those methods check nothing.
- Transactions, concurrency, and the gap between an existence check and the write that follows it.
- Row order of queries without ORDER BY, and the order among films with equal like counts.
- Java object identity: films and users are values. Setting the id or genres on the caller's object is modelled as returning the updated value, so aliasing between the caller and the in-memory maps is not captured.
- Bean Validation annotations on Film and User: a framework outside the code.
- UserStorage.InMemoryUserStorage.AddUser: does not model the 32-bit wrap-around of `nextId`, which would need more than 2^31 additions.
- FilmStorage.InMemoryFilmStorage.AddFilm: does not model the 32-bit wrap-around of `nextId`, for the same reason.
- FilmDbStorage.UpdateFilm: requires a release date. A null date would reach the database, and what happens then depends on a schema that is not shown. FilmService.UpdateFilm always validates the date first.
- FilmLikesRepository.GetPopularFilms: requires a count of at least 0, because the effect of a negative LIMIT depends on the database.
- FilmLikesRepository.RankByLikes: requires a count of at least 0, for the same reason.
