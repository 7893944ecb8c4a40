/**
  UserService: name defaulting, and the service variant of friendships. Both
  users must exist (NotFound otherwise) before the table is touched; a friend
  is added PENDING, and confirming updates the edges that exist and inserts none.
 */
module UserService {
  import opened Domain
  import opened Database
  import opened Friendships
  import FriendshipRepository

  /** addUser / updateUser: a null or blank name is replaced by the login before the user is stored. */
  function WithDefaultName(user: User): (r: User)
    ensures r == user.(name := r.name)
    ensures user.name.None? || IsBlank(user.name.value) ==> r.name == Some(user.login)
    ensures user.name.Some? && !IsBlank(user.name.value) ==> r == user
    ensures !IsBlank(user.login) ==> r.name.Some? && !IsBlank(r.name.value)
  {
    if user.name.None? || IsBlank(user.name.value) then user.(name := Some(user.login)) else user
  }

  lemma WithDefaultNameIdempotent(user: User)
    ensures WithDefaultName(WithDefaultName(user)) == WithDefaultName(user)
  {
  }

  /** userStorage.getUserById on the users table: NotFound for an unknown id. */
  function FindUser(db: Db, id: int): (r: Outcome)
    reads db
    ensures r.Pass? <==> id in db.users
    ensures r.Fail? ==> r.error == NotFound(UserEntity)
  {
    if id in db.users then Pass else Fail(NotFound(UserEntity))
  }

  /** Both users must exist; then an existing edge (userId, friendId) of any status is rejected, else a PENDING edge is inserted. */
  method AddFriend(db: Db, userId: int, friendId: int) returns (r: Outcome)
    modifies db`friendships
    ensures userId !in db.users || friendId !in db.users ==>
              r == Fail(NotFound(UserEntity)) && db.friendships == old(db.friendships)
    ensures userId in db.users && friendId in db.users && (userId, friendId) in old(db.friendships) ==>
              r == Fail(Validation(AlreadyFriends)) && db.friendships == old(db.friendships)
    ensures userId in db.users && friendId in db.users && (userId, friendId) !in old(db.friendships) ==>
              r == Pass && db.friendships == old(db.friendships)[(userId, friendId) := PENDING]
    ensures forall x :: ConfirmedFrom(db.friendships, x) == ConfirmedFrom(old(db.friendships), x)
  {
    r := FindUser(db, userId);
    if r.Fail? { return; }
    r := FindUser(db, friendId);
    if r.Fail? { return; }
    if (userId, friendId) in db.friendships {
      return Fail(Validation(AlreadyFriends));
    }
    ghost var before := db.friendships;
    db.friendships := db.friendships[(userId, friendId) := PENDING];
    forall x ensures ConfirmedFrom(db.friendships, x) == ConfirmedFrom(before, x) {
      PendingEdgeListsNobody(before, userId, friendId, x);
    }
  }

  /** Both users must exist; then the (userId, friendId) edge is deleted if present, silently otherwise. */
  method RemoveFriend(db: Db, userId: int, friendId: int) returns (r: Outcome)
    modifies db`friendships
    ensures userId !in db.users || friendId !in db.users ==>
              r == Fail(NotFound(UserEntity)) && db.friendships == old(db.friendships)
    ensures userId in db.users && friendId in db.users ==>
              r == Pass && db.friendships == old(db.friendships) - {(userId, friendId)}
    ensures r.Pass? && friendId != userId ==> ((friendId, userId) in db.friendships <==> (friendId, userId) in old(db.friendships))
    ensures r.Pass? ==> friendId !in ConfirmedFrom(db.friendships, userId)
  {
    r := FindUser(db, userId);
    if r.Fail? { return; }
    r := FindUser(db, friendId);
    if r.Fail? { return; }
    db.friendships := db.friendships - {(userId, friendId)};
  }

  /**
    The user must exist; then the users on the far end of userId's CONFIRMED
    edges, each row mapped like mapRowToUser (a NULL birthday dereferences null).
   */
  function GetFriends(db: Db, userId: int): (r: Result<map<int, User>>)
    reads db
    ensures userId !in db.users ==> r == Err(NotFound(UserEntity))
    ensures userId in db.users ==>
              (r.Ok? <==> forall f :: f in ConfirmedFrom(db.friendships, userId) && f in db.users ==> db.users[f].birthday.Some?)
    ensures userId in db.users && r.Err? ==> r.error == NullReference
    ensures r.Ok? ==> r.value.Keys == ConfirmedFrom(db.friendships, userId) * db.users.Keys
    ensures r.Ok? ==> forall f :: f in r.value ==> r.value[f] == db.users[f]
  {
    if userId !in db.users then Err(NotFound(UserEntity))
    else FriendshipRepository.MapUserRows(FriendshipRepository.FriendRows(db, userId))
  }

  /** Both users must exist; then the users both of them list as confirmed friends, mapped row by row. */
  function GetCommonFriends(db: Db, userId: int, otherUserId: int): (r: Result<map<int, User>>)
    reads db
    ensures userId !in db.users || otherUserId !in db.users ==> r == Err(NotFound(UserEntity))
    ensures userId in db.users && otherUserId in db.users ==>
              (r.Ok? <==> forall f :: (f in ConfirmedFrom(db.friendships, userId) && f in ConfirmedFrom(db.friendships, otherUserId)
                                       && f in db.users) ==> db.users[f].birthday.Some?)
    ensures userId in db.users && otherUserId in db.users && r.Err? ==> r.error == NullReference
    ensures r.Ok? ==> r.value.Keys == ConfirmedFrom(db.friendships, userId) * ConfirmedFrom(db.friendships, otherUserId) * db.users.Keys
    ensures r.Ok? ==> forall f :: f in r.value ==> r.value[f] == db.users[f]
  {
    if userId !in db.users || otherUserId !in db.users then Err(NotFound(UserEntity))
    else FriendshipRepository.MapUserRows(FriendshipRepository.CommonRows(db, userId, otherUserId))
  }

  /**
    userId accepts the request from friendId: both users must exist, and the
    edge (friendId, userId) must be PENDING; then every existing edge between
    the two becomes CONFIRMED and nothing is inserted.
   */
  method ConfirmFriend(db: Db, userId: int, friendId: int) returns (r: Outcome)
    modifies db`friendships
    ensures userId !in db.users || friendId !in db.users ==>
              r == Fail(NotFound(UserEntity)) && db.friendships == old(db.friendships)
    ensures userId in db.users && friendId in db.users
            && !((friendId, userId) in old(db.friendships) && old(db.friendships)[(friendId, userId)] == PENDING) ==>
              r == Fail(Validation(RequestNotFound)) && db.friendships == old(db.friendships)
    ensures userId in db.users && friendId in db.users
            && (friendId, userId) in old(db.friendships) && old(db.friendships)[(friendId, userId)] == PENDING ==>
              r == Pass && db.friendships == ConfirmEither(old(db.friendships), userId, friendId)
    ensures db.friendships.Keys == old(db.friendships.Keys)
    ensures r.Pass? ==> userId in ConfirmedFrom(db.friendships, friendId)
    ensures r.Pass? ==> (friendId in ConfirmedFrom(db.friendships, userId) <==> (userId, friendId) in old(db.friendships))
  {
    r := FindUser(db, userId);
    if r.Fail? { return; }
    r := FindUser(db, friendId);
    if r.Fail? { return; }
    if !((friendId, userId) in db.friendships && db.friendships[(friendId, userId)] == PENDING) {
      return Fail(Validation(RequestNotFound));
    }
    ghost var before := db.friendships;
    db.friendships := ConfirmEither(db.friendships, userId, friendId);
    ConfirmEitherLists(before, userId, friendId, userId);
  }

  /**
    The request-then-confirm scenario on this variant: a requests b, then b confirms. b is
    now among a's friends, but a is not among b's, because this variant never
    inserts the reverse edge.
   */
  lemma RequestThenConfirmIsOneWay(rel: Relation, a: int, b: int)
    requires a != b && (a, b) !in rel && (b, a) !in rel
    ensures var requested := rel[(a, b) := PENDING];
            var confirmed := ConfirmEither(requested, b, a);
            && ConfirmedFrom(requested, a) == ConfirmedFrom(rel, a)
            && b in ConfirmedFrom(confirmed, a)
            && a !in ConfirmedFrom(confirmed, b)
  {
    var requested := rel[(a, b) := PENDING];
    PendingEdgeListsNobody(rel, a, b, a);
    ConfirmEitherLists(requested, b, a, a);
  }
}
