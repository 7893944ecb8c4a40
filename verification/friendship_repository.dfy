/**
  FriendshipRepository: the DAO variant of friendships. A friend is added
  already CONFIRMED, and confirming a request updates the requester's edge
  and inserts the reverse one. It checks no user for existence.
 */
module FriendshipRepository {
  import opened Domain
  import opened Database
  import opened Friendships

  /**
    The rows of `SELECT u.* FROM friendships f JOIN users u ON f.friend_id = u.user_id
    WHERE f.user_id = ? AND f.status_id = 2`, as a map from user_id to row.
   */
  function FriendRows(db: Db, userId: int): (rows: map<int, User>)
    reads db
    ensures rows.Keys == ConfirmedFrom(db.friendships, userId) * db.users.Keys
    ensures forall f :: f in rows ==> rows[f] == db.users[f]
  {
    map f | f in db.users && f in ConfirmedFrom(db.friendships, userId) :: db.users[f]
  }

  /** The rows of the double join: users at the far end of a CONFIRMED edge from each of the two users. */
  function CommonRows(db: Db, userId: int, otherUserId: int): (rows: map<int, User>)
    reads db
    ensures rows.Keys == FriendRows(db, userId).Keys * FriendRows(db, otherUserId).Keys
    ensures forall f :: f in rows ==> rows[f] == db.users[f]
  {
    map f | f in db.users
            && (userId, f) in db.friendships && db.friendships[(userId, f)] == CONFIRMED
            && (otherUserId, f) in db.friendships && db.friendships[(otherUserId, f)] == CONFIRMED
      :: db.users[f]
  }

  /**
    mapRowToUser over every row of a result: a NULL birthday makes
    `getDate("birthday").toLocalDate()` dereference null, which ends the whole query.
   */
  function MapUserRows(rows: map<int, User>): (r: Result<map<int, User>>)
    ensures r.Ok? <==> forall f :: f in rows ==> rows[f].birthday.Some?
    ensures r.Ok? ==> r.value == rows
    ensures r.Err? ==> r.error == NullReference
  {
    if forall f :: f in rows ==> rows[f].birthday.Some? then Ok(rows) else Err(NullReference)
  }

  /** getFriends: the users on the far end of userId's CONFIRMED edges, mapped row by row. */
  function GetFriends(db: Db, userId: int): (r: Result<map<int, User>>)
    reads db
    ensures r.Ok? <==> forall f :: f in ConfirmedFrom(db.friendships, userId) && f in db.users ==> db.users[f].birthday.Some?
    ensures r.Err? ==> r.error == NullReference
    ensures r.Ok? ==> r.value.Keys == ConfirmedFrom(db.friendships, userId) * db.users.Keys
    ensures r.Ok? ==> forall f :: f in r.value ==> r.value[f] == db.users[f]
  {
    MapUserRows(FriendRows(db, userId))
  }

  /** getCommonFriends: the users both userId and otherUserId list, mapped row by row. */
  function GetCommonFriends(db: Db, userId: int, otherUserId: int): (r: Result<map<int, User>>)
    reads db
    ensures r.Ok? <==> forall f :: f in FriendRows(db, userId) && f in FriendRows(db, otherUserId) ==> db.users[f].birthday.Some?
    ensures r.Err? ==> r.error == NullReference
    ensures r.Ok? ==> r.value.Keys == FriendRows(db, userId).Keys * FriendRows(db, otherUserId).Keys
    ensures r.Ok? ==> forall f :: f in r.value ==> r.value[f] == db.users[f]
  {
    MapUserRows(CommonRows(db, userId, otherUserId))
  }

  lemma CommonFriendsSymmetric(db: Db, a: int, b: int)
    ensures GetCommonFriends(db, a, b) == GetCommonFriends(db, b, a)
  {
    var ab, ba := CommonRows(db, a, b), CommonRows(db, b, a);
    assert ab.Keys == ba.Keys;
    assert ab == ba;
  }

  /** Rejects an existing (userId, friendId) edge; otherwise inserts it CONFIRMED. */
  method AddFriend(db: Db, userId: int, friendId: int) returns (r: Outcome)
    modifies db`friendships
    ensures (userId, friendId) in old(db.friendships) ==>
              r == Fail(Validation(AlreadyFriends)) && db.friendships == old(db.friendships)
    ensures (userId, friendId) !in old(db.friendships) ==>
              r == Pass && db.friendships == old(db.friendships)[(userId, friendId) := CONFIRMED]
    ensures r.Pass? && friendId in db.users ==> friendId in FriendRows(db, userId)
    ensures r.Pass? && friendId != userId ==> GetFriends(db, friendId) == old(GetFriends(db, friendId))
  {
    if (userId, friendId) in db.friendships {
      return Fail(Validation(AlreadyFriends));
    }
    ghost var before := db.friendships;
    db.friendships := db.friendships[(userId, friendId) := CONFIRMED];
    ConfirmedEdgeListsTarget(before, userId, friendId, userId);
    ConfirmedEdgeListsTarget(before, userId, friendId, friendId);
    r := Pass;
  }

  /** Deletes exactly the (userId, friendId) edge; deleting nothing is an error. */
  method RemoveFriend(db: Db, userId: int, friendId: int) returns (r: Outcome)
    modifies db`friendships
    ensures (userId, friendId) !in old(db.friendships) ==>
              r == Fail(Validation(FriendNotFound)) && db.friendships == old(db.friendships)
    ensures (userId, friendId) in old(db.friendships) ==>
              r == Pass && db.friendships == old(db.friendships) - {(userId, friendId)}
    ensures friendId !in FriendRows(db, userId)
    ensures forall x :: x != userId ==> ConfirmedFrom(db.friendships, x) == ConfirmedFrom(old(db.friendships), x)
  {
    ghost var before := db.friendships;
    if (userId, friendId) !in db.friendships {
      return Fail(Validation(FriendNotFound));
    }
    db.friendships := db.friendships - {(userId, friendId)};
    forall x | x != userId
      ensures ConfirmedFrom(db.friendships, x) == ConfirmedFrom(before, x)
    {
      DeletedEdgeUnlistsTarget(before, userId, friendId, x);
    }
    r := Pass;
  }

  /**
    userId accepts the PENDING request (friendId, userId): that edge becomes
    CONFIRMED and the reverse edge is inserted CONFIRMED. If the reverse edge
    already exists the insert fails after the update has been applied, and the
    failure is reported as the same "request not found" error.
   */
  method ConfirmFriend(db: Db, userId: int, friendId: int) returns (r: Outcome)
    modifies db`friendships
    ensures !((friendId, userId) in old(db.friendships) && old(db.friendships)[(friendId, userId)] == PENDING) ==>
              r == Fail(Validation(RequestNotFound)) && db.friendships == old(db.friendships)
    ensures (friendId, userId) in old(db.friendships) && old(db.friendships)[(friendId, userId)] == PENDING ==>
              if (userId, friendId) in old(db.friendships)
              then r == Fail(Validation(RequestNotFound))
                   && db.friendships == old(db.friendships)[(friendId, userId) := CONFIRMED]
              else r == Pass
                   && db.friendships == old(db.friendships)[(friendId, userId) := CONFIRMED][(userId, friendId) := CONFIRMED]
    ensures r.Pass? ==> userId in ConfirmedFrom(db.friendships, friendId) && friendId in ConfirmedFrom(db.friendships, userId)
    ensures r.Fail? ==> r.error == Validation(RequestNotFound)
  {
    if !((friendId, userId) in db.friendships && db.friendships[(friendId, userId)] == PENDING) {
      return Fail(Validation(RequestNotFound));
    }
    db.friendships := db.friendships[(friendId, userId) := CONFIRMED];
    if (userId, friendId) in db.friendships {
      // the INSERT violates the key of friendships
      return Fail(Validation(RequestNotFound));
    }
    db.friendships := db.friendships[(userId, friendId) := CONFIRMED];
    r := Pass;
  }

  /**
    The request-then-confirm scenario on this variant: a PENDING request row from
    a to b (the row UserService.addFriend inserts) lists nobody; b's confirmation
    through ConfirmFriend then makes the friendship mutual.
   */
  method RequestThenConfirmIsMutual(db: Db, a: int, b: int) returns (r: Outcome)
    requires a != b && (a, b) !in db.friendships && (b, a) !in db.friendships
    modifies db`friendships
    ensures var requested := old(db.friendships)[(a, b) := PENDING];
            b !in ConfirmedFrom(requested, a) && a !in ConfirmedFrom(requested, b)
    ensures r == Pass
    ensures b in ConfirmedFrom(db.friendships, a) && a in ConfirmedFrom(db.friendships, b)
  {
    db.friendships := db.friendships[(a, b) := PENDING];
    r := ConfirmFriend(db, b, a);
  }
}
