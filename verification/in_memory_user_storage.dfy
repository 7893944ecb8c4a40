/**
  InMemoryUserStorage: users in a hash map keyed by id, ids handed out by a
  counter that starts at 1.
 */
module UserStorage {
  import opened Domain

  class InMemoryUserStorage {
    var users: map<int, User>
    var nextId: int

    /** Every stored user sits under its own id, and every id is below the counter. */
    ghost predicate Valid()
      reads this
    {
      && 1 <= nextId
      && forall id :: id in users ==> 1 <= id < nextId && users[id].id == id
    }

    constructor ()
      ensures Valid()
      ensures users == map[] && nextId == 1
    {
      users := map[];
      nextId := 1;
    }

    /** getUserById: the stored user, or NotFound. */
    function GetUserById(id: int): (r: Result<User>)
      reads this
      ensures r.Ok? <==> id in users
      ensures r.Ok? ==> r.value == users[id]
      ensures r.Err? ==> r.error == NotFound(UserEntity)
    {
      if id in users then Ok(users[id]) else Err(NotFound(UserEntity))
    }

    /** addUser: the user takes the counter as id, the counter moves on, and no stored user is overwritten. */
    method AddUser(user: User) returns (added: User)
      requires Valid()
      modifies this
      ensures Valid()
      ensures added == user.(id := old(nextId))
      ensures added.id !in old(users)
      ensures users == old(users)[added.id := added]
      ensures nextId == old(nextId) + 1
      ensures GetUserById(added.id) == Ok(added)
      ensures forall id :: id in old(users) ==> GetUserById(id) == old(GetUserById(id))
    {
      added := user.(id := nextId);
      nextId := nextId + 1;
      users := users[added.id := added];
    }

    /** updateUser: an unknown id is a validation error; otherwise only that entry is replaced. */
    method UpdateUser(user: User) returns (r: Result<User>)
      modifies this
      ensures user.id !in old(users) ==> r == Err(Validation(UnknownUser)) && users == old(users)
      ensures user.id in old(users) ==> r == Ok(user) && users == old(users)[user.id := user]
      ensures nextId == old(nextId)
      ensures users.Keys == old(users.Keys)
      ensures old(Valid()) ==> Valid()
    {
      if user.id !in users {
        return Err(Validation(UnknownUser));
      }
      users := users[user.id := user];
      r := Ok(user);
    }

    /** getAllUsers: a list holding each stored user once, in no particular order. */
    method GetAllUsers() returns (all: seq<User>)
      requires Valid()
      ensures |all| == |users|
      ensures forall i :: 0 <= i < |all| ==> all[i].id in users && users[all[i].id] == all[i]
      ensures forall i, j :: 0 <= i < j < |all| ==> all[i].id != all[j].id
      ensures forall id :: id in users ==> users[id] in all
    {
      all := [];
      var rest := users.Keys;
      while rest != {}
        invariant rest <= users.Keys
        invariant |all| + |rest| == |users|
        invariant forall i :: 0 <= i < |all| ==> all[i].id in users && all[i].id !in rest && users[all[i].id] == all[i]
        invariant forall i, j :: 0 <= i < j < |all| ==> all[i].id != all[j].id
        invariant forall id :: id in users && id !in rest ==> users[id] in all
        decreases |rest|
      {
        if forall x :: x !in rest { assert false; }
        var id :| id in rest;
        all := all + [users[id]];
        rest := rest - {id};
      }
    }
  }

  /** On a fresh storage the first user added gets id 1 and can be read back. */
  method FirstUserGetsIdOne(user: User) returns (added: User, found: Result<User>)
    ensures added == user.(id := 1)
    ensures found == Ok(added)
  {
    var storage := new InMemoryUserStorage();
    added := storage.AddUser(user);
    found := storage.GetUserById(1);
  }
}
