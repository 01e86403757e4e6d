/**
 * The user service over an in-memory store: the user table in id order, the friends table
 * in row order and the set of block rows.
 */
module Users {
  import opened Outcomes
  import opened Social

  class UserService {
    /** User rows; the id of `users[i]` is i + 1 (autoincrement). */
    var users: seq<User>
    /** Friendship rows in creation order. */
    var friends: seq<Friendship>
    /** Block rows. */
    var blocked: set<Block>

    /**
     * The store invariant: row ids are positions + 1; usernames and emails are unique; a
     * friendship names two existing users and appears once.
     */
    ghost predicate Valid()
      reads this
    {
      && (forall i :: 0 <= i < |users| ==> users[i].id == i + 1)
      && (forall i, j :: 0 <= i < j < |users| ==> users[i].username != users[j].username)
      && (forall i, j :: 0 <= i < j < |users| ==> users[i].email != users[j].email)
      && (forall f :: f in friends ==> 1 <= f.userId <= |users| && 1 <= f.friendId <= |users|)
      && NoDuplicates(friends)
    }

    constructor ()
      ensures Valid()
      ensures users == [] && friends == [] && blocked == {}
    {
      users := [];
      friends := [];
      blocked := {};
    }

    /**
     * createUser(username, email): the store refuses a username or an email that some user
     * already has; otherwise the new user gets the next id and no photo.
     */
    method CreateUser(username: string, email: string) returns (r: Result<User, UserError>)
      requires Valid()
      modifies this`users
      ensures Valid()
      ensures r == Err(UniqueViolation) <==>
        exists k :: 0 <= k < |old(users)| && (old(users)[k].username == username || old(users)[k].email == email)
      ensures r.Err? ==> r.error == UniqueViolation && users == old(users)
      ensures r.Ok? ==>
        r.value == User(|old(users)| + 1, username, email, None) && users == old(users) + [r.value]
    {
      var byName, byEmail := FindBy(users, Username, username), FindBy(users, Email, email);
      if byName >= 0 || byEmail >= 0 {
        return Err(UniqueViolation);
      }
      var u := User(|users| + 1, username, email, None);
      users := users + [u];
      r := Ok(u);
    }

    /** getUserById(id): the stored user with this id, or UserNotFound. */
    function GetUserById(id: int): (r: Result<User, UserError>)
      reads this
      requires Valid()
      ensures r.Ok? <==> exists k :: 0 <= k < |users| && users[k].id == id
      ensures r.Ok? ==> r.value in users && r.value.id == id
      ensures r.Err? ==> r.error == UserNotFound
    {
      if 1 <= id <= |users| then Ok(users[id - 1]) else Err(UserNotFound)
    }

    /** getUserByUsername(name): the one stored user with this username, or UserNotFound. */
    function GetUserByUsername(name: string): (r: Result<User, UserError>)
      reads this
      requires Valid()
      ensures r.Ok? <==> exists k :: 0 <= k < |users| && users[k].username == name
      ensures r.Ok? ==> forall k :: 0 <= k < |users| && users[k].username == name ==> users[k] == r.value
      ensures r.Ok? ==> r.value in users
      ensures r.Err? ==> r.error == UserNotFound
    {
      var k := FindBy(users, Username, name);
      if k >= 0 then Ok(users[k]) else Err(UserNotFound)
    }

    /**
     * addFriend(userId, friendId): fails with AlreadyFriends when exactly this row exists
     * (the reverse row is not looked at); the row must name two existing users; otherwise
     * exactly this row is added.
     */
    method AddFriend(userId: int, friendId: int) returns (r: Outcome<UserError>)
      requires Valid()
      modifies this`friends
      ensures Valid()
      ensures Friendship(userId, friendId) in old(friends) ==> r == Fail(AlreadyFriends)
      ensures (Friendship(userId, friendId) !in old(friends) &&
               !(1 <= userId <= |users| && 1 <= friendId <= |users|)) ==> r == Fail(ForeignKeyViolation)
      ensures r.Fail? ==> friends == old(friends)
      ensures r.Pass? <==>
        Friendship(userId, friendId) !in old(friends) && 1 <= userId <= |users| && 1 <= friendId <= |users|
      ensures r.Pass? ==> friends == old(friends) + [Friendship(userId, friendId)]
    {
      var row := Friendship(userId, friendId);
      if row in friends {
        return Fail(AlreadyFriends);
      }
      if !(1 <= userId <= |users| && 1 <= friendId <= |users|) {
        return Fail(ForeignKeyViolation);
      }
      friends := friends + [row];
      r := Pass;
    }

    /**
     * blockUser(blockerId, blockedId): fails with AlreadyBlocked when exactly this row
     * exists; otherwise adds exactly this row.
     */
    method BlockUser(blockerId: int, blockedId: int) returns (r: Outcome<UserError>)
      requires Valid()
      modifies this`blocked
      ensures Valid()
      ensures r == Fail(AlreadyBlocked) <==> Block(blockerId, blockedId) in old(blocked)
      ensures r.Pass? <==> Block(blockerId, blockedId) !in old(blocked)
      ensures r.Fail? ==> blocked == old(blocked)
      ensures r.Pass? ==> blocked == old(blocked) + {Block(blockerId, blockedId)}
    {
      var row := Block(blockerId, blockedId);
      if row in blocked {
        return Fail(AlreadyBlocked);
      }
      blocked := blocked + {row};
      r := Pass;
    }

    /**
     * updateUsername(userId, newUsername): fails with UsernameTaken when another user holds
     * the name (keeping one's own name is allowed), then with UserNotFound for a missing
     * user; otherwise only that user's username changes.
     */
    method UpdateUsername(userId: int, newUsername: string) returns (r: Result<User, UserError>)
      requires Valid()
      modifies this`users
      ensures Valid()
      ensures (exists k :: 0 <= k < |old(users)| && old(users)[k].username == newUsername && old(users)[k].id != userId)
        ==> r == Err(UsernameTaken)
      ensures ((forall k :: 0 <= k < |old(users)| && old(users)[k].username == newUsername ==> old(users)[k].id == userId)
               && !(1 <= userId <= |old(users)|)) ==> r == Err(UserNotFound)
      ensures r.Ok? <==>
        (forall k :: 0 <= k < |old(users)| && old(users)[k].username == newUsername ==> old(users)[k].id == userId)
        && 1 <= userId <= |old(users)|
      ensures r.Err? ==> users == old(users)
      ensures r.Ok? ==>
        && 1 <= userId <= |old(users)|
        && r.value == old(users)[userId - 1].(username := newUsername)
        && users == old(users)[userId - 1 := r.value]
    {
      var k := FindBy(users, Username, newUsername);
      if k >= 0 && users[k].id != userId {
        return Err(UsernameTaken);
      }
      if !(1 <= userId <= |users|) {
        return Err(UserNotFound);
      }
      var u := users[userId - 1].(username := newUsername);
      users := users[userId - 1 := u];
      r := Ok(u);
    }

    /** updatePhoto(userId, newPhoto): only that user's profilePhoto changes. */
    method UpdatePhoto(userId: int, newPhoto: string) returns (r: Result<User, UserError>)
      requires Valid()
      modifies this`users
      ensures Valid()
      ensures !(1 <= userId <= |old(users)|) <==> r == Err(UserNotFound)
      ensures r.Ok? <==> 1 <= userId <= |old(users)|
      ensures r.Err? ==> users == old(users)
      ensures r.Ok? ==>
        && r.value == old(users)[userId - 1].(profilePhoto := Some(newPhoto))
        && users == old(users)[userId - 1 := r.value]
    {
      if !(1 <= userId <= |users|) {
        return Err(UserNotFound);
      }
      var u := users[userId - 1].(profilePhoto := Some(newPhoto));
      users := users[userId - 1 := u];
      r := Ok(u);
    }

    /**
     * getFriends(userId): UserNotFound for a missing user; otherwise the users this one
     * added followed by the users who added this one, each once, with the fields shown.
     */
    function GetFriends(userId: int): (r: Result<seq<FriendView>, UserError>)
      reads this
      requires Valid()
      ensures r.Err? <==> !(1 <= userId <= |users|)
      ensures r.Err? ==> r.error == UserNotFound
      ensures r.Ok? ==>
        && |r.value| == |FriendIds(friends, userId)|
        && forall k :: 0 <= k < |r.value| ==>
             var id := FriendIds(friends, userId)[k];
             1 <= id <= |users| &&
             r.value[k] == FriendView(id, users[id - 1].username, users[id - 1].profilePhoto)
    {
      if !(1 <= userId <= |users|) then Err(UserNotFound)
      else
        var ids := FriendIds(friends, userId);
        FriendIdsInRange(friends, userId, |users|);
        Ok(FriendViews(ids, users))
    }

    /**
     * The friend list of an existing user names each user related to it by a friendship
     * row, in either direction, exactly once, and nobody else.
     */
    lemma FriendsAreTheRelatedUsers(userId: int)
      requires Valid() && 1 <= userId <= |users|
      ensures forall id ::
        (exists k :: 0 <= k < |GetFriends(userId).value| && GetFriends(userId).value[k].id == id) <==>
        Friendship(userId, id) in friends || Friendship(id, userId) in friends
      ensures forall i, j :: 0 <= i < j < |GetFriends(userId).value| ==>
        GetFriends(userId).value[i].id != GetFriends(userId).value[j].id
    {
      var views, ids := GetFriends(userId).value, FriendIds(friends, userId);
      forall id ensures (exists k :: 0 <= k < |views| && views[k].id == id) <==> id in ids {
        if id in ids {
          var k :| 0 <= k < |ids| && ids[k] == id;
          assert views[k].id == id;
        }
      }
      forall i, j | 0 <= i < j < |views| ensures views[i].id != views[j].id {
        assert views[i].id == ids[i] && views[j].id == ids[j];
      }
    }
  }
}
