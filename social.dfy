/**
 * The user table, the friendship and block tables, and the pure parts of the user
 * service: lookups by username and the friend list of getFriends.
 */
module Social {
  import opened Outcomes

  /** A user row. `profilePhoto` is None until a photo is set. */
  datatype User = User(id: int, username: string, email: string, profilePhoto: Option<string>)

  /** A row of the friends table: `userId` added `friendId`. */
  datatype Friendship = Friendship(userId: int, friendId: int)

  /** A row of the blocked table. */
  datatype Block = Block(blockerId: int, blockedId: int)

  /** A friend as getFriends reports it. */
  datatype FriendView = FriendView(id: int, username: string, profilePhoto: Option<string>)

  /** The errors the user service throws. */
  datatype UserError =
    | UniqueViolation       // the store refuses a second user with the same username or email
    | UserNotFound          // 'User not found', or an update of a missing row
    | AlreadyFriends        // 'Already friends'
    | AlreadyBlocked        // 'Already blocked'
    | UsernameTaken         // 'Username is already taken'
    | ForeignKeyViolation   // a friendship naming a user that does not exist

  predicate NoDuplicates<T(==)>(s: seq<T>) {
    forall i, j :: 0 <= i < j < |s| ==> s[i] != s[j]
  }

  /** The two unique columns of the user table. */
  datatype Column = Username | Email

  /** The value a user row holds in a unique column. */
  function ValueIn(u: User, c: Column): string {
    match c
    case Username => u.username
    case Email => u.email
  }

  /**
   * The position of the user whose column `c` holds `value`, or -1: the lookup
   * `findUnique({ where: { username } })` and the store's uniqueness test on a column.
   */
  function FindBy(users: seq<User>, c: Column, value: string): (k: int)
    ensures -1 <= k < |users|
    ensures k >= 0 ==> ValueIn(users[k], c) == value
    ensures k == -1 <==> forall j :: 0 <= j < |users| ==> ValueIn(users[j], c) != value
  {
    if users == [] then -1
    else if ValueIn(users[0], c) == value then 0
    else
      var k := FindBy(users[1..], c, value);
      assert forall j :: 1 <= j < |users| ==> users[j] == users[1..][j - 1];
      if k == -1 then -1 else k + 1
  }

  /** `self.findIndex(f => f.id === x)`: the first position of `x` in `s`, or -1. */
  function FindIndex(s: seq<int>, x: int): (k: int)
    ensures -1 <= k < |s|
    ensures k >= 0 ==> s[k] == x && forall j :: 0 <= j < k ==> s[j] != x
    ensures k == -1 <==> x !in s
  {
    if s == [] then -1
    else if s[0] == x then 0
    else
      var k := FindIndex(s[1..], x);
      assert forall j :: 1 <= j < |s| ==> s[j] == s[1..][j - 1];
      if k == -1 then -1 else k + 1
  }

  /** `s.filter((x, index, self) => index === self.findIndex(...))` from position `i` on. */
  function KeepFrom(s: seq<int>, i: nat): (r: seq<int>)
    ensures |r| <= if i <= |s| then |s| - i else 0
    decreases |s| - i
  {
    if i >= |s| then []
    else (if FindIndex(s, s[i]) == i then [s[i]] else []) + KeepFrom(s, i + 1)
  }

  /** From position `i` on, the filter keeps exactly the values first occurring at `i` or later. */
  lemma {:induction false} KeepFromMembers(s: seq<int>, i: nat)
    requires i <= |s|
    ensures forall x :: x in KeepFrom(s, i) <==> x in s && FindIndex(s, x) >= i
    decreases |s| - i
  {
    if i < |s| {
      KeepFromMembers(s, i + 1);
      var head := if FindIndex(s, s[i]) == i then [s[i]] else [];
      assert KeepFrom(s, i) == head + KeepFrom(s, i + 1);
      forall x ensures x in KeepFrom(s, i) <==> x in s && FindIndex(s, x) >= i {
        if x in s && FindIndex(s, x) == i {
          assert s[i] == x;
          assert x in head;
        }
      }
    }
  }

  /** ... and keeps them in the order of their first occurrences. */
  lemma {:induction false} KeepFromOrder(s: seq<int>, i: nat)
    requires i <= |s|
    ensures forall a, b :: 0 <= a < b < |KeepFrom(s, i)| ==>
      FindIndex(s, KeepFrom(s, i)[a]) < FindIndex(s, KeepFrom(s, i)[b])
    decreases |s| - i
  {
    if i < |s| {
      KeepFromOrder(s, i + 1);
      KeepFromMembers(s, i + 1);
      var rest := KeepFrom(s, i + 1);
      if FindIndex(s, s[i]) == i {
        var r := [s[i]] + rest;
        assert KeepFrom(s, i) == r;
        forall a, b | 0 <= a < b < |r| ensures FindIndex(s, r[a]) < FindIndex(s, r[b]) {
          if a == 0 {
            assert r[b] == rest[b - 1] && r[b] in rest;
          } else {
            assert r[a] == rest[a - 1] && r[b] == rest[b - 1];
          }
        }
      }
    }
  }

  /**
   * The duplicate filter of getFriends: one copy of each value, the first, in the order of
   * first occurrence.
   */
  function FirstOccurrences(s: seq<int>): (r: seq<int>)
    ensures forall x :: x in r <==> x in s
    ensures NoDuplicates(r)
    ensures forall a, b :: 0 <= a < b < |r| ==> FindIndex(s, r[a]) < FindIndex(s, r[b])
  {
    KeepFromMembers(s, 0);
    KeepFromOrder(s, 0);
    KeepFrom(s, 0)
  }

  /** `friendsAsUser.map(f => f.friend)`: whom `u` added, in row order. */
  function Outgoing(fs: seq<Friendship>, u: int): (r: seq<int>)
    ensures forall x :: x in r <==> Friendship(u, x) in fs
  {
    if fs == [] then []
    else
      var n := |fs| - 1;
      assert forall f :: f in fs <==> f in fs[..n] || f == fs[n];
      Outgoing(fs[..n], u) + (if fs[n].userId == u then [fs[n].friendId] else [])
  }

  /** `friendsAsFriend.map(f => f.user)`: who added `u`, in row order. */
  function Incoming(fs: seq<Friendship>, u: int): (r: seq<int>)
    ensures forall x :: x in r <==> Friendship(x, u) in fs
  {
    if fs == [] then []
    else
      var n := |fs| - 1;
      assert forall f :: f in fs <==> f in fs[..n] || f == fs[n];
      Incoming(fs[..n], u) + (if fs[n].friendId == u then [fs[n].userId] else [])
  }

  /** The ids getFriends reports for `u`: both directions merged, first copy of each kept. */
  function FriendIds(fs: seq<Friendship>, u: int): (r: seq<int>)
    ensures forall x :: x in r <==> Friendship(u, x) in fs || Friendship(x, u) in fs
    ensures NoDuplicates(r)
  {
    FirstOccurrences(Outgoing(fs, u) + Incoming(fs, u))
  }

  /** `friends.map(friend => ({ id, username, profilePhoto }))` over the user rows of `ids`. */
  function FriendViews(ids: seq<int>, users: seq<User>): (r: seq<FriendView>)
    requires forall k :: 0 <= k < |ids| ==> 1 <= ids[k] <= |users|
    ensures |r| == |ids|
    ensures forall k :: 0 <= k < |r| ==>
      r[k] == FriendView(ids[k], users[ids[k] - 1].username, users[ids[k] - 1].profilePhoto)
  {
    seq(|ids|, k requires 0 <= k < |ids| =>
      FriendView(ids[k], users[ids[k] - 1].username, users[ids[k] - 1].profilePhoto))
  }

  /** In the friend list of `u`, the users `u` added come before those who added `u`. */
  lemma OutgoingFirst(fs: seq<Friendship>, u: int)
    ensures forall a, b :: 0 <= a < b < |FriendIds(fs, u)| && FriendIds(fs, u)[b] in Outgoing(fs, u) ==>
      FriendIds(fs, u)[a] in Outgoing(fs, u)
  {
    var out, s := Outgoing(fs, u), Outgoing(fs, u) + Incoming(fs, u);
    var r := FriendIds(fs, u);
    forall a, b | 0 <= a < b < |r| && r[b] in out ensures r[a] in out {
      assert r[a] in s && r[b] in s;
      var kb := FindIndex(out, r[b]);
      assert s[kb] == r[b];
      var ka := FindIndex(s, r[a]);
      assert ka < FindIndex(s, r[b]) <= kb;
      assert r[a] == s[ka] == out[ka];
    }
  }

  /** When every friendship names ids in 1..n, so does every friend list. */
  lemma FriendIdsInRange(fs: seq<Friendship>, u: int, n: int)
    requires forall f :: f in fs ==> 1 <= f.userId <= n && 1 <= f.friendId <= n
    ensures forall k :: 0 <= k < |FriendIds(fs, u)| ==> 1 <= FriendIds(fs, u)[k] <= n
  {
    var ids := FriendIds(fs, u);
    forall k | 0 <= k < |ids| ensures 1 <= ids[k] <= n {
      assert ids[k] in ids;
      assert Friendship(u, ids[k]) in fs || Friendship(ids[k], u) in fs;
    }
  }
}
