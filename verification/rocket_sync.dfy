/**
 * `RocketChatConnection.sync_users` of cosinnus_message/rocket_chat.py: the
 * remote Rocket.Chat user list is indexed by username, then every active
 * local user is compared with its remote counterpart and the remote calls
 * that bring the remote side up to date are issued, user by user.
 *
 * The Rocket.Chat client is modelled by the calls the pass issues, in order.
 * The one call whose answer the pass reads, the avatar lookup, is an oracle
 * `avatarOf` from username to avatar URL; the lookup itself is recorded as a
 * `GetAvatar` call so that when it happens is part of the outcome.
 */
module RocketSync {

  /** The fields of a remote user entry that the pass reads. */
  datatype RemoteUser = RemoteUser(username: string, name: string, emails: seq<string>)

  /** A local user; `fullName` is `get_full_name()`, `avatarUrl` is `avatar.url`. */
  datatype LocalUser = LocalUser(username: string, email: string, fullName: string, avatarUrl: string, active: bool)

  /** A Rocket.Chat client call. */
  datatype Call =
    | GetAvatar(username: string)
    | UsersUpdate(username: string, name: string, email: string)
    | UsersCreate(email: string, name: string, username: string)
    | SetAvatar(url: string)

  // --- the index by username ---------------------------------------------------

  /** `dict((u['username'], u) for u in users)`: built left to right, so a later entry overwrites. */
  function Index(remote: seq<RemoteUser>): map<string, RemoteUser>
  {
    if remote == [] then map[]
    else
      var last := remote[|remote| - 1];
      Index(remote[..|remote| - 1])[last.username := last]
  }

  /** Every remote username is a key, and an entry no later entry shadows is the one stored. */
  lemma {:induction false} IndexHas(remote: seq<RemoteUser>, j: nat)
    requires j < |remote|
    ensures remote[j].username in Index(remote)
    ensures (forall j' :: j < j' < |remote| ==> remote[j'].username != remote[j].username)
            ==> Index(remote)[remote[j].username] == remote[j]
  {
    if j < |remote| - 1 {
      IndexHas(remote[..|remote| - 1], j);
    }
  }

  /**
   * Every key comes from the list, and the entry stored under it is the last
   * one with that username.
   */
  lemma {:induction false} IndexLastWins(remote: seq<RemoteUser>, name: string) returns (j: nat)
    requires name in Index(remote)
    ensures j < |remote| && remote[j] == Index(remote)[name] && remote[j].username == name
    ensures forall j' :: j < j' < |remote| ==> remote[j'].username != name
  {
    var last := remote[|remote| - 1];
    if last.username == name {
      j := |remote| - 1;
    } else {
      var front := remote[..|remote| - 1];
      j := IndexLastWins(front, name);
      assert remote[j] == front[j];
      forall j' | j < j' < |remote|
        ensures remote[j'].username != name
      {
        if j' < |remote| - 1 {
          assert remote[j'] == front[j'];
        }
      }
    }
  }

  // --- the comparison of one user ----------------------------------------------

  /**
   * Whether the remote entry is out of date: its addresses lack the local
   * email, or its name or its avatar differ.
   */
  predicate Changed(u: LocalUser, r: RemoteUser, avatarOf: string -> string)
  {
    u.email !in r.emails || u.fullName != r.name || u.avatarUrl != avatarOf(u.username)
  }

  /** The calls the pass issues for one active local user. */
  function UserCalls(u: LocalUser, index: map<string, RemoteUser>, avatarOf: string -> string): seq<Call>
  {
    if u.username in index then
      var r := index[u.username];
      var update := [UsersUpdate(u.username, u.fullName, u.email), SetAvatar(u.avatarUrl)];
      if u.email !in r.emails then update
      else if u.fullName != r.name then update
      else [GetAvatar(u.username)] + (if u.avatarUrl != avatarOf(u.username) then update else [])
    else [UsersCreate(u.email, u.fullName, u.username), SetAvatar(u.avatarUrl)]
  }

  /** The calls for one local user: none when inactive (the query filters on `is_active`). */
  function Block(u: LocalUser, index: map<string, RemoteUser>, avatarOf: string -> string): seq<Call>
  {
    if u.active then UserCalls(u, index, avatarOf) else []
  }

  /** The calls for a sequence of local users, in order. */
  function Calls(users: seq<LocalUser>, index: map<string, RemoteUser>, avatarOf: string -> string): seq<Call>
  {
    if users == [] then []
    else Block(users[0], index, avatarOf) + Calls(users[1..], index, avatarOf)
  }

  /**
   * Each active user yields exactly one outcome: a create followed by its
   * avatar when the username is not indexed; an update followed by its
   * avatar when the remote entry is out of date; nothing but the avatar
   * lookup otherwise.
   */
  lemma OneOutcomePerUser(u: LocalUser, index: map<string, RemoteUser>, avatarOf: string -> string)
    ensures var c := UserCalls(u, index, avatarOf);
            && (u.username !in index ==>
                  c == [UsersCreate(u.email, u.fullName, u.username), SetAvatar(u.avatarUrl)])
            && (u.username in index && Changed(u, index[u.username], avatarOf) ==>
                  2 <= |c| <= 3
                  && c[|c| - 2..] == [UsersUpdate(u.username, u.fullName, u.email), SetAvatar(u.avatarUrl)]
                  && forall a :: a in c ==> !a.UsersCreate?)
            && (u.username in index && !Changed(u, index[u.username], avatarOf) ==>
                  c == [GetAvatar(u.username)])
  {
  }

  /** The avatar is looked up exactly when the user is indexed and email and name already match. */
  lemma AvatarLookedUpOnlyOnMatch(u: LocalUser, index: map<string, RemoteUser>, avatarOf: string -> string)
    ensures GetAvatar(u.username) in UserCalls(u, index, avatarOf) <==>
              u.username in index && u.email in index[u.username].emails && u.fullName == index[u.username].name
  {
  }

  // --- the whole pass ----------------------------------------------------------

  /** The calls of a prefix of the users come before those of the rest. */
  lemma {:induction false} CallsAppend(users: seq<LocalUser>, more: seq<LocalUser>, index: map<string, RemoteUser>, avatarOf: string -> string)
    ensures Calls(users + more, index, avatarOf) == Calls(users, index, avatarOf) + Calls(more, index, avatarOf)
  {
    if users == [] {
      assert users + more == more;
    } else {
      assert (users + more)[1..] == users[1..] + more;
      CallsAppend(users[1..], more, index, avatarOf);
    }
  }

  /** One more user adds that user's block at the end. */
  lemma CallsSnoc(users: seq<LocalUser>, u: LocalUser, index: map<string, RemoteUser>, avatarOf: string -> string)
    ensures Calls(users + [u], index, avatarOf) == Calls(users, index, avatarOf) + Block(u, index, avatarOf)
  {
    CallsAppend(users, [u], index, avatarOf);
    assert [u][1..] == [];
  }

  /** The users are processed in order: user `i`'s calls sit between those of the users before and after it. */
  lemma InOrder(users: seq<LocalUser>, i: nat, index: map<string, RemoteUser>, avatarOf: string -> string)
    requires i < |users|
    ensures Calls(users, index, avatarOf) ==
              Calls(users[..i], index, avatarOf)
              + Block(users[i], index, avatarOf)
              + Calls(users[i + 1..], index, avatarOf)
  {
    var before, from := users[..i], users[i..];
    calc {
      Calls(users, index, avatarOf);
      { assert users == before + from; }
      Calls(before + from, index, avatarOf);
      { CallsAppend(before, from, index, avatarOf); }
      Calls(before, index, avatarOf) + Calls(from, index, avatarOf);
      { assert from[0] == users[i] && from[1..] == users[i + 1..]; }
      Calls(before, index, avatarOf) + (Block(users[i], index, avatarOf) + Calls(users[i + 1..], index, avatarOf));
    }
  }

  /** A create or update in one user's calls is for that user. */
  lemma CallsAreForTheUser(u: LocalUser, index: map<string, RemoteUser>, avatarOf: string -> string)
    ensures forall a :: a in UserCalls(u, index, avatarOf) && a.UsersCreate? ==>
              a == UsersCreate(u.email, u.fullName, u.username) && u.username !in index
    ensures forall a :: a in UserCalls(u, index, avatarOf) && a.UsersUpdate? ==>
              a == UsersUpdate(u.username, u.fullName, u.email) && u.username in index
  {
  }

  /**
   * Every active user whose username is not indexed is created, and every
   * create is for such a user; every update is for an indexed username.
   */
  lemma {:induction false} CreatesAndUpdates(users: seq<LocalUser>, index: map<string, RemoteUser>, avatarOf: string -> string)
    ensures forall i :: 0 <= i < |users| && users[i].active && users[i].username !in index ==>
              UsersCreate(users[i].email, users[i].fullName, users[i].username) in Calls(users, index, avatarOf)
    ensures forall a :: a in Calls(users, index, avatarOf) && a.UsersCreate? ==>
              a.username !in index && exists i :: 0 <= i < |users| && users[i].active && users[i].username == a.username
    ensures forall a :: a in Calls(users, index, avatarOf) && a.UsersUpdate? ==> a.username in index
  {
    if users != [] {
      var u := users[0];
      var rest := users[1..];
      var block := Block(u, index, avatarOf);
      var after := Calls(rest, index, avatarOf);
      CreatesAndUpdates(rest, index, avatarOf);
      CallsAreForTheUser(u, index, avatarOf);
      assert Calls(users, index, avatarOf) == block + after;
      forall i | 0 <= i < |users| && users[i].active && users[i].username !in index
        ensures UsersCreate(users[i].email, users[i].fullName, users[i].username) in block + after
      {
        if i > 0 {
          assert users[i] == rest[i - 1];
        } else {
          assert block == [UsersCreate(u.email, u.fullName, u.username), SetAvatar(u.avatarUrl)];
        }
      }
      forall a: Call | a in block + after && a.UsersCreate?
        ensures a.username !in index && exists i :: 0 <= i < |users| && users[i].active && users[i].username == a.username
      {
        if a in after {
          var i :| 0 <= i < |rest| && rest[i].active && rest[i].username == a.username;
          assert users[i + 1] == rest[i];
        } else {
          assert a in block && u.active;
          assert users[0].username == a.username;
        }
      }
    }
  }

  /** `dict((u['username'], u) for u in users)`, entry by entry. */
  method IndexByUsername(remote: seq<RemoteUser>) returns (index: map<string, RemoteUser>)
    ensures index == Index(remote)
  {
    index := map[];
    var k := 0;
    while k < |remote|
      invariant 0 <= k <= |remote|
      invariant index == Index(remote[..k])
    {
      index := index[remote[k].username := remote[k]];
      assert remote[..k + 1][..k] == remote[..k];
      k := k + 1;
    }
    assert remote[..k] == remote;
  }

  /** The loop body for one active user: compare step by step, then update or create. */
  method SyncUser(user: LocalUser, index: map<string, RemoteUser>, avatarOf: string -> string) returns (calls: seq<Call>)
    ensures calls == UserCalls(user, index, avatarOf)
  {
    calls := [];
    if user.username in index {
      var rocketUser := index[user.username];
      var changed := false;
      if user.email !in rocketUser.emails {
        changed := true;
      } else if user.fullName != rocketUser.name {
        changed := true;
      } else {
        calls := calls + [GetAvatar(user.username)];
        var rocketAvatarUrl := avatarOf(user.username);
        if user.avatarUrl != rocketAvatarUrl {
          changed := true;
        }
      }
      if changed {
        calls := calls + [UsersUpdate(user.username, user.fullName, user.email)];
        calls := calls + [SetAvatar(user.avatarUrl)];
      }
    } else {
      calls := calls + [UsersCreate(user.email, user.fullName, user.username)];
      calls := calls + [SetAvatar(user.avatarUrl)];
    }
  }

  /**
   * The pass: index the remote users, then walk the active local users in
   * order, issuing each one's calls.
   */
  method SyncUsers(remote: seq<RemoteUser>, users: seq<LocalUser>, avatarOf: string -> string) returns (calls: seq<Call>)
    ensures calls == Calls(users, Index(remote), avatarOf)
  {
    var index := IndexByUsername(remote);
    calls := [];
    var i := 0;
    while i < |users|
      invariant 0 <= i <= |users|
      invariant calls == Calls(users[..i], index, avatarOf)
    {
      var user := users[i];
      assert users[..i + 1] == users[..i] + [user];
      CallsSnoc(users[..i], user, index, avatarOf);
      if user.active {
        var userCalls := SyncUser(user, index, avatarOf);
        calls := calls + userCalls;
      }
      i := i + 1;
    }
    assert users[..i] == users;
  }
}
