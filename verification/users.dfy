/** The in-memory user list of src/userManager.ts: `User` records keyed by
    `userId`, and the three keyed edits `processCommand` makes to the list
    (append, splice out, rewrite in place). */
module Users {
  import opened Wrappers

  /** A stored record; `userpassword` holds the password's digest. */
  datatype User = User(userId: string, username: string, userpassword: string)

  /** `users.some(user => user.userId === id)`. */
  predicate Contains(users: seq<User>, id: string) {
    exists i | 0 <= i < |users| :: users[i].userId == id
  }

  /** `i` is the first position holding `id`. */
  ghost predicate IsFirst(users: seq<User>, id: string, i: nat) {
    && i < |users|
    && users[i].userId == id
    && forall j | 0 <= j < i :: users[j].userId != id
  }

  /** No two records share an id. */
  ghost predicate UniqueIds(users: seq<User>) {
    forall i, j | 0 <= i < j < |users| :: users[i].userId != users[j].userId
  }

  /** `users.findIndex(user => user.userId === id)`, with None for -1;
      `users.find` returns the record at the same position. */
  function FindIndex(users: seq<User>, id: string): (r: Option<nat>)
    ensures r.None? <==> !Contains(users, id)
    ensures r.Some? ==> IsFirst(users, id, r.value)
  {
    if users == [] then None
    else if users[0].userId == id then Some(0)
    else
      var rest := FindIndex(users[1..], id);
      if rest.None? then None else Some(rest.value + 1)
  }

  /** `users.push(user)` guarded by the duplicate check: None when the id
      is taken, otherwise the list grown by exactly `user` at the end. */
  function Append(users: seq<User>, user: User): (r: Option<seq<User>>)
    ensures r.None? <==> Contains(users, user.userId)
    ensures r.Some? ==> |r.value| == |users| + 1
    ensures r.Some? ==> r.value[..|users|] == users && r.value[|users|] == user
  {
    if Contains(users, user.userId) then None else Some(users + [user])
  }

  /** `users.splice(users.findIndex(...), 1)`: None when the id is absent,
      otherwise the list with its first record carrying `id` taken out and
      every other record kept in order; putting that record back where it
      was gives the original list. */
  function Remove(users: seq<User>, id: string): (r: Option<seq<User>>)
    ensures r.None? <==> !Contains(users, id)
    ensures r.Some? ==> |r.value| == |users| - 1
    ensures r.Some? ==>
      var i := FindIndex(users, id).value;
      && r.value[..i] == users[..i]
      && r.value[i..] == users[i + 1..]
      && users == r.value[..i] + [users[i]] + r.value[i..]
    ensures r.Some? ==> multiset(r.value) + multiset{users[FindIndex(users, id).value]} == multiset(users)
  {
    var found := FindIndex(users, id);
    if found.None? then None
    else
      var i := found.value;
      assert users == users[..i] + [users[i]] + users[i + 1..];
      Some(users[..i] + users[i + 1..])
  }

  /** The in-place edit of the record `users.find(...)` returns: None when
      the id is absent, otherwise the same list except that the first
      record carrying `id` has the new name and digest; every id stays
      where it was. */
  function Rewrite(users: seq<User>, id: string, name: string, digest: string): (r: Option<seq<User>>)
    ensures r.None? <==> !Contains(users, id)
    ensures r.Some? ==> |r.value| == |users|
    ensures r.Some? ==> forall j | 0 <= j < |users| :: r.value[j].userId == users[j].userId
    ensures r.Some? ==>
      var i := FindIndex(users, id).value;
      && r.value[i] == User(id, name, digest)
      && forall j | 0 <= j < |users| && j != i :: r.value[j] == users[j]
  {
    var found := FindIndex(users, id);
    if found.None? then None
    else
      var i := found.value;
      Some(users[i := users[i].(username := name, userpassword := digest)])
  }

  /** Appending a fresh id keeps ids unique, and the new id is then present. */
  lemma AppendKeepsUniqueIds(users: seq<User>, user: User)
    requires UniqueIds(users) && Append(users, user).Some?
    ensures UniqueIds(Append(users, user).value)
    ensures Contains(Append(users, user).value, user.userId)
  {
  }

  /** Removing a record keeps ids unique; with unique ids the removed id is
      then gone from the list entirely. */
  lemma RemoveKeepsUniqueIds(users: seq<User>, id: string)
    requires UniqueIds(users) && Remove(users, id).Some?
    ensures UniqueIds(Remove(users, id).value)
    ensures !Contains(Remove(users, id).value, id)
  {
  }

  /** Rewriting a record never changes an id, so ids stay unique. */
  lemma RewriteKeepsUniqueIds(users: seq<User>, id: string, name: string, digest: string)
    requires UniqueIds(users) && Rewrite(users, id, name, digest).Some?
    ensures UniqueIds(Rewrite(users, id, name, digest).value)
  {
  }
}
