/** `processCommand` of src/userManager.ts as a pure step: one input line and
    the current user list in; the reply, the new list and whether the list
    was written back to the file out. */
module Interpreter {
  import opened Text
  import opened Grammar
  import opened Commands
  import opened Users
  import opened Passwords

  /** What one command produces: the string `processCommand` resolves to,
      the user list afterwards, and whether `writeUsersFile` was called. */
  datatype Outcome = Outcome(message: string, users: seq<User>, saved: bool)

  const AddedMessage: string := "User added successfully."
  const DeletedMessage: string := "User deleted successfully."
  const UpdatedMessage: string := "User updated successfully."
  const UnknownMessage: string := "Unknown command."

  function AlreadyExistsMessage(id: string): string {
    "Error: User with ID " + id + " already exists."
  }

  function DoesNotExistMessage(id: string): string {
    "Error: User with ID " + id + " does not exist."
  }

  /** The usage error for a keyword whose arguments are incomplete, e.g.
      `Error: Incomplete Deleting command. Usage: Deleting <userId>`. */
  function UsageMessage(k: Keyword): string {
    "Error: Incomplete " + k.Word() + " command. Usage: " + k.Word() + Placeholders(k)
  }

  function Placeholders(k: Keyword): string {
    if k == Delete then " <userId>" else " <userId> <username> <userpassword>"
  }

  /** The request reaches a write: an add with a fresh id, or a delete or an
      update whose id is present. */
  predicate Mutates(request: Request, users: seq<User>) {
    match request
    case Adding(id, _, _) => !Contains(users, id)
    case Deleting(id) => Contains(users, id)
    case Updating(id, _, _) => Contains(users, id)
    case _ => false
  }

  /** The branch of `processCommand` taken for an already classified
      request. The list is written back exactly when a mutating branch
      succeeds, and whenever nothing is written the list is left as it was. */
  function Execute(hash: string -> string, request: Request, users: seq<User>): (o: Outcome)
    ensures o.saved <==> Mutates(request, users)
    ensures !o.saved ==> o.users == users
  {
    match request
    case Adding(id, name, password) =>
      var r := Append(users, User(id, name, HashPassword(hash, password)));
      if r.None? then Outcome(AlreadyExistsMessage(id), users, false)
      else Outcome(AddedMessage, r.value, true)
    case Deleting(id) =>
      var r := Remove(users, id);
      if r.None? then Outcome(DoesNotExistMessage(id), users, false)
      else Outcome(DeletedMessage, r.value, true)
    case Updating(id, name, password) =>
      var r := Rewrite(users, id, name, HashPassword(hash, password));
      if r.None? then Outcome(DoesNotExistMessage(id), users, false)
      else Outcome(UpdatedMessage, r.value, true)
    case Quitting => Outcome(QuitWord, users, false)
    case Incomplete(k) => Outcome(UsageMessage(k), users, false)
    case Unknown => Outcome(UnknownMessage, users, false)
  }

  /** One call of `processCommand`: classify the line, then take its branch. */
  function Step(hash: string -> string, line: string, users: seq<User>): (o: Outcome)
    ensures o.saved <==> Mutates(Classify(line), users)
    ensures !o.saved ==> o.users == users
  {
    Execute(hash, Classify(line), users)
  }

  /** Only the quit request replies `Quit`: every other reply is longer. */
  lemma QuitReplyOnlyForQuitRequest(hash: string -> string, request: Request, users: seq<User>)
    ensures Execute(hash, request, users).message == QuitWord <==> request.Quitting?
  {
  }

  /** The read loop stops when the reply is `Quit`, and only the exact line
      `Quit` produces that reply: no other reply can be mistaken for it. */
  lemma QuitReplyOnlyForQuit(hash: string -> string, line: string, users: seq<User>)
    ensures Step(hash, line, users).message == QuitWord <==> line == QuitWord
  {
  }

  /** Adding a fresh id appends exactly one record, carrying the digest of
      the password (which validates against it), keeps every earlier record,
      reports success and saves. */
  lemma AddFresh(hash: string -> string, gaps: seq<string>, id: string, name: string, password: string, users: seq<User>)
    requires Spaced(gaps, [id, name, password]) && !Contains(users, id)
    ensures var o := Step(hash, Add.Word() + Interleave(gaps, [id, name, password]), users);
      && o == Outcome(AddedMessage, users + [User(id, name, HashPassword(hash, password))], true)
      && ValidatePassword(hash, password, o.users[|users|].userpassword)
  {
    SpelledOutLineIsClassified(Add, gaps, [id, name, password]);
  }

  /** Adding an id that is already present is refused: the list is
      unchanged, nothing is saved, and the reply names the id. */
  lemma AddDuplicate(hash: string -> string, gaps: seq<string>, id: string, name: string, password: string, users: seq<User>)
    requires Spaced(gaps, [id, name, password]) && Contains(users, id)
    ensures Step(hash, Add.Word() + Interleave(gaps, [id, name, password]), users)
      == Outcome(AlreadyExistsMessage(id), users, false)
  {
    SpelledOutLineIsClassified(Add, gaps, [id, name, password]);
  }

  /** Deleting a present id removes exactly the first record with that id:
      one record shorter, the others in their order, reports success and
      saves. */
  lemma DeletePresent(hash: string -> string, gaps: seq<string>, id: string, users: seq<User>)
    requires Spaced(gaps, [id]) && Contains(users, id)
    ensures var o := Step(hash, Delete.Word() + Interleave(gaps, [id]), users);
      var i := FindIndex(users, id).value;
      && o.message == DeletedMessage && o.saved
      && |o.users| == |users| - 1
      && o.users == users[..i] + users[i + 1..]
      && users[i].userId == id
      && multiset(o.users) + multiset{users[i]} == multiset(users)
  {
    SpelledOutLineIsClassified(Delete, gaps, [id]);
    var i := FindIndex(users, id).value;
    var r := Remove(users, id).value;
    assert r == r[..i] + r[i..];
  }

  /** Deleting an absent id is refused: the list is unchanged, nothing is
      saved, and the reply names the id. */
  lemma DeleteAbsent(hash: string -> string, gaps: seq<string>, id: string, users: seq<User>)
    requires Spaced(gaps, [id]) && !Contains(users, id)
    ensures Step(hash, Delete.Word() + Interleave(gaps, [id]), users)
      == Outcome(DoesNotExistMessage(id), users, false)
  {
    SpelledOutLineIsClassified(Delete, gaps, [id]);
  }

  /** Updating a present id rewrites only the name and digest of the first
      record with that id; its id, the length and every other record stay
      as they were; the reply reports success and the list is saved. */
  lemma UpdatePresent(hash: string -> string, gaps: seq<string>, id: string, name: string, password: string, users: seq<User>)
    requires Spaced(gaps, [id, name, password]) && Contains(users, id)
    ensures var o := Step(hash, Update.Word() + Interleave(gaps, [id, name, password]), users);
      var i := FindIndex(users, id).value;
      && o.message == UpdatedMessage && o.saved
      && |o.users| == |users|
      && o.users[i] == users[i].(username := name, userpassword := HashPassword(hash, password))
      && (forall j | 0 <= j < |users| && j != i :: o.users[j] == users[j])
  {
    SpelledOutLineIsClassified(Update, gaps, [id, name, password]);
  }

  /** Updating an absent id is refused: the list is unchanged, nothing is
      saved, and the reply names the id. */
  lemma UpdateAbsent(hash: string -> string, gaps: seq<string>, id: string, name: string, password: string, users: seq<User>)
    requires Spaced(gaps, [id, name, password]) && !Contains(users, id)
    ensures Step(hash, Update.Word() + Interleave(gaps, [id, name, password]), users)
      == Outcome(DoesNotExistMessage(id), users, false)
  {
    SpelledOutLineIsClassified(Update, gaps, [id, name, password]);
  }

  /** A line that matches none of the three grammars never touches the
      list and never saves; its reply is `Quit` for the exact line `Quit`,
      the usage message of the keyword it starts with, if any, and
      `Unknown command.` otherwise. */
  lemma UnmatchedLineIsNoOp(hash: string -> string, line: string, users: seq<User>)
    requires forall k: Keyword :: Match(line, k).None?
    ensures var o := Step(hash, line, users);
      && o.users == users && !o.saved
      && (line == QuitWord ==> o.message == QuitWord)
      && (forall k: Keyword :: StartsWith(line, k.Word()) ==> o.message == UsageMessage(k))
      && (line != QuitWord && (forall k: Keyword :: !StartsWith(line, k.Word())) ==> o.message == UnknownMessage)
  {
  }

  /** Unique ids stay unique through every command: an add only appends a
      fresh id, a delete only removes a record, an update never changes an
      id. */
  lemma StepKeepsUniqueIds(hash: string -> string, line: string, users: seq<User>)
    requires UniqueIds(users)
    ensures UniqueIds(Step(hash, line, users).users)
  {
  }

  /** The save follows the branch, not a change of value: an update that
      writes back the name and digest a record already has leaves the list
      equal to what it was, yet it is still saved. */
  lemma UpdateToSameValuesStillSaves(hash: string -> string, gaps: seq<string>, id: string, name: string, password: string, users: seq<User>)
    requires Spaced(gaps, [id, name, password]) && Contains(users, id)
    requires users[FindIndex(users, id).value].username == name
    requires users[FindIndex(users, id).value].userpassword == HashPassword(hash, password)
    ensures var o := Step(hash, Update.Word() + Interleave(gaps, [id, name, password]), users);
      o.saved && o.users == users
  {
    UpdatePresent(hash, gaps, id, name, password, users);
    var o := Step(hash, Update.Word() + Interleave(gaps, [id, name, password]), users);
    assert forall j | 0 <= j < |users| :: o.users[j] == users[j];
  }

  /** Adding a fresh id and then deleting it gives back the original list,
      with a save after each command (`Adding u1 alice secret` then
      `Deleting u1` on an empty store leaves it empty). */
  lemma AddThenDeleteRestores(hash: string -> string, addGaps: seq<string>, deleteGaps: seq<string>, id: string, name: string, password: string, users: seq<User>)
    requires Spaced(addGaps, [id, name, password]) && Spaced(deleteGaps, [id]) && !Contains(users, id)
    ensures var added := Step(hash, Add.Word() + Interleave(addGaps, [id, name, password]), users);
      var deleted := Step(hash, Delete.Word() + Interleave(deleteGaps, [id]), added.users);
      added.saved && deleted.saved && deleted.users == users
  {
    AddFresh(hash, addGaps, id, name, password, users);
    var user := User(id, name, HashPassword(hash, password));
    var grown := users + [user];
    assert grown[|users|].userId == id;
    DeletePresent(hash, deleteGaps, id, grown);
    assert FindIndex(grown, id).value == |users|;
    assert grown[..|users|] == users;
  }
}
