# User manager command interpreter, modelled in Dafny

This project models the command interpreter of a small command-line user
manager. The program keeps a list of user records `{userId, username,
userpassword}` and reads one line at a time. Each line is one of:

- `Adding <id> <name> <password>`: append a record, unless the id exists.
- `Deleting <id>`: remove the first record with the id.
- `Updating <id> <name> <password>`: rewrite the name and password digest of the first record with the id.
- `Quit`.

Any other line gets a usage error or `Unknown command.`. Passwords are stored
as a digest.

The model treats `processCommand` as a pure step function:

    Step(hash, line, users) -> Outcome(message, users', saved)

Here `saved` says whether the program wrote the list back to its file.

Modules, one per concern of `src/userManager.ts`:

- `Text` (text.dfy): the `\s` character class of JavaScript regular expressions, greedy runs of `\s` or `\S`, and `startsWith`.
- `Grammar` (grammar.dfy): the argument tail `(\s+(\S+)){n}$` of the three command regular expressions.
  - `GroupsFrom` is the matcher.
  - `Interleave` of `Spaced` gaps and arguments is an independent reference grammar.
  - Two lemmas prove that the matcher and the grammar agree, one for each direction.
- `Commands` (commands.dfy): the keywords of the `Command` enum and the classifier `Classify`. Its branches are tried in the program's order, and its corner cases are proved as lemmas.
- `Users` (users.dfy): the `User` record, `findIndex`, and the three keyed list edits. Lemmas show that each edit keeps ids unique.
- `Passwords` (passwords.dfy): `hashPassword` and `validatePassword`. The digest function is a parameter.
- `Interpreter` (interpreter.dfy): `Execute` runs the branch for a classified request, and `Step` is the whole `processCommand`. There is one lemma per branch.
- `Wrappers` (wrappers.dfy): `Option`.

The digest (SHA-256 in hex in the program) is passed in as a function
`hash: string -> string`. Nothing is assumed about it. In particular it is not
assumed to be injective.

## Model

| member | source | states |
|---|---|---|
| Text.RunFromStops | src/userManager.ts:46-48 | A greedy `\s+` or `\S+` run covers only characters of its class and stops at the end of the line or at the first character of the other class |
| Grammar.GroupsFrom | src/userManager.ts:46-48 | The matcher of the anchored argument tail `(\s+(\S+)){n}$`. Its contract gives only the number of captures, n. What a match means, in both directions, is stated by `Grammar.GroupsOfInterleave` and `Grammar.InterleaveOfGroups` |
| Grammar.GroupsOfInterleave | src/userManager.ts:46-48 | On text spelled out as whitespace gaps and `\S+` arguments, the argument matcher captures exactly those arguments when their number is the one the regular expression expects, and fails for any other number |
| Grammar.InterleaveOfGroups | src/userManager.ts:46-48 | Every successful match is spelled out by the reference grammar: there are `\s+` gaps that interleave with the captured arguments to give exactly the matched text |
| Grammar.MatchIsSpelledOut | src/userManager.ts:46-48 | A match's captures are `\S+` arguments, and with some `\s+` gaps they spell out exactly the matched text |
| Grammar.GroupsAreTokens | src/userManager.ts:46-48 | Every captured group is a non-empty run of non-whitespace characters |
| Grammar.GroupsStartWithGap | src/userManager.ts:46-48 | A match with arguments needs whitespace right after the keyword |
| Grammar.GroupsEndWithToken | src/userManager.ts:46-48 | A match with arguments ends on a non-whitespace character, because `(\S+)$` leaves no room for trailing whitespace |
| Commands.Match | src/userManager.ts:46-48 | A keyword's regular expression captures exactly as many arguments as its grammar has groups (3 for Adding and Updating, 1 for Deleting) |
| Commands.KeywordsExclusive | src/userManager.ts:80-85 | No line starts with two different keywords, so the order of the keyword tests matters only between a grammar and the prefix tests |
| Commands.Classify | src/userManager.ts:46-88 | Classification taken case by case. The line is an add, delete or update request exactly when that keyword's regular expression matches, and the request carries its captures. It is Quit exactly when the line equals `Quit`. It gets a usage error for keyword k exactly when it starts with k and k's regular expression fails. It is unknown exactly when it is not `Quit` and starts with no keyword |
| Commands.LeadingSpaceIsUnknown | src/userManager.ts:46-88 | A line starting with whitespace is an unknown command |
| Commands.TrailingSpaceIsIncomplete | src/userManager.ts:46-85 | A line that starts with a keyword and ends in whitespace gets that keyword's usage error |
| Commands.GluedKeywordIsIncomplete | src/userManager.ts:46-85 | A keyword followed directly by a non-whitespace character (`Addingx a b c`) gets that keyword's usage error |
| Commands.SpelledOutLineIsClassified | src/userManager.ts:46-85 | A keyword followed by well-formed gaps and arguments becomes that keyword's request with exactly those arguments when their number is right, and the keyword's usage error otherwise |
| Commands.ClassifiedLineIsSpelledOut | src/userManager.ts:46-69 | Every line classified as an add, delete or update request is its keyword followed by well-formed gaps and exactly the request's arguments |
| Commands.CornerCases | src/userManager.ts:46-88 | On concrete lines: `Addingx a b c` and `Deleting u1 ` (trailing space) get usage errors, a line with leading whitespace or `Quit ` is unknown, and `Quit` is the quit request |
| Users.Contains | src/userManager.ts:52 | Definition of `users.some(user => user.userId === id)`: some record carries the id. It has no contract of its own. `Users.FindIndex`, `Users.Append`, `Users.Remove` and `Users.Rewrite` state their refusals in terms of it |
| Users.FindIndex | src/userManager.ts:61-62 | `findIndex` returns no position exactly when no record has the id, and otherwise the first position holding the id |
| Users.Append | src/userManager.ts:52-56 | The append refuses exactly when the id is present. Otherwise the list grows by one, keeps every earlier record, and ends with the new record |
| Users.Remove | src/userManager.ts:61-65 | The splice refuses exactly when the id is absent. Otherwise it removes the first record with the id, keeps the others in order with the length one less, and putting the record back at its place gives the original list, as a multiset too |
| Users.Rewrite | src/userManager.ts:70-75 | The in-place edit refuses exactly when the id is absent. Otherwise it changes only the name and digest of the first record with the id, and every id, the length and all other records are unchanged |
| Users.AppendKeepsUniqueIds | src/userManager.ts:52-56 | Appending a fresh id keeps ids unique, and the id is present afterwards |
| Users.RemoveKeepsUniqueIds | src/userManager.ts:61-65 | Removing keeps ids unique, and with unique ids the deleted id is gone from the list |
| Users.RewriteKeepsUniqueIds | src/userManager.ts:70-75 | Rewriting a record keeps ids unique |
| Passwords.HashPassword | src/userManager.ts:119-121 | Definition of `hashPassword`: the digest function applied to the password. SHA-256 in hex is the parameter `hash`. It has no contract of its own |
| Passwords.ValidatePassword | src/userManager.ts:124-126 | Definition of `validatePassword`: the input's digest equals the stored digest. It has no contract of its own. `Passwords.ValidatesOwnDigest` and `Passwords.CollidingDigestsValidate` state what it accepts |
| Passwords.ValidatesOwnDigest | src/userManager.ts:119-126 | `validatePassword(p, hashPassword(p))` holds for every password and every digest function |
| Passwords.CollidingDigestsValidate | src/userManager.ts:124-126 | Validation only compares digests, so a digest collision accepts a different password |
| Interpreter.Execute | src/userManager.ts:50-88 | A branch saves exactly when it is an add with a fresh id or a delete or update with a present id. A branch that does not save leaves the list unchanged |
| Interpreter.Step | src/userManager.ts:45-89 | `processCommand` saves exactly when the classified request mutates, and leaves the list unchanged whenever it does not save |
| Interpreter.QuitReplyOnlyForQuitRequest | src/userManager.ts:50-88 | Only the quit request replies `Quit`, because every other reply differs from it |
| Interpreter.QuitReplyOnlyForQuit | src/userManager.ts:78-79 | The reply is `Quit` exactly when the line is exactly `Quit`, which is what the read loop tests to stop |
| Interpreter.AddFresh | src/userManager.ts:50-58 | `Adding id name pw` with a fresh id appends exactly `{id, name, hash(pw)}`, keeps the earlier records, replies `User added successfully.` and saves. The stored digest validates `pw` |
| Interpreter.AddDuplicate | src/userManager.ts:52-54 | `Adding` with an existing id replies `Error: User with ID <id> already exists.`, leaves the list unchanged and does not save |
| Interpreter.DeletePresent | src/userManager.ts:59-67 | `Deleting id` with the id present removes exactly the first record with the id, keeps the others in order with the length one less, replies `User deleted successfully.` and saves |
| Interpreter.DeleteAbsent | src/userManager.ts:61-64 | `Deleting id` with the id absent replies `Error: User with ID <id> does not exist.`, leaves the list unchanged and does not save |
| Interpreter.UpdatePresent | src/userManager.ts:68-77 | `Updating id name pw` with the id present sets only the name and digest of the first record with the id, keeps its id, the length and every other record, replies `User updated successfully.` and saves |
| Interpreter.UpdateAbsent | src/userManager.ts:70-73 | `Updating` with the id absent replies the does-not-exist error, leaves the list unchanged and does not save |
| Interpreter.UnmatchedLineIsNoOp | src/userManager.ts:78-88 | A line that matches none of the three grammars leaves the list unchanged and does not save. It replies `Quit` for `Quit`, the usage message of the keyword it starts with, or `Unknown command.` |
| Interpreter.StepKeepsUniqueIds | src/userManager.ts:52-76 | If ids are unique before any command, they are unique after it |
| Interpreter.UpdateToSameValuesStillSaves | src/userManager.ts:74-76 | The save follows the branch, not a change of value: an update that writes back the name and digest the record already has saves, and the list stays equal |
| Interpreter.AddThenDeleteRestores | src/userManager.ts:50-67 | Adding a fresh id and then deleting it gives back the original list, with a save after each command. For example, `Adding u1 alice secret` then `Deleting u1` leaves an empty list empty |

## Left out

- `readUsersFile` and `writeUsersFile` (src/userManager.ts:22-42) are left out. They do file I/O, JSON parsing and serialisation, and ENOENT handling. A write is modelled only by the `saved` flag. The flag means a write was attempted. A failed write is logged by the program and is not modelled.
- `main` and the readline loop (src/userManager.ts:93-116) are left out, because they are console I/O and Promise plumbing. What the loop relies on, that only the line `Quit` yields the reply `Quit`, is proved as `Interpreter.QuitReplyOnlyForQuit`.
- SHA-256 through `crypto.createHash` (src/userManager.ts:120) is left out. It is a foreign library, so the digest is the parameter `hash`.
- The program edits the `users` array in place (`push`, `splice`, field assignment) and keeps using the same array. The model returns the new list instead.
- `\s` is the fixed set of ECMAScript WhiteSpace and LineTerminator characters: tab, vertical tab, form feed, space, no-break space, U+1680, U+2000 to U+200A, U+202F, U+205F, U+3000, U+FEFF, line feed, carriage return, U+2028 and U+2029.
- Characters are Unicode scalar values, while JavaScript strings are UTF-16 code units. Every `\s` character is in the Basic Multilingual Plane, so a character outside it is non-whitespace either way. This does not change which lines match or what is captured. A JavaScript string can also hold an unpaired surrogate, which a string of Unicode scalar values cannot, so such lines are not represented. The readline loop decodes standard input as UTF-8 with replacement characters, so it never passes one to `processCommand`.
- Unique ids are an invariant the interpreter preserves (`Interpreter.StepKeepsUniqueIds`). The program does not check it when loading the file, so the model does not assume it either. `Delete` and `Update` act on the first matching record.
- `validatePassword` is not modelled as rejecting every other password. The program does not promise that, because it depends on the digest having no collisions (`Passwords.CollidingDigestsValidate`).
