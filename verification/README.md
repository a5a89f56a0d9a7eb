# heygit account switcher — Dafny model

`bin/GitSwitch-Cli.js` keeps several git identities (name, e-mail, ed25519 key
pair) in a SQLite database and makes one of them "active" by copying it into
two machine-wide places: the global git `user.name` / `user.email` and the
fixed files `~/.ssh/id_ed25519` and `~/.ssh/id_ed25519.pub`. This project
models that account store and its switch protocol as pure transitions on an
immutable world and proves what they guarantee.

The world (`Switcher.World`) has three parts:

- `accounts`: the `accounts` table as a sequence of rows `(email, name,
  isActive)` in rowid order. That order is what an unordered `SELECT` returns
  and what the random switch indexes into.
- `sshKeys`: the `ssh_keys` table as a map e-mail → key pair.
- `mirror`: the git user name and e-mail and the two key files. Each may be
  absent.

Modules:

- `Common`: option type, bytes, key pairs.
- `Text`: JavaScript `String.prototype.trim`, with the exact ECMAScript
  whitespace set. `getCurrentGitUser` applies it.
- `Tables`: the `accounts` statements and the `ssh_keys` insert as
  functions, plus the PRIMARY KEY and "at most one active" predicates. The
  remaining statements are written inline in `Switcher`: the `ssh_keys`
  lookups and delete by e-mail as map operations, and the two unconditional
  deletes as the empty sequence and the empty map.
- `Mirror`: `getCurrentGitUser`, `setGitCredentials`, `unsetGitCredentials`,
  `clearSshKeys`, `generateSshKey` and the key-file reads and writes.
- `Switcher`: `addAccount`, `activateAccount`, `switchAccount` (automatic and
  manual pick), `removeAccountByEmail`, `removeAllAccounts` and the
  `showSSHKey` lookup. `addAccount`, `switchAccount`, `removeAccountByEmail`
  and `removeAllAccounts` return the new world and a status;
  `activateAccount` returns the world; the lookup returns the key.
- `Properties`: the store invariant and the lemmas about each operation.
- `Sessions`: a menu session as a command sequence; the invariant holds after
  any session. A switch command is always a manual pick, as the menu issues
  it.

External effects become parameters:

- `ssh-keygen` is an oracle `Option<KeyPair>`. `Some` means it wrote both
  files; `None` means it failed.
- Each `fs.unlinkSync` may throw. `UnlinkFaults` says which one does.
- `Math.random()` is a real `r` with `0 <= r < 1`. The index is
  `Floor(r * n)`.
- The prompt's answers are arguments: the selected e-mail and the
  remove-all confirmation.

Behaviour of the code worth knowing:

- At most one account is active, but not always exactly one. Removing the
  active account while git names someone else deletes the rows and switches
  nothing. Afterwards no account is active (`Properties.RemoveActiveUnmirrored`).
- A failed key generation does not go on with empty keys. The clear has
  already removed the files, so `readFileSync` throws. Nothing is written to
  either table, and the key files are gone (`Properties.AddKeygenFailure`).
  If neither stale file could be unlinked, the read-back picks up the
  previous account's keys instead (`Properties.AddAdoptsStaleKeys`).
- Removing the active account only clears the mirror when the current git
  e-mail equals it. `getCurrentGitUser` trims what git reports, so an account
  whose e-mail has surrounding whitespace never matches. Removing it leaves
  its identity and key files in place (`Properties.PaddedEmailSurvivesRemoval`).
  For e-mails without such whitespace, removing the account just added always
  takes it out of git (`Properties.AddThenRemove`).
- `showSSHKey` reports "no key" for a stored public key that is empty. An
  empty string is falsy in JavaScript.

## Model

| member | source | states |
|---|---|---|
| Text.Trim | bin/GitSwitch-Cli.js:69-70 | the result is the slice of the input left after removing an all-whitespace prefix and an all-whitespace suffix; it is trimmed, and an already-trimmed string comes back unchanged |
| Text.TrimFixedPoints | bin/GitSwitch-Cli.js:69-70 | trim leaves a string unchanged exactly when neither end is whitespace |
| Mirror.CurrentGitUser | bin/GitSwitch-Cli.js:67-75 | a user is reported exactly when both git fields are set (otherwise both are null), and the reported pair is the trimmed name and the trimmed e-mail |
| Mirror.CurrentGitEmail | bin/GitSwitch-Cli.js:193 | the e-mail the removal compares against is present exactly when both git fields are set, and is the trimmed git e-mail |
| Mirror.SetGitCredentials | bin/GitSwitch-Cli.js:163-170 | both git fields hold the given name and e-mail; the key files are untouched |
| Mirror.SetThenGet | bin/GitSwitch-Cli.js:163-170 | after setting the credentials, getCurrentGitUser reads back the trimmed pair; an e-mail without surrounding whitespace reads back unchanged |
| Mirror.UnsetGitCredentials | bin/GitSwitch-Cli.js:78-90 | both git fields end unset whether or not they were set; the key files are untouched |
| Mirror.UnsetThenGet | bin/GitSwitch-Cli.js:78-90 | after unsetting, no git user is detected |
| Mirror.ClearSshKeys | bin/GitSwitch-Cli.js:93-104 | a key file ends absent exactly when it was absent or its unlink succeeded; a file whose unlink failed keeps its bytes; git is untouched |
| Mirror.ClearRemovesFiles | bin/GitSwitch-Cli.js:93-104 | one file's failing unlink does not stop the other file's removal; with no failure both files are gone |
| Mirror.ClearOfClearIsNoOp | bin/GitSwitch-Cli.js:78-104 | clearing the key files and unsetting git on an already clear mirror changes nothing, whatever unlink would do |
| Mirror.GenerateSshKey | bin/GitSwitch-Cli.js:107-115 | key generation first clears the files; on success the files read back as the generated pair; on failure they are what the clear left; git is untouched |
| Mirror.ReadKeyFiles | bin/GitSwitch-Cli.js:132-133 | the read succeeds exactly when both files exist and returns their bytes |
| Mirror.WriteKeyFiles | bin/GitSwitch-Cli.js:274-278 | both files are overwritten in full with the pair; git is untouched |
| Mirror.WriteAfterClear | bin/GitSwitch-Cli.js:273-278 | the write after a clear overwrites both files, so a failed unlink in that clear makes no difference |
| Mirror.ApplyAccount | bin/GitSwitch-Cli.js:272-279 | after activation's mirror step the mirror is exactly the account's identity and stored keys, whatever it held before |
| Mirror.ApplyIdempotent | bin/GitSwitch-Cli.js:272-279 | mirroring the same account twice is the same as once |
| Tables.Find | bin/GitSwitch-Cli.js:121-122 | the lookup finds a row exactly when the e-mail is in the table, and the row it finds carries that e-mail |
| Tables.SetAllInactive | bin/GitSwitch-Cli.js:135 | every row keeps its e-mail and name and ends inactive |
| Tables.SetActiveWhere | bin/GitSwitch-Cli.js:266 | the rows with the e-mail become active and all other rows are unchanged |
| Tables.DeleteWhere | bin/GitSwitch-Cli.js:189 | a row survives exactly when its e-mail differs; the key set loses exactly that e-mail |
| Tables.SelectInactive | bin/GitSwitch-Cli.js:222-223 | the list holds exactly the table's inactive rows |
| Tables.Insert | bin/GitSwitch-Cli.js:136-139 | a fresh key is appended after the existing rows; a taken key leaves the table unchanged |
| Tables.InsertKey | bin/GitSwitch-Cli.js:140-143 | a fresh e-mail gets exactly the given pair; existing key rows are unchanged |
| Tables.DeleteWherePreservesUnique | bin/GitSwitch-Cli.js:189 | deleting by e-mail keeps e-mails unique |
| Tables.SelectInactivePreservesUnique | bin/GitSwitch-Cli.js:222-223 | the inactive list has unique e-mails when the table does |
| Tables.ActivateRows | bin/GitSwitch-Cli.js:265-266 | the two UPDATEs of an activation keep the e-mails and their uniqueness, and leave exactly the activated e-mail active (none when it has no row) |
| Tables.AddRows | bin/GitSwitch-Cli.js:135-139 | deactivating all rows and inserting a fresh active row keeps e-mails unique, adds the new e-mail, keeps every old row but inactive, and makes the new row the only active one |
| Tables.FindUnique | bin/GitSwitch-Cli.js:48-52 | with unique keys the lookup returns the one row with that e-mail |
| Tables.AtMostOneActiveRow | bin/GitSwitch-Cli.js:48-52 | with unique keys, at most one active e-mail means at most one active row |
| Switcher.RandomIndex | bin/GitSwitch-Cli.js:234-235 | the automatic pick is an index into the inactive list |
| Switcher.RandomIndexReachesAll | bin/GitSwitch-Cli.js:234-235 | every index of the list can be drawn |
| Switcher.ActivateAccount | bin/GitSwitch-Cli.js:261-299 | each row is active exactly when it carries the activated e-mail; names, e-mails and keys are unchanged; with a key row the mirror becomes (name, e-mail, stored keys), otherwise it is untouched |
| Switcher.SwitchAccount | bin/GitSwitch-Cli.js:219-258 | with no inactive account nothing changes; a successful switch activates an account that was inactive, with its stored name; any other outcome changes nothing |
| Switcher.AddAccount | bin/GitSwitch-Cli.js:118-160 | a taken e-mail changes nothing; only a completed add writes the tables; after it the e-mail set gains the new e-mail and git names the new account; the add fails to read keys exactly when the e-mail is new and the regenerated files cannot both be read, and then git and the tables are untouched and the files are as the regeneration left them |
| Switcher.RemoveAccountByEmail | bin/GitSwitch-Cli.js:173-216 | an unknown e-mail changes nothing and reports not found; a present one completes, and the account e-mails and key rows lose exactly that e-mail (the follow-up switch adds none) |
| Switcher.RemoveAllAccounts | bin/GitSwitch-Cli.js:302-325 | a declined confirmation changes nothing; a confirmed one empties both tables, unsets both git fields and leaves each key file as clearSshKeys leaves it under the given unlink faults |
| Switcher.ShowSshKey | bin/GitSwitch-Cli.js:390-413 | a key is shown exactly when a key row exists with a non-empty public key, and it is that public key |
| Properties.ActivatePreservesInv | bin/GitSwitch-Cli.js:264-266 | activation keeps the invariant; afterwards the activated e-mail is the only active one, or none is active when it has no row |
| Properties.ActivateMirrors | bin/GitSwitch-Cli.js:268-279 | activating an existing account by its stored name makes it the active row and mirrors its identity and stored keys |
| Properties.ActivateIdempotent | bin/GitSwitch-Cli.js:261-299 | activating the same account twice leaves the world as activating it once |
| Properties.SwitchSpec | bin/GitSwitch-Cli.js:225-251 | a switch keeps the invariant; a successful one makes a previously inactive account the only active one and mirrors it; the automatic pick always succeeds when an inactive account exists |
| Properties.ManualSwitchSpec | bin/GitSwitch-Cli.js:238-251 | a manual pick of an inactive account makes exactly that e-mail active; a pick of anything else changes nothing |
| Properties.AddSucceeds | bin/GitSwitch-Cli.js:131-146 | after a successful add the new e-mail is the only active account, its key row and both key files hold the generated bytes, git names it, every earlier account is kept but inactive, and the invariant holds |
| Properties.AddKeygenFailure | bin/GitSwitch-Cli.js:107-133 | when generation fails after a clean clear, no table changes, git is untouched and both key files are gone |
| Properties.AddAdoptsStaleKeys | bin/GitSwitch-Cli.js:93-133 | when both unlinks and generation fail, the add completes and stores the previous key files' bytes for the new account |
| Properties.AddPreservesInv | bin/GitSwitch-Cli.js:118-160 | every outcome of an add keeps the invariant |
| Properties.DeletePreservesInv | bin/GitSwitch-Cli.js:189-190 | deleting an e-mail's rows from both tables keeps the invariant |
| Properties.DeleteActiveLeavesAllInactive | bin/GitSwitch-Cli.js:189-200 | after the active account's rows are deleted, every remaining account is inactive, so the automatic switch has a candidate exactly when an account remains |
| Properties.RemoveSpec | bin/GitSwitch-Cli.js:173-216 | removal keeps the invariant and removes exactly that e-mail from both tables; an unknown e-mail changes nothing; unless the account was active and named by git, the mirror and all other rows are untouched |
| Properties.RemoveLastAccount | bin/GitSwitch-Cli.js:192-200 | removing the only account while git names it leaves empty tables, git unset and the key files cleared |
| Properties.RemoveActiveSwitches | bin/GitSwitch-Cli.js:192-200 | removing the active account that git names, with others left, makes one of the others the only active account and mirrors it |
| Properties.RemoveMirroredActive | bin/GitSwitch-Cli.js:192-200 | removing the active account that git names unsets git and clears the files; with no account left that is the end state, otherwise another account becomes the only active one and is mirrored |
| Properties.RemoveActiveUnmirrored | bin/GitSwitch-Cli.js:192-205 | removing the active account while git names another e-mail (or none) leaves the mirror untouched and no account active |
| Properties.RemoveAllSpec | bin/GitSwitch-Cli.js:312-323 | a confirmed remove-all keeps the invariant; with no failing unlink it leaves empty tables and a fully clear mirror; doing it twice is the same as once |
| Properties.AddThenRemove | bin/GitSwitch-Cli.js:192-196 | removing an account right after adding it (e-mail without surrounding whitespace) deletes it and takes its e-mail out of git |
| Properties.PaddedEmailSurvivesRemoval | bin/GitSwitch-Cli.js:193-194 | an account whose e-mail has surrounding whitespace is not recognised as the git user; removing it right after adding it deletes its rows, leaves no account active and leaves its identity and key files mirrored |
| Properties.AddTwice | bin/GitSwitch-Cli.js:135-146 | after two adds the second account is the only active one, the first is kept inactive, and the key files hold the second's bytes |
| Properties.ShowAfterAdd | bin/GitSwitch-Cli.js:390-404 | right after an add, the key lookup for the new e-mail returns the generated public key, or none when it is empty |
| Properties.ShowAfterRemove | bin/GitSwitch-Cli.js:390-404 | after a removal, the key lookup for the removed e-mail finds nothing |
| Sessions.Apply | bin/GitSwitch-Cli.js:481-497 | every refusal (taken e-mail, unknown e-mail, no other account, declined confirmation, invalid pick) leaves the world unchanged, and only an add can bring in a new e-mail |
| Sessions.Run | bin/GitSwitch-Cli.js:549-556 | every account at the end of a session was there at the start or was named by one of the session's adds |
| Sessions.Fresh | bin/GitSwitch-Cli.js:44-62 | a freshly created database satisfies the invariant whatever the mirror holds |
| Sessions.ApplyPreservesInv | bin/GitSwitch-Cli.js:481-497 | every menu command that changes the store keeps the invariant |
| Sessions.RunPreservesInv | bin/GitSwitch-Cli.js:549-556 | after any sequence of commands, e-mails are unique, every account has exactly its key row, and at most one account is active |

## Left out

- The menu, prompts, `waitForEnter`, banner and colour theme (lines 17-41 and
  455-560). They are user interface only; the prompt answers are arguments.
- `listAccounts`, `showSpecificUserSSH` and `showCurrentUserSSH` (lines
  328-452). They only print; the `showSSHKey` lookup is `Switcher.ShowSshKey`.
- SQLite connections, schema creation and callback interleaving. Each
  operation is one atomic step, including the unserialized `db.run` calls in
  `addAccount` and the unawaited `switchAccount(true)` in
  `removeAccountByEmail`. An unordered `SELECT` is taken to return rows in
  rowid (insertion) order.
- Failures of `git config` writes (the caught error in `setGitCredentials`)
  and of unsets other than "field not set": git writes are assumed to take
  effect.
- Failures of `fs.writeFileSync` in `activateAccount`: both writes are
  assumed to succeed. The clear before them is modelled without unlink
  faults, which `Mirror.WriteAfterClear` shows makes no difference.
- Process termination: `KeyReadFailed` and `SelectionInvalid` stand for
  uncaught exceptions. In the source they end the session; `Sessions.Run`
  carries on with the world they left.
- Shell quoting of names and e-mails in `execSync` command lines, and the
  newline `git config` prints (trimmed away like any other whitespace).
- `ssh-keygen` itself and key cryptography: the generator is an oracle.
- Floating point in `Math.floor(Math.random() * n)`: computed on exact reals.
- `Buffer.toString()` in `showSSHKey`: the lookup returns the stored bytes.
- `is_active` is a boolean. The source only ever writes 0 or 1.
- `Text.IsJsWhitespace` lists the Unicode space separators of current
  Unicode versions. The exact set depends on the JavaScript engine.
