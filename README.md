# Minecraft server supervisor — a Dafny model

The system runs one Minecraft server as a child process with a backup store next to it.
A small Node program starts, stops and restarts the child. It snapshots the world folder
into a git repository, one branch per backup, and restores whole backups or single region
files from that repository. It also serves a WebSocket control protocol: clients
authenticate against a credential list and then send commands.

This project models the core of that program and proves properties of the model:

- `Lifecycle`: the supervisor, as the class `Supervisor`. It holds the single lifecycle
  `state` (seven tags) and the continuation the JavaScript runtime has pending
  (`inFlight`). It also holds the registry of client connections, each connection's
  `username`, and a log of every effect on the outside world: messages sent, sockets
  closed, lines written to the child's input. Each command is a method that runs the
  guard and the first `setState`. Each asynchronous continuation is an event method that
  can fire only while that continuation is pending: start succeeded, start failed, child
  closed, save finished, restore finished. When a child exit resolves a pending `stop()`,
  the close handler and the awaiting caller's continuation run as one step. The code
  relies on this, because no other event runs between a promise's resolution and its
  awaiter's microtask.
- `Store`: the git repository as the supervisor uses it. It keeps branches (name to
  commit), HEAD and the working tree, as the class `Repo`. It has `saveFiles`, the
  backup listing, and the two checkouts of `restore`.
- `BackupNames`: `getDate` over an explicit instant (the clock is a parameter), and the
  backup name `date + "." + label`.
- `Lex`: JavaScript's default string order and `sort().reverse()`.
- `Regions`: the dimension folders and the `r.<x>.<z>.mca` file template.
- `Protocol`: the per-connection message gate, from the current username and one parsed
  payload to a verdict, plus the username update.
- `Users`: validation of the parsed `users.json` value, and `checkAuth`.
- `Json`, `Base`: parsed JSON values, `Option`/`Outcome`/`Result`.

The clock, the store's I/O faults, the launch outcome and the identity of each child are
parameters of the event methods. A `StoreFault` names the first step of `saveFiles` that
throws.

Four properties of the code that a reader might expect otherwise:

- `saveFiles` is not atomic. If the commit step throws, HEAD is left on the new branch,
  which still points at the old head commit (`Store.FailedCommitLeavesHeadMoved`).
- `saveFiles` is conditional, so a restore does not always produce a rollback backup.
  `saveFiles('rollback')` does nothing on a clean tree, and a failing save stops the
  restore before any checkout (`Lifecycle.RestoreSavesFirst`).
- The server accepts backup labels of letters, digits, spaces, `.` and `-`
  (`src/index.ts:565`). The web UI's own pattern (`src/app.tsx:138`) allows apostrophes
  instead of `.`. The server does not use the UI's pattern, and the model enforces the
  server's.
- State changes and refreshed backup lists go to every registered connection,
  authenticated or not. The state and backup list pushed after a successful `auth` go
  only to that connection.

## Model

| member | source | states |
|---|---|---|
| Users.CheckRecord | src/users.ts:11-25 | a record loads exactly when it is an object with string `login` and string `password`, and the user then carries those two strings |
| Users.CheckRecords | src/users.ts:11-26 | the `map` over the records: checks each in order and throws the first failure; characterised by `Users.CheckRecordsSpec` |
| Users.LoadUsers | src/users.ts:7-26 | the array check, then the record checks; characterised by `Users.LoadUsersSpec` |
| Users.CheckRecordsSpec | src/users.ts:11-26 | loading the records succeeds exactly when every record passes its checks; the list then has the raw array's length and order, record by record |
| Users.LoadUsersSpec | src/users.ts:7-26 | a value that is not an array is refused with the array error; an array loads exactly when all its records pass, keeping length and order |
| Users.FindUser | src/users.ts:29-31 | `find` returns the first index whose login and password both equal the given pair, and none exactly when no record has both |
| Users.CheckAuth | src/users.ts:28-33 | the answer is defined exactly when one record matches both login and password (a right login with a wrong password gives none), and a defined answer is the caller's own login |
| Lex.Less | src/index.ts:233 | the string order of the default comparator: the first differing character decides, and a proper prefix sorts first; the lemmas below make it a strict total order |
| Lex.LessIrreflexive | src/index.ts:233 | the default sort order never puts a string before itself |
| Lex.LessAsymmetric | src/index.ts:233 | of two strings at most one sorts before the other |
| Lex.LessTransitive | src/index.ts:233 | the default sort order is transitive |
| Lex.LessTotal | src/index.ts:233 | of two different strings one sorts before the other |
| Lex.LessAfterEqualWidth | src/index.ts:233 | two strings with prefixes of equal width compare by the prefixes first, then by the rest |
| Lex.Insert | src/index.ts:233 | one insertion step of the ascending string sort; `Lex.InsertPermutes` and `Lex.InsertAscending` prove it |
| Lex.Sort | src/index.ts:233 | `sort()` with the default comparator; `Lex.SortCorrect` proves it ascending and a permutation |
| Lex.Reverse | src/index.ts:233 | `reverse()`; `Lex.ReverseOfAscending` proves it turns ascending into descending |
| Lex.InsertPermutes | src/index.ts:233 | inserting keeps exactly the multiset of elements |
| Lex.InsertAscending | src/index.ts:233 | inserting into an ascending list keeps it ascending |
| Lex.SortCorrect | src/index.ts:233 | `sort()` returns an ascending permutation of its input |
| Lex.ReverseOfAscending | src/index.ts:233 | reversing an ascending list gives a descending one |
| Lex.SortThenReverse | src/index.ts:233 | `sort().reverse()` returns a descending permutation of its input |
| Lex.GreaterComesFirst | src/index.ts:233 | in a descending list a string that sorts after another stands before it |
| BackupNames.Pad | src/index.ts:116-122 | a padded field has exactly its width and only digits |
| BackupNames.PadOrder | src/index.ts:116-122 | padded fields of one width compare as text exactly as their numbers compare |
| BackupNames.StampOrder | src/index.ts:116-122 | two fixed-width stamps compare as text exactly as their date-time fields compare, year first |
| BackupNames.GetDate | src/index.ts:116-122 | the regex rewrite of `toISOString()`: date, `-`, then the time with its colons turned into dashes, or the ISO text unchanged when the pattern fails; `BackupNames.GetDateIsStamp` and `BackupNames.GetDateOfExtendedYear` characterise it |
| BackupNames.GetDateIsStamp | src/index.ts:116-122 | for four-digit years the date is the `YYYY-MM-DD-HH-MM-SS` stamp: 19 characters, dashes at fixed positions, digits elsewhere, no `:` |
| BackupNames.GetDateOfExtendedYear | src/index.ts:116-122 | for years outside 0-9999 the pattern does not match, so the date is the ISO text itself and keeps its colons |
| BackupNames.GetDateOrder | src/index.ts:116-122 | for four-digit years one date sorts before another exactly when its second is earlier, and two dates are equal exactly when they fall in the same second |
| BackupNames.LaterSaveSortsAfter | src/index.ts:405 | a backup name from a later second sorts after one from an earlier second, whatever the labels |
| BackupNames.SameSecondOrdersByLabel | src/index.ts:405 | backup names from the same second compare by their labels |
| BackupNames.BackupName | src/index.ts:405 | `getDate() + "." + label`; `BackupNames.LaterSaveSortsAfter` and `BackupNames.SameSecondOrdersByLabel` give its order |
| Regions.IntText | src/index.ts:518 | the text of an integer has no `.` |
| Regions.ParseIntText | src/index.ts:518 | the text of an integer reads back as that integer |
| Regions.Folder | src/index.ts:484-488 | the `dimensions` table: `world/region/`, `world/DIM-1/region/`, `world/DIM1/region/` |
| Regions.RegionPath | src/index.ts:518 | `dimensions[d] + "r.<x>.<z>.mca"`; `Regions.ParseRegionPathInverts` and `Regions.RegionPathInjective` prove it one-to-one |
| Regions.FolderOfRegionPath | src/index.ts:484-488 | the folder of a region's path is the folder of its dimension |
| Regions.ParseRegionPathInverts | src/index.ts:516-519 | a region's storage path determines the region: parsing it gives the region back |
| Regions.RegionPathInjective | src/index.ts:516-519 | different regions have different storage paths |
| Regions.RegionPaths | src/index.ts:516-519 | the loop builds exactly one path per region, in order, each `dimensions[d] + "r.<x>.<z>.mca"` |
| Store.ChangedPaths | src/index.ts:406-415 | the set of changed paths is empty exactly when the working tree equals the head snapshot |
| Store.SaveSpec | src/index.ts:404-450 | `saveFiles` step by step, with the step that throws: no-op when clean, refusal of an existing name, branch at the head commit, HEAD moved, commit of the working tree; the save lemmas below characterise it |
| Store.NoChangesNoBackup | src/index.ts:406-415 | with no changed path a save creates no branch and no commit, keeps HEAD, and passes unless counting throws |
| Store.SuccessfulSaveRecordsTree | src/index.ts:416-449 | a passing save with changes adds exactly the new branch, moves HEAD to it, and commits the working tree with the old head commit as parent and the branch name as message; the tree is clean afterwards |
| Store.SaveNeverRewrites | src/index.ts:418-425 | no outcome of a save removes or changes a branch that existed before, and HEAD always names a branch |
| Store.PassingSaveLeavesClean | src/index.ts:404-450 | whenever a save passes, the working tree equals the tree of the commit HEAD names |
| Store.FailedCommitLeavesHeadMoved | src/index.ts:427-449 | when the commit step throws, HEAD is left on the new branch, which points at the old head commit |
| Store.CheckedOut | src/index.ts:528-536 | a forced checkout of a path list takes the listed paths from the snapshot (removing those it lacks) and keeps every other file as it was |
| Store.TakeLine | src/index.ts:228 | the captured group is the longest prefix without a line terminator |
| Store.TakeLineOfPlain | src/index.ts:228 | a branch name without line terminators is captured whole |
| Store.HeadsCapture | src/index.ts:228 | the match of `/^refs\/heads\/(.*)+/`: the rest of the reference name up to a line terminator, when it starts with `refs/heads/` |
| Store.Kept | src/index.ts:227-232 | the captures the loop pushes, in order; `Store.KeptMembers` characterises them |
| Store.KeptMembers | src/index.ts:227-232 | the loop keeps exactly the captures of `refs/heads/` names that are not `master` |
| Store.GetBackupList | src/index.ts:224-234 | the result is descending and a permutation of what the loop keeps, and holds exactly those names |
| Store.Repo.CountChanges | src/index.ts:406-411 | the counter ends at the number of changed paths, and at zero exactly when the tree is clean |
| Store.Repo.SaveFiles | src/index.ts:404-450 | the new branches and HEAD are those of the save's specification for the name `getDate() + "." + label`; the working tree is unchanged |
| Store.Repo.SaveAs | src/index.ts:405-450 | the steps after the storage name is fixed: the new branches and HEAD are those of the save's specification for that name, and the working tree is unchanged |
| Store.Repo.CheckoutBranch | src/index.ts:513 | a missing branch or an I/O fault changes nothing; otherwise the working tree becomes the backup's snapshot and HEAD names the backup; branches are untouched |
| Store.Repo.CheckoutPaths | src/index.ts:524-536 | a missing branch or an I/O fault changes nothing; otherwise only the listed paths change, to the backup's content; HEAD and branches are untouched |
| Store.BackupCount | src/index.ts:224-232 | how often a name stands in the backup list: once for each branch other than `master`'s capture whose name up to the first line terminator is that name; `Store.KeptCount` ties it to the loop |
| Store.KeptCount | src/index.ts:224-232 | over one reference per branch, the loop keeps each name exactly as often as there are branches other than `master`'s capture whose name up to the first line terminator is that name |
| Store.PlainBranchesListedOnce | src/index.ts:224-234 | when no branch name holds a line terminator, such a list holds every branch other than `master` exactly once, so its length is the number of those branches |
| Store.Repo.ReferenceNames | src/index.ts:225 | every reference is `refs/heads/` plus a branch, every branch has its reference, no reference stands twice, and there are as many references as branches |
| Store.Repo.ListBackups | src/index.ts:224-234 | the list is descending; it holds exactly the branch names (up to a line terminator) other than `master`, each as often as branches carry it; with plain branch names each backup stands once and the list has one entry per backup |
| Protocol.DimensionNamed | src/index.ts:704-711 | a dimension is accepted exactly when it is `overworld`, `nether` or `end` |
| Protocol.CheckRegion | src/index.ts:692-711 | checking one region throws exactly on `null`; it is good exactly when the entry is an object with numeric `x` and `z` and a dimension among `overworld`, `nether`, `end`, and it then yields that dimension and those coordinates |
| Protocol.CheckRegions | src/index.ts:692-711 | the `for` loop over the regions: the first entry that is not good decides; `Protocol.CheckRegionsSpec` and `Protocol.CheckRegionsThrows` characterise it |
| Protocol.CheckRegionsSpec | src/index.ts:692-711 | the region list passes exactly when every entry is good, and the regions keep the entries' order and values |
| Protocol.CheckRegionsThrows | src/index.ts:692-698 | the region loop throws exactly when its first entry that fails the checks is `null` |
| Protocol.Authenticated | src/index.ts:636-652 | JavaScript truthiness of `success` and `username`: a login is present and not empty |
| Protocol.MatchesNameRegex | src/index.ts:565 | `/^[a-zA-Z0-9 .-]+$/`: a non-empty name of letters, digits, spaces, `.` and `-` |
| Protocol.CheckCommand | src/index.ts:658-718 | the command switch as written, including the throw on a `null` region |
| Protocol.GateAsWritten | src/index.ts:597-718 | the handler as written, including its two throws; `Protocol.CrashesExactly` says when it throws and `Protocol.GateAgreesWhenNoCrash` relates it to the corrected gate |
| Protocol.CrashesExactly | src/index.ts:603-698 | the handler as written throws exactly on the message `null` and on an authenticated restore with a good name whose first failing region is `null` |
| Protocol.NullMessageCrashes | src/index.ts:603-605 | as written, the text message `null` makes the handler throw |
| Protocol.NullRegionCrashes | src/index.ts:692-698 | as written, a `null` region in an authenticated restore makes the handler throw |
| Protocol.NullRegionDropped | src/index.ts:693-696 | the corrected gate drops a restore with a `null` region without closing the connection |
| Protocol.Gate | src/index.ts:597-718 | the handler never throws. A binary payload, a non-object, or a missing or non-string `type` closes. An `auth` answer comes exactly from an `auth` with string login and password and carries `checkAuth`'s result. Without a username every other type closes. An `auth` with a non-string login or password is dropped without a close. Commands run only on authenticated connections. There `update`, `restart` and `stop` are dispatched as themselves. `save` is dispatched exactly when its name matches the name pattern, and `restore` exactly when its name matches and every region passes the checks, with the checked regions. Any other bad field drops the message without a close. Unknown types are ignored and nothing else is |
| Protocol.GateAgreesWhenNoCrash | src/index.ts:597-718 | whenever the handler as written does not throw (by `Protocol.CrashesExactly`, on every input but the two `null` cases) the gate gives the same verdict |
| Protocol.NextUsername | src/index.ts:627 | only an `auth` answer assigns the username, and it assigns `checkAuth`'s result |
| Protocol.FailedReauthLogsOut | src/index.ts:618-628 | a failed `auth` on an authenticated connection answers none and leaves it unauthenticated |
| Protocol.ShellNameRejected | src/index.ts:565-686 | on an authenticated connection every `save` or `restore` whose label holds a character outside the name pattern (a shell metacharacter among them) is dropped without a close, before any command runs |
| Lifecycle.FailedUnreachable | src/index.ts:99-106 | no pending continuation goes with `failed`, so the supervisor never enters it |
| Lifecycle.RestoreSpec | src/index.ts:495-552 | the store effect of `restore`: the rollback save, then the whole or region checkout only if it passed and the backup exists; the three restore lemmas below characterise it |
| Lifecycle.Without | src/index.ts:574-577 | removing a connection keeps exactly the other connections, each once |
| Lifecycle.RestoreSavesFirst | src/index.ts:495-552 | a restore's branches are those of its rollback save; no backup is removed or changed; the working tree changes only after a passing rollback save, whose HEAD commit then holds the pre-restore tree |
| Lifecycle.WholeRestoreReplacesTree | src/index.ts:507-513 | a whole restore that finds its backup leaves exactly the backup's tree, with HEAD on the backup |
| Lifecycle.RegionRestoreTouchesOnlyRegions | src/index.ts:514-538 | a region restore that finds its backup gives each region's path the backup's content (or removes it), and leaves every other file byte-identical |
| Lifecycle.Supervisor.constructor | src/index.ts:109 | the supervisor starts in `initial` with nothing pending, no client and no effect |
| Lifecycle.Supervisor.Broadcast | src/index.ts:557-562 | one send of the message to each registered client, in registry order, and nothing else |
| Lifecycle.Supervisor.SetState | src/index.ts:110-114 | the new tag is set and broadcast to every registered client |
| Lifecycle.Supervisor.StartServer | src/index.ts:248-256 | outside `initial` it fails with "cannot start" and changes nothing; from `initial` it broadcasts `starting` and the launch is pending |
| Lifecycle.Supervisor.StartSucceeded | src/index.ts:368 | a finished launch ends in `started` with the child's stop handle, broadcast |
| Lifecycle.Supervisor.StartFailed | src/index.ts:369-374 | a failed launch ends in `initial`, broadcast, with nothing pending and no retry |
| Lifecycle.Supervisor.InvokeStop | src/index.ts:353-366 | the stop handle fails and changes nothing unless the state is `started`; otherwise it broadcasts `stopping` and writes `/stop` to the child |
| Lifecycle.Supervisor.StopThen | src/index.ts:383-385 | from `started` the child is stopped and the command waits for its exit |
| Lifecycle.Supervisor.Continue | src/index.ts:387 | from `initial` with nothing pending, a command moves to its working state with the broadcast that goes with it |
| Lifecycle.Supervisor.Command | src/index.ts:379-385 | the shared guard: outside `started` and `initial` the command fails "busy" and changes nothing; from `started` it stops first; from `initial` it continues at once |
| Lifecycle.Supervisor.Restart | src/index.ts:377-388 | busy exactly outside `started`/`initial`; from `started` it broadcasts `stopping`, writes `/stop` to the child and waits for its exit before the launch; from `initial` the launch starts with the update flag |
| Lifecycle.Supervisor.Stop | src/index.ts:390-399 | busy exactly outside `started`/`initial`; from `started` it broadcasts `stopping`, writes `/stop` to the child and waits for its exit; from `initial` nothing changes |
| Lifecycle.Supervisor.Save | src/index.ts:452-462 | busy exactly outside `started`/`initial`; from `started` it broadcasts `stopping`, writes `/stop` to the child and waits for its exit before saving; from `initial` it broadcasts `saving` and the save is pending |
| Lifecycle.Supervisor.Restore | src/index.ts:495-506 | busy exactly outside `started`/`initial`; from `started` it broadcasts `stopping`, writes `/stop` to the child and waits for its exit before restoring; from `initial` it broadcasts `restoring` and the restore is pending |
| Lifecycle.Supervisor.ChildClosed | src/index.ts:334-350 | a crash in `started` broadcasts `initial` and at once starts again without a forced update; an expected exit broadcasts `initial` and runs what the stopping command does next |
| Lifecycle.Supervisor.SaveFinished | src/index.ts:466-478 | whether the save passed or threw, the store is as the save's specification says, the state is `initial`, and then the recomputed backup list goes to every client: descending, with each name as often as `Store.BackupCount` gives for the new branches |
| Lifecycle.Supervisor.BroadcastBackups | src/index.ts:475-478 | one `backups` message per client with the recomputed list, which is descending and holds each name as often as `Store.BackupCount` gives; nothing else is sent |
| Lifecycle.Supervisor.RevertStore | src/index.ts:507-537 | the store after the rollback save and the checkout is the one the restore's specification gives |
| Lifecycle.Supervisor.RestoreFinished | src/index.ts:539-549 | whether the restore passed or threw, the store is as the restore's specification says, the state is `initial`, and then the recomputed backup list goes to every client: descending, with each name as often as `Store.BackupCount` gives for the new branches |
| Lifecycle.Supervisor.Connect | src/index.ts:570-572 | a new connection joins the registry at the end, unauthenticated |
| Lifecycle.Supervisor.Disconnect | src/index.ts:574-577 | a closed connection leaves the registry; nothing else changes |
| Lifecycle.Supervisor.Dispatch | src/index.ts:658-718 | each command is started without waiting. A busy refusal changes nothing. From `started` the child is stopped (the `stopping` broadcast and the `/stop` write) and the command's continuation waits for the exit. From `initial` the continuation starts at once with its broadcast |
| Lifecycle.Supervisor.HandleMessage | src/index.ts:595-720 | the verdict is the gate's and the username is updated as the gate says. A close closes only this socket. An auth answer goes to this socket, followed by the state and the backup list when it succeeds; that list is descending, with each name as often as `Store.BackupCount` gives. Dropped and ignored messages have no effect. A dispatched command has the effects and the pending continuation `Dispatch` states for `started` and `initial`, and a busy one has none |

The supervisor's invariant `Lifecycle.Supervisor.Valid` (`src/index.ts:99-114`) says:

- the tag always matches the pending continuation, so at most one lifecycle operation
  and at most one child exist at a time, and `failed` never occurs;
- the registry holds each connection once, and every registered connection has a
  username slot.

Every command and event method keeps it.

## Left out

- Process launch, stdio piping, the `/stop` write and the child's exit are external. The
  launch outcome and the child's identity are parameters of `StartSucceeded`, and the exit
  is the event `ChildClosed`. A write appears only as an effect entry.
- Artifact acquisition (`getCarpetLink`, `downloadMinecraft`, `downloadCarpet`,
  `getMergedCarpet`) and signing the EULA are not modelled. Their success or failure is
  the choice between `StartSucceeded` and `StartFailed`.
- The Discord bridge: a foreign client and sockets.
- The `setTimeout` delays before a launch and before a whole restore: timing only.
- Repository initialisation and folder creation at start-up. `Store.Repo.Open` takes an
  existing repository.
- git internals: status, index and tree objects are abstracted to trees as maps from path
  to bytes. `getReferenceNames` is taken to list exactly the local branches.
- Branch names git itself would refuse, for example with spaces. In the model
  `createBranch` succeeds for any name that is not taken. A refusal by git is an I/O fault
  at the branch step.
- A checkout that fails half-way. A failing checkout is modelled as changing no file.
- `JSON.parse` of text that is not JSON throws out of the handler. The gate takes an
  already-parsed value.
- JSON numbers are integers. Fractional region coordinates, and how JavaScript formats
  them in a file name, are not modelled. `Regions.IntText` writes every integer in plain
  decimal, while `${x}` writes magnitudes of 1e21 and more in exponent form (`1e+21`), and
  `JSON.parse` rounds integers beyond 2^53 to the nearest double; neither case is modelled.
- Strings are sequences of code points, while JavaScript compares UTF-16 code units. The
  two orders differ only for characters outside the Basic Multilingual Plane.
- Lifecycle.Supervisor.SaveFinished: the backup list is broadcast in the same step as
  the return to `initial`. In the code an `await` lies between them, so another event can
  run first.
- Lifecycle.Supervisor.RestoreFinished: the same gap between the return to `initial` and
  the backup broadcast.
- Lifecycle.Supervisor.HandleMessage: the backup list after a successful `auth` is sent in
  the same step. In the code it is sent from a later `.then`, after the state message.
- A `getBackupList` that throws, and the rejected promises of busy commands, end as
  unhandled rejections in the code. Neither is modelled.
- Lifecycle.Supervisor.ChildClosed: it requires a running or stopping child. No other
  state can coexist with a child, so the code's "unexpected state" branch is unreachable
  in the model.
- Logging, the remote address, and reading `config/*.json` from disk.
- Lifecycle.Supervisor.HandleMessage: it runs the corrected `Protocol.Gate`, not the
  handler as written. So the message `null` closes the socket, and a `null` region drops
  the message. In the code both throw a `TypeError` out of the listener (see
  "## Findings"); `Protocol.GateAsWritten` keeps that behaviour.

## Findings

| source | as written | input that shows it | evidently intended | confidence | as-written member | corrected member |
|---|---|---|---|---|---|---|
| src/index.ts:605 | `typeof null` is `"object"`, so `"type" in message` runs on `null` and throws a `TypeError` out of the message listener, before any authentication | the text message `null` on any connection | close the connection, as for every other payload that is not an object | not executed | Protocol.NullMessageCrashes | Protocol.Gate |
| src/index.ts:693-698 | a `null` region passes the `typeof` check, then `region["x"]` throws a `TypeError` out of the message listener | `{"type":"restore","name":"b","regions":[null]}` on an authenticated connection | log "Region id should be an object" and drop the message | not executed | Protocol.NullRegionCrashes | Protocol.NullRegionDropped |
